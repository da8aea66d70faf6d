/**
 One run of `process_image` in main.py: decode, correct the orientation,
 name the output, compute the target size and save; every failure is caught
 and reported as `False`.
 */
module Process {

  import opened Wrappers
  import opened Images
  import opened Orientation
  import opened Sizing
  import opened Paths

  /** The fixed text that replaces the destination's extension. */
  const Suffix := "_zmensene.jpg"

  /**
   The name the result is saved under: the destination with its final
   extension removed and the suffix appended.
   */
  function OutputPath(outputPath: string): (r: string)
    ensures |Suffix| <= |r| && r[|r| - |Suffix|..] == Suffix
    ensures var stem := r[..|r| - |Suffix|];
            && stem <= outputPath
            && IsExtension(outputPath[|stem|..])
    ensures r == outputPath + Suffix <==> NoExtension(outputPath)
  {
    var (stem, ext) := SplitExt(outputPath);
    assert (stem + Suffix)[..|stem|] == stem;
    stem + Suffix
  }

  /** Whatever the extension, it is the stem before it that gets the suffix. */
  lemma OutputPathReplacesExtension(stem: string, ext: string)
    requires ext != [] && IsExtension(ext)
    requires NamedLast(stem)
    ensures OutputPath(stem + ext) == stem + Suffix
  {
    SplitExtJoin(stem, ext);
  }

  /** The test suite's case: `<dir>/output.jpg` is saved as `<dir>/output_zmensene.jpg`. */
  lemma OutputPathExample(dir: string)
    ensures OutputPath(dir + "/output.jpg") == dir + "/output_zmensene.jpg"
  {
    var stem := dir + "/output";
    calc {
      OutputPath(dir + "/output.jpg");
      { assert dir + "/output.jpg" == stem + ".jpg"; }
      OutputPath(stem + ".jpg");
      { NamedStem(dir);
        assert IsExtension(".jpg");
        OutputPathReplacesExtension(stem, ".jpg"); }
      stem + Suffix;
      dir + "/output_zmensene.jpg";
    }
  }

  lemma NamedStem(dir: string)
    ensures NamedLast(dir + "/output")
  {
    LastIndexAppend(dir + "/", "output", Sep);
    assert dir + "/output" == (dir + "/") + "output";
    assert (dir + "/output")[|dir| + 1] != ExtSep;
  }

  /**
   What the codec gives back for the source path: a failure to open, decode
   or convert it, or the decoded image with its EXIF block.
   */
  datatype Source = Unreadable | Decoded(image: Image, exif: Exif)

  /** The stage at which `process_image` gave up. */
  datatype Failure = OpenFailed | InvalidTargetSize | SaveFailed

  /** A saved JPEG, with its name, size and quality, or a failure that writes nothing. */
  datatype Outcome = Saved(path: string, size: Size, quality: int) | Failed(reason: Failure)

  /** The truth value `process_image` returns. */
  predicate Succeeded(o: Outcome)
  {
    o.Saved?
  }

  /** The size the saved image would have, once the orientation is corrected. */
  function OrientedTarget(source: Source, maxDimension: int): Option<Size>
    requires source.Decoded?
  {
    TargetSize(CorrectOrientation(source.image, source.exif).size, maxDimension)
  }

  /**
   `process_image`: `saveSucceeds` stands for whether the codec manages to
   write the JPEG.
   */
  function ProcessImage(source: Source, outputPath: string, maxDimension: int, quality: int, saveSucceeds: bool): (r: Outcome)
    ensures Succeeded(r) <==> source.Decoded? && OrientedTarget(source, maxDimension).Some? && saveSucceeds
    ensures r == Failed(InvalidTargetSize) <==> source.Decoded? && OrientedTarget(source, maxDimension).None?
    ensures Succeeded(r) ==> r.path == OutputPath(outputPath) && r.quality == quality
    ensures Succeeded(r) ==> Some(r.size) == OrientedTarget(source, maxDimension)
    ensures Succeeded(r) ==>
              && 1 <= r.size.width <= maxDimension && 1 <= r.size.height <= maxDimension
              && Area(r.size) <= Area(source.image.size)
    ensures maxDimension <= 0 ==> !Succeeded(r)
  {
    match source
    case Unreadable => Failed(OpenFailed)
    case Decoded(image, exif) =>
      var oriented := CorrectOrientation(image, exif);
      var path := OutputPath(outputPath);
      match TargetSize(oriented.size, maxDimension)
      case None => Failed(InvalidTargetSize)
      case Some(size) =>
        TargetSizeBounds(oriented.size, maxDimension);
        AreaMonotone(size, oriented.size);
        if saveSucceeds then Saved(path, size, quality) else Failed(SaveFailed)
  }

  lemma AreaMonotone(small: Size, large: Size)
    requires small.width <= large.width && small.height <= large.height
    ensures Area(small) <= Area(large)
  {
    MulMonotone(small.width, large.width, small.height);
    MulMonotone(small.height, large.height, large.width);
  }

  /** A decodable image saved with a large enough maximum keeps its corrected size. */
  lemma SmallImageKeepsItsSize(source: Source, outputPath: string, maxDimension: int, quality: int)
    requires source.Decoded?
    requires var s := CorrectOrientation(source.image, source.exif).size;
             1 <= s.width && 1 <= s.height && DrivingSide(s) <= maxDimension
    ensures ProcessImage(source, outputPath, maxDimension, quality, true)
            == Saved(OutputPath(outputPath), CorrectOrientation(source.image, source.exif).size, quality)
  {
    TargetSizeKeepsSmallImage(CorrectOrientation(source.image, source.exif).size, maxDimension);
  }
}
