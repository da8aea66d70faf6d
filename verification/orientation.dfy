/**
 Best-effort orientation correction from the EXIF orientation tag
 (`correct_orientation` in main.py). Only the three pure rotations are
 handled; the mirrored orientations 2, 4, 5 and 7 are left as they are.
 */
module Orientation {

  import opened Wrappers
  import opened Images

  /** EXIF tag id of the orientation field. */
  const OrientationTag := 274

  /**
   What reading the EXIF block yields: the read raising (no `_getexif`,
   unparsable data), no block at all (`None`), or the tag table.
   */
  datatype Exif = ReadFails | NoExif | Tags(tags: map<int, int>)

  /** The orientation value found in the EXIF block, when there is one. */
  function OrientationValue(exif: Exif): Option<int>
  {
    match exif
    case Tags(tags) => if OrientationTag in tags then Some(tags[OrientationTag]) else None
    case _ => None
  }

  /** The EXIF block was read and its orientation tag holds `value`. */
  predicate TaggedWith(exif: Exif, value: int)
  {
    exif.Tags? && OrientationTag in exif.tags && exif.tags[OrientationTag] == value
  }

  /** The correcting rotation for an orientation value: 3, 6 and 8 only. */
  function CorrectingTurn(value: int): Option<Turn>
  {
    if value == 3 then Some(Turn180)
    else if value == 6 then Some(Turn270)
    else if value == 8 then Some(Turn90)
    else None
  }

  /**
   Rotates the image as the orientation tag asks; every other case returns
   the image as it was, and no case fails.
   */
  function CorrectOrientation(img: Image, exif: Exif): (r: Image)
    ensures TaggedWith(exif, 3) ==>
              r.size == img.size && r.turn == (img.turn + 180) % 360
    ensures TaggedWith(exif, 6) ==>
              r.size == Transposed(img.size) && r.turn == (img.turn + 270) % 360
    ensures TaggedWith(exif, 8) ==>
              r.size == Transposed(img.size) && r.turn == (img.turn + 90) % 360
    ensures r == img <==> !(TaggedWith(exif, 3) || TaggedWith(exif, 6) || TaggedWith(exif, 8))
    ensures Area(r.size) == Area(img.size)
  {
    match OrientationValue(exif)
    case Some(v) =>
      (match CorrectingTurn(v)
       case Some(t) => Rotate(img, t)
       case None => img)
    case None => img
  }

  /**
   Reference table of the EXIF orientation tag: the counter-clockwise turn by
   which the stored pixels differ from the upright scene, for the values the
   correction handles.
   */
  function StoredTurn(value: int): Turn
    requires value in {3, 6, 8}
  {
    if value == 3 then Turn180
    else if value == 6 then Turn90
    else Turn270
  }

  /**
   A camera that stored an upright scene turned as the tag says, together with
   that tag, is corrected back to the upright scene, whatever else the tag
   table holds.
   */
  lemma CorrectionRestoresUpright(upright: Image, tags: map<int, int>)
    requires NormalTurn(upright.turn)
    requires OrientationTag in tags && tags[OrientationTag] in {3, 6, 8}
    ensures CorrectOrientation(Rotate(upright, StoredTurn(tags[OrientationTag])), Tags(tags)) == upright
  {
    var t := StoredTurn(tags[OrientationTag]);
    assert CorrectingTurn(tags[OrientationTag]) == Some(Inverse(t));
    RotateInverse(upright, t);
  }

  /** A 100x200 picture tagged 6 comes out 200x100. */
  lemma PortraitTaggedSixTurnsLandscape(turn: int)
    ensures CorrectOrientation(Image(Size(100, 200), turn), Tags(map[OrientationTag := 6])).size == Size(200, 100)
  {
  }
}
