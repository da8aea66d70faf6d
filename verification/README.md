# image_compressing_tool in Dafny

A model of `main.py` from the image compressing tool. The script walks an
input folder, corrects each image's orientation from its EXIF tag, shrinks it
so that its longer side is at most a maximum dimension, and saves it as
`<name>_zmensene.jpg` under a mirrored `compressed/` tree. At the end it
prints `processed/total`.

The model is purely functional. The image codec, the file system and the
thread pool are replaced by values and parameters:

- `wrappers.dfy`: `Option`.
- `images.dfy`: an image as its size plus the turn it has accumulated. This
  is all the script looks at. Rotation with `expand=True` swaps the sides on
  a quarter turn and keeps them on a half turn.
- `orientation.dfy`: `correct_orientation`. This covers the three outcomes of
  reading EXIF (raises, no block, tag table), the mapping from tag 274 to a
  rotation (3 gives 180, 6 gives 270, 8 gives 90), and "anything else returns
  the image as it was". It also holds a reference table that says how a
  camera stores each tag value. Against that table, the correction is proved
  to restore the upright scene.
- `sizing.dfy`: the new-size computation of `process_image`, with Python's
  `int()` truncation written out. The `None` result stands for the two ways
  the script raises: a non-positive side, or a zero-height image.
- `paths.dfy`: the POSIX path helpers the script relies on: `str.rfind`,
  `os.path.splitext`, `os.path.join` and the substring test `in`. It also
  defines `os.path.basename`, which the script does not call; it is used
  only to state where a destination's file name sits.
- `process.dfy`: `process_image`, with the failure stages as an `Outcome`.
- `batch.dfy`: `compress_images`. This covers:
  - the `os.walk` entries as data;
  - the skip rule `output_folder in root`;
  - the mirrored destination;
  - the tasks submitted in walk order;
  - `total_files` exactly as written;
  - the `processed_files` count.

Three details of `main.py` that the model keeps as written:

- The scaled side is truncated by `int()` (main.py:53, 56), not rounded.
- `total_files` counts every listed file, including those under
  `compressed/` (main.py:79). See Findings.
- The skip is a substring test (main.py:89). Every root whose path contains
  `<input>/compressed` is skipped, so `compressed_old/` is skipped too.

## Model

| member | source | states |
|---|---|---|
| Images.Rotate | main.py:18-23 | a 90 or 270 degree turn swaps width and height and a 180 degree turn keeps them; the area is unchanged; the accumulated turn advances by the angle, modulo 360 |
| Images.RotateInverse | main.py:18-23 | turning by 90, 180 or 270 degrees and then by the complementary angle gives back the same image |
| Orientation.CorrectOrientation | main.py:7-27 | tag 3 keeps the size and turns 180; tags 6 and 8 swap the sides and turn 270 and 90; the image is returned unchanged exactly when the tag is not 3, 6 or 8, which includes a failing EXIF read and a missing block or tag; the area never changes |
| Orientation.CorrectionRestoresUpright | main.py:14-23 | a scene stored turned the way tag 3, 6 or 8 describes comes back upright, whatever other tags are present |
| Orientation.PortraitTaggedSixTurnsLandscape | test_main.py:77-91 | a 100x200 image tagged 6 becomes 200x100 |
| Sizing.TruncDiv | main.py:53 | Python's `int()` of a quotient: the floor for non-negative numerators, never positive for negative ones, and positive exactly when the numerator reaches the divisor |
| Sizing.ScaleSides | main.py:51-60 | the driving side is capped at the maximum; the other side is the truncated proportional size, at least 1; there is a result exactly when the maximum is positive and the scaled side does not truncate to 0 |
| Sizing.TargetSize | main.py:49-60 | a size exists exactly when the maximum is positive, the longer side (the height on ties) is positive and the shorter side does not truncate to 0; the longer side becomes min(side, maximum), and the other side is the floor of the proportional size |
| Sizing.TargetSizeBounds | main.py:49-60 | a computed size has both sides at least 1, no side larger than the original or than the maximum, and the same landscape/portrait shape as the original |
| Sizing.TargetSizeKeepsSmallImage | main.py:51-56 | an image whose longer side is already within the maximum keeps its size |
| Sizing.TargetSizeIdempotent | main.py:49-62 | resizing an already resized image with the same maximum changes nothing |
| Sizing.TargetSizeMonotone | main.py:51-60 | a larger maximum succeeds wherever a smaller one does, and gives sides at least as large |
| Sizing.TargetSizeExamples | test_main.py:111-199 | 4000x2000 at 1920 gives 1920x960; 100x100 at 1 gives 1x1; 100x100 at -10 fails |
| Paths.LastIndex | main.py:45 | `rfind`: -1 or an index holding the character, with no later occurrence |
| Paths.SplitExt | main.py:45 | `splitext`: stem plus extension rebuild the path; the extension is empty or starts at a dot after the last separator; a non-empty extension leaves a stem whose last component has a non-dot character; the extension is empty exactly when the last component has no dot after its leading dots |
| Paths.SplitExtJoin | main.py:45 | a stem whose last component has a non-dot character, followed by one dot-led extension without separators or further dots, splits back into that stem and extension |
| Paths.Contains | main.py:89 | Python's `needle in hay` holds exactly when the needle occurs at some offset of the hay |
| Process.OutputPath | main.py:44-46 | the save path ends with `_zmensene.jpg`; what precedes the suffix is a prefix of the destination, and the rest of the destination is its extension; the suffix is simply appended exactly when the destination has no extension |
| Process.OutputPathReplacesExtension | main.py:44-46 | any extension of a named stem is replaced by the suffix |
| Process.OutputPathExample | test_main.py:98-107 | `<dir>/output.jpg` is saved as `<dir>/output_zmensene.jpg` |
| Process.ProcessImage | main.py:30-69 | returns True exactly when the source decodes, the corrected image has a target size and the save succeeds; it fails at the size stage exactly when the source decodes but has no target size; on success the file goes to the suffixed path with the given quality, the saved size is the target size of the orientation-corrected image, and that size is within 1..maximum and never larger in area than the source; a non-positive maximum always fails |
| Process.SmallImageKeepsItsSize | main.py:49-65 | a decodable image already within the maximum is saved at its corrected size |
| Batch.FileTasks | main.py:97-106 | as many tasks as there are positions in the listing whose path is a regular file, so never more than the listed files; each carries the run's maximum and quality |
| Batch.FileTasksMembership | main.py:97-106 | a task is submitted for a directory exactly when it is the task of one of its files that is a regular file |
| Batch.Tasks | main.py:87-106 | the submitted tasks number at most the listed files, and each carries the run's maximum and quality |
| Batch.TasksMembership | main.py:87-106 | a task is submitted exactly when it belongs to a regular file listed under a root that is not skipped |
| Batch.TasksMirrorSources | main.py:87-104 | for a walk whose names are non-empty and free of separators, every submitted task comes from a regular file of a root that is not skipped; it reads that file under its root and writes `<input>/compressed/<relpath>/<file>`, whose basename is the file's name |
| Batch.TasksWithinKeptFiles | main.py:87-106 | the number of tasks is the number of regular files, counted by position, under roots that are not skipped; hence no more tasks than files under those roots, and exactly that many when every file under those roots is regular, whatever lies under skipped roots |
| Batch.CountSucceeded | main.py:108-110 | the processed count is at most the number of tasks; it equals that number exactly when every task succeeds, and is 0 exactly when none does |
| Batch.CountSucceededCountsSuccesses | main.py:108-110 | the processed count is the number of positions whose task returned True |
| Batch.CompressImages | main.py:72-113 | the summary's total is `total_files` as written; the processed count is the number of submitted tasks that return True, which is at most the number of submitted tasks, which is at most the number of files under roots that are not skipped |
| Batch.DestinationMirrorsSource | main.py:93-99 | the destination is `<input>/compressed/<relpath>/<file>` and its basename is the source file's name; a nested root is the input joined with its relative path |
| Batch.SkipsEverythingNamedLikeTheOutput | main.py:88-90 | every root below a first-level directory whose name starts with "compressed" is skipped, including the output folder itself |
| Batch.TotalCountsEveryListedFile | main.py:79 | for a non-empty input, `total_files` counts every listed file, because the output folder path is never a bare directory name |
| Batch.KeptWithinListed | main.py:87-90 | the files under roots that are not skipped are at most all the listed files |
| Batch.ProcessedAtMostTotal | main.py:79-113 | for a non-empty input, the processed count never exceeds the reported total |
| Batch.PreexistingOutputCountedInTotal | test_main.py:312-333 | a new image beside a `compressed/` folder that holds one earlier result is reported as 1/2 as written, and 1/1 with the intended total |
| Batch.CompressImagesIntended | main.py:79 | with the intended total, the processed count never exceeds the total; the total equals the number of submitted tasks when every file under a root that is not skipped is regular, whatever lies under skipped roots |
| Batch.IntendedTotalMatchesSchedule | main.py:79 | the count of files under roots that are not skipped equals the number of submitted tasks when every such file is regular, whatever lies under skipped roots |
| Batch.EmptyFolderSummary | test_main.py:238-250 | a folder tree with no files reports 0/0 |
| Batch.NonPositiveMaxProcessesNothing | main.py:58-111 | with a maximum dimension of 0 or less, every task fails, so nothing counts as processed |

## Left out

- Pixel data, the RGB conversion and LANCZOS resampling: only the size and turn of an image are modelled.
- JPEG encoding with quality, `optimize` and `progressive`: the quality is carried to the save unchanged and is not range-checked, just as the script does not check it. The test that lower quality gives a smaller file depends on the encoder and is not modelled.
- Sizing.TargetSize: the script computes `int((new / side) * other)` in floating point; the model uses the exact rational value. A float rounding just below an integer can make the script's side one pixel smaller, and that can turn a success into a failure: for a 49x49 image at maximum 1, Python computes `(1/49)*49` as `0.9999999999999999`, so the side truncates to 0 and main.py:59-60 raises, while `TargetSize` gives 1x1. The "exactly when" statements of `Sizing.TargetSize`, `Sizing.ScaleSides` and `Process.ProcessImage` are therefore about exact arithmetic.
- Orientation.CorrectOrientation: EXIF values that are not integers are treated like any other value outside 3, 6 and 8. Exceptions raised by `rotate` itself, which the script would also swallow, are not modelled.
- The mirrored orientations 2, 4, 5 and 7 are not in the reference table of `Orientation.StoredTurn`, because the script does not handle them.
- Process.ProcessImage: a failed save may leave a partly written file; the model records only the failure.
- `print` output: the per-file error line, the start banner and the progress lines. Only the two numbers of the closing line are modelled (`Batch.Summary`).
- `ThreadPoolExecutor`: each task's result is a parameter (`succeeds`, or `Batch.ImageOracle` built from `Process.ProcessImage`). Results are read in submission order, so concurrency does not affect the counts.
- `os.walk`, `os.path.isfile` and `os.makedirs` are not called: the walk is a sequence of entries and `isFile` is a parameter. The directory-creation side effect is not modelled, and neither is a failing `os.makedirs` (main.py:95): its exception is not caught, so it aborts the whole run with no summary, whereas `Batch.CompressImages` always returns one. The two walks in `compress_images` are assumed to see the same tree.
- `os.path.relpath` is modelled for walk roots only (the names below the input, joined by `/`); its `abspath`/`normpath` work on arbitrary paths is not. A path such as `compressed/./file` is kept with its `.` component, as `os.path.join` produces it.
- Paths: POSIX separators only; Windows paths and `altsep` are not modelled.
- Batch.ProcessedAtMostTotal: requires a non-empty input and directory names without separators. With the input "" (the script's default), `os.walk` yields nothing on a real system, but the model does not capture that.
- The default arguments `quality=65` and `max_dimension=1920` (main.py:72): `Batch.CompressImages` takes both explicitly.
- The module-level code at main.py:116-122, which reads `sys.argv` and calls `compress_images` on import, is not modelled.

## Findings

| source | as written | input that shows it | evidently intended | confidence | as-written member | corrected member |
|---|---|---|---|---|---|---|
| main.py:79 | `total_files` filters on `output_folder not in _`, where `_` has been rebound to the walk's directory-name list, so for a non-empty input nothing is excluded and files already under `compressed/` are counted | an input folder holding `new_image.png` and `compressed/already_compressed_zmensene.jpg`: one task is submitted and succeeds, and the summary reads 1/2 | exclude the skipped roots, as the loop at main.py:87-90 does, so that the total is the number of files that can be processed (1/1 here) | high (not executed) | Batch.PreexistingOutputCountedInTotal | Batch.CompressImagesIntended |
