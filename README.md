# Bag segmentation: post-processing and dataset preparation

This project models, in Dafny, the parts of the bag-segmentation repository that
take a decision rather than call a library:

- `src/produce/produce.py`:
  - the detections built from the model's masks;
  - the confidence sort and the greedy non-maximum suppression, where a detection
    is dropped when an already kept detection of its class overlaps it with IoU
    above 0.5;
  - the `<count>_bags` output directory;
  - one metadata record per kept bag. Each record has a 1-based id, the centre
    between its top-left and bottom-right corners, and the edge (top or right)
    that its angle is measured along. The corners are picked by `sort_corners`.
- `src/prepareDataset/split.py`:
  - the image filter on the file suffix;
  - the cut of the shuffled list at `int(n * 0.75)`;
  - `move_pair`, which moves an image and its `<stem>.txt` label into the `train`
    or `val` folders;
  - the two move loops, train first.
- `src/prepareDataset/produce_txt.py`:
  - the conversion of polygon annotation files into label files. Each file has one
    line per shape: the class id, then the vertices as interleaved `x / width` and
    `y / height` values;
  - the label file's name.

Modules, one per file:

| module | file | what it holds |
|---|---|---|
| `Results` | `results.dfy` | `Option` and `Result` |
| `Text` | `text.dfy` | decimal rendering of a count and its parse back; one-character `join` and `split` |
| `Paths` | `paths.dfy` | paths as component lists; `PurePath.suffix` and `.stem`; ASCII `lower()` |
| `Files` | `files.dfy` | the file system as a class over a path-to-contents map, with `shutil.move` and writing a file |
| `Geometry` | `geometry.dfy` | `sort_corners`, `np.argmin` and `np.argmax`, truncation toward zero, the centre, the long edge |
| `Suppression` | `suppression.dfy` | the stable confidence sort and the greedy pass as specification functions, with their properties |
| `Produce` | `produce.dfy` | the suppression loop, the metadata loop, the output directory, and the whole post-processing run |
| `Split` | `split.dfy` | image collection, the split index, `move_pair`, the loops, and the script as one method |
| `LabelConvert` | `produce_txt.dfy` | normalisation, line and file text, the per-shape and per-file loops |

Every loop the model covers is a method with a `for` loop. Each loop method is proved
equal to a specification function, and the lemmas state what that function
guarantees. `Produce.Run` and `Split.SplitDataset` run the loop methods one after the
other. Their contracts state the results through the same functions. The IoU of two masks is a function parameter. So is the six-decimal
rendering of a value (`fmt`). The shuffled order of the images is an input.

Two consequences of the code come out of the proofs:

- `split.py` fails when two images share a stem, for example `a.png` and `a.jpg`.
  The first of them takes the shared label `a.txt` away, and the second raises
  "missing label" after the earlier moves are done (`Split.SharedLabelFails`). This
  holds also when one of them lands in train and the other in val
  (`Split.SharedLabelFailsBoth`). Conversely, a run that finishes had no two images
  with one stem (`Split.SuccessDistinctBoth`), so it moved every pair.
- In the greedy pass, classes never interact. The bags kept of one class are
  exactly those the pass would keep from that class alone
  (`Suppression.GreedyPerClass`).

## Model

| member | source | states |
|---|---|---|
| Geometry.Truncate | src/produce/produce.py:78 | `astype(np.int32)` / `int(...)` truncate toward zero: the result lies within 1 of the value, on the side of zero |
| Geometry.ArgMinFirst | src/produce/produce.py:30-31 | `np.argmin` picks an index whose value is the smallest, and every earlier index holds a strictly larger value |
| Geometry.ArgMaxFirst | src/produce/produce.py:32-33 | `np.argmax` picks an index whose value is the largest, and every earlier index holds a strictly smaller value |
| Geometry.SortCorners | src/produce/produce.py:26-34 | there are corners exactly when the polygon is non-empty (`np.argmin` of an empty array raises) |
| Geometry.SumExtremes | src/produce/produce.py:27-32 | the TL and BR vertices bound every vertex's x + y from below and above, and no earlier vertex ties them |
| Geometry.DiffExtremes | src/produce/produce.py:28-33 | the TR and BL vertices bound every vertex's y - x from below and above, and no earlier vertex ties them |
| Geometry.SortCornersExtremes | src/produce/produce.py:26-34 | the four corners are vertices; TL/BR have the least/greatest x + y and TR/BL the least/greatest y - x; each is the first such vertex |
| Geometry.LongEdge | src/produce/produce.py:36-40 | the edge measured is the top or the right edge, at least as long as both, and the top edge on a tie |
| Geometry.HalfTruncated | src/produce/produce.py:126 | `int(a / 2)`: twice the result is within 1 of `a`, on the side of zero |
| Geometry.Center | src/produce/produce.py:126 | the centre lies between TL and BR on each axis and is their midpoint to within truncation |
| Suppression.InsertByConfidence | src/produce/produce.py:85 | inserting into a list ordered by descending confidence keeps it ordered and adds exactly the one detection |
| Suppression.SortByConfidence | src/produce/produce.py:85 | `sort(key=conf, reverse=True)`: the result is ordered by descending confidence and is a permutation of the input |
| Suppression.InsertStable | src/produce/produce.py:85 | an insertion puts the new detection after every earlier one of equal confidence |
| Suppression.SortStable | src/produce/produce.py:85 | the sort is stable: the detections of each confidence keep their input order |
| Suppression.SurvivesAppend | src/produce/produce.py:88-92 | a candidate survives a longer kept list iff it survives the shorter one and is not ruled out by the new member |
| Suppression.GreedySubsequence | src/produce/produce.py:87-93 | the kept list is a subsequence of the sorted detections |
| Suppression.GreedyMembers | src/produce/produce.py:87-93 | no more detections are kept than there are, and each kept one is a detection |
| Suppression.GreedyPrefix | src/produce/produce.py:87-93 | `kept` only grows: its value at each point of the loop is a prefix of the final list |
| Suppression.GreedyStep | src/produce/produce.py:87-93 | one iteration appends the detection exactly when no kept detection rules it out |
| Suppression.GreedyKeepsFirst | src/produce/produce.py:87-93 | the highest-confidence detection is always kept, and it comes first |
| Suppression.GreedyNoOverlap | src/produce/produce.py:87-93 | no kept detection is ruled out by one kept before it: two kept detections of one class overlap at most 0.5 |
| Suppression.GreedyDecision | src/produce/produce.py:87-93 | each detection is either kept or ruled out by an earlier detection that is itself kept |
| Suppression.SurvivesWithinClass | src/produce/produce.py:88-91 | only kept detections of the candidate's own class matter to the `all(...)` test |
| Suppression.GreedyPerClass | src/produce/produce.py:87-93 | suppression runs per class: filtering the kept list to a class equals running the pass on that class alone |
| Produce.Candidates | src/produce/produce.py:75-85 | the detections visited are ordered by descending confidence and are a permutation of the masks' detections; no masks means none |
| Produce.SuppressOverlaps | src/produce/produce.py:72-93 | the loop computes the greedy pass over the sorted detections; the result is a subsequence, starts with the first detection, is separated, and covers every dropped detection with a kept one that rules it out |
| Produce.OutputDirRoundTrip | src/produce/produce.py:50-51 | the output directory is one level under `base`, and its `<count>_bags` name reads back as the count |
| Produce.OutputDirsDistinct | src/produce/produce.py:50-51 | different bag counts give different output directories |
| Produce.BuildMetadata | src/produce/produce.py:121-136 | succeeds iff every kept polygon is non-empty; then record `i` has id `i + 1` and the centre and long edge of polygon `i`'s corners; otherwise the error names the first empty polygon |
| Produce.Run | src/produce/produce.py:72-136 | `num_bags` is the size of the greedy result, the directory is `<num_bags>_bags`, no masks gives zero bags, record `i` is the id `i + 1` with the centre and long edge of kept polygon `i`'s corners, and the run fails iff a kept polygon is empty, naming the first one |
| Text.NatToString | src/produce/produce.py:51 | the decimal rendering of a count is non-empty, all digits, and without a leading zero |
| Text.ParseNatToString | src/produce/produce.py:51 | parsing a count's decimal rendering gives the count back |
| Text.NatToStringInjective | src/produce/produce.py:51 | different counts render differently |
| Text.SplitOnHead | src/prepareDataset/produce_txt.py:32 | splitting at a separator that does not occur in the head gives the head, then the split of the rest |
| Text.SplitOnNone | src/prepareDataset/produce_txt.py:32 | a string without the separator splits into itself alone |
| Text.SplitJoin | src/prepareDataset/produce_txt.py:32-37 | `split(sep)` inverts `sep.join` for a non-empty list of separator-free parts |
| Text.JoinAvoids | src/prepareDataset/produce_txt.py:32-37 | a character other than the separator is absent from the joined string when it is absent from every part |
| Paths.RFind | src/prepareDataset/split.py:24 | the index of the last occurrence of a character, or -1 when there is none |
| Paths.StemSuffix | src/prepareDataset/split.py:35 | the stem followed by the suffix gives back the name, and the suffix is empty or one dot followed by dot-free characters |
| Paths.StemOfExtension | src/prepareDataset/produce_txt.py:35 | for a non-empty base and a dot-led, dot-free extension, the stem is the base and the suffix the extension |
| Paths.Lower | src/prepareDataset/split.py:24 | `lower()` keeps the length, leaves no ASCII upper-case letter, turns each upper-case letter into its lower-case letter and leaves every other character unchanged |
| Paths.LowerIdempotent | src/prepareDataset/split.py:24 | lowering twice is lowering once |
| Files.Moved | src/prepareDataset/split.py:40-41 | after `shutil.move` the destination holds the source's contents, the source is gone, and every other path is unchanged |
| Files.FileSystem.Move | src/prepareDataset/split.py:40-41 | `shutil.move` succeeds iff the source exists; then the map becomes the moved map, otherwise it is unchanged |
| Files.FileSystem.Write | src/prepareDataset/produce_txt.py:36-37 | writing a file creates or replaces that one path with the text and leaves the rest of the map unchanged |
| Split.ImageNameIff | src/prepareDataset/split.py:24 | a name is collected iff it ends, case-insensitively, in `.png`, `.jpg` or `.jpeg` after a non-empty stem |
| Split.CollectImages | src/prepareDataset/split.py:24 | a name is in the image list iff it is in the listing and passes the suffix filter |
| Split.SplitIndex | src/prepareDataset/split.py:30 | `int(n * 0.75)` is the floor of 3n/4 |
| Split.SplitIndexBounds | src/prepareDataset/split.py:30-32 | a non-empty list leaves at least one image for val, and two or more images give train at least one |
| Split.Partition | src/prepareDataset/split.py:31-32 | train followed by val is the shuffled list, and train has `int(n * 0.75)` images |
| Split.PartitionDisjoint | src/prepareDataset/split.py:31-32 | without repeats in the shuffled list, no image is in both parts |
| Split.MovePairEffect | src/prepareDataset/split.py:34-41 | `move_pair` fails iff the label or the image is missing, reports the label first and then changes nothing; otherwise the pair is in the split folders with its contents, the sources are gone, and nothing else changes |
| Split.MoveAllSuccess | src/prepareDataset/split.py:43-47 | a loop without exceptions over pairs with distinct images and labels moves every pair with its contents and touches no other path |
| Split.MoveAllFailure | src/prepareDataset/split.py:43-47 | an exception stops the loop at the failing pair; the pairs before it have all been moved |
| Split.MissingLabelStops | src/prepareDataset/split.py:37-47 | once some listed image's label is missing, the loop fails |
| Split.SharedLabelFails | src/prepareDataset/split.py:35-47 | two listed images with the same stem make the loop fail |
| Split.SuccessDistinct | src/prepareDataset/split.py:35-47 | a loop that raises nothing ran over images with pairwise different names and stems |
| Split.SuccessDistinctBoth | src/prepareDataset/split.py:35-47 | the train loop followed by the val loop, raising nothing, ran over images with pairwise different names and stems, across the cut too |
| Split.SharedLabelFailsBoth | src/prepareDataset/split.py:35-47 | two images with one stem make the script fail, in the same part or on both sides of the cut |
| Split.MoveBothSuccess | src/prepareDataset/split.py:43-47 | with no precondition besides success, a successful run leaves every train pair in the train folders and every val pair in the val folders and changes nothing else |
| Split.MovePair | src/prepareDataset/split.py:34-41 | the method's new file map and error are exactly those `move_pair` is specified to produce |
| Split.MoveEach | src/prepareDataset/split.py:43-47 | the loop's new file map and the error that stopped it are those of the moves of the names in order |
| Split.MoveAllKeepsImage | src/prepareDataset/split.py:43-47 | the moves leave the image of any name not among them in place, even when they stop early |
| Split.MoveAllOnlyMissingLabel | src/prepareDataset/split.py:37-47 | over distinct names whose images all exist, the loop can stop only on a missing label |
| Split.MoveBothOnlyMissingLabel | src/prepareDataset/split.py:43-47 | the same for the train loop followed by the val loop |
| Split.SplitDataset | src/prepareDataset/split.py:24-47 | for a listing of distinct existing files: an empty image list fails with no change; otherwise the files and the outcome are those of moving the train part of the shuffled list and then the val part, the only error is a missing label, and on success every train pair is in the train folders and every val pair in the val folders with its contents |
| LabelConvert.Normalized | src/prepareDataset/produce_txt.py:26-30 | two values per point |
| LabelConvert.NormalizedAt | src/prepareDataset/produce_txt.py:28-30 | value `2i` is `x_i / width` and value `2i + 1` is `y_i / height` |
| LabelConvert.NormalizeRoundTrip | src/prepareDataset/produce_txt.py:28-30 | for a non-zero image size, multiplying the values back gives the points: nothing is lost |
| LabelConvert.NormalizePoints | src/prepareDataset/produce_txt.py:26-30 | the loop raises division by zero iff there is a point and a zero image size; otherwise it computes the interleaved values |
| LabelConvert.LineForSpec | src/prepareDataset/produce_txt.py:22-30 | an unknown label raises whatever the points; otherwise the line has the label's class id (0 for `bag`) and the normalised values, unless the size is zero and there are points |
| LabelConvert.ConvertShapesSpec | src/prepareDataset/produce_txt.py:19-33 | one line per shape, in order, iff every shape converts; otherwise the error of the first shape that fails |
| LabelConvert.ConvertAnnotation | src/prepareDataset/produce_txt.py:16-33 | the per-shape loop computes the lines of all shapes or stops at the first exception |
| LabelConvert.LineTextFields | src/prepareDataset/produce_txt.py:32 | every line splits on spaces into the decimal class id and the rendered values (a shape without points gives the id and one empty field), and the first field reads back as the id |
| LabelConvert.FileTextLines | src/prepareDataset/produce_txt.py:37 | no shapes give an empty file; otherwise splitting the file on newlines gives exactly the line texts |
| LabelConvert.OutputPathOfJson | src/prepareDataset/produce_txt.py:35 | `<base>.json` is written to `labels/<base>.txt` |
| LabelConvert.ConvertAll | src/prepareDataset/produce_txt.py:12-37 | the loop over the `*.json` files leaves the file map and the error that stopped it as the specification function gives them |
| LabelConvert.ConvertAllSuccess | src/prepareDataset/produce_txt.py:12-37 | a run without exceptions writes each matching file's text to its label file and changes no other file |

## Left out

- The YOLO model and its two inference calls (`produce.py` lines 62, 69 and 104) and `src/train/train.py`: the masks are an input.
- `mask_iou` (`produce.py` lines 43-48): rasterising polygons with OpenCV is not modelled, so the IoU is a function parameter. An empty union gives NaN in numpy, and NaN is outside the model.
- `bag_angle`'s `arctan2`, `degrees` and `round(..., 2)` (`produce.py` lines 41 and 131): floating-point trigonometry is not modelled. The model keeps the edge that the angle is measured along.
- Geometry.LongEdge: compares squared integer lengths rather than the floating-point `np.linalg.norm`. The two orders agree except where float rounding makes two nearly equal norms compare differently.
- Geometry.Truncate: does not model overflow of `int32` coordinates or float values too large for an integer.
- Split.SplitIndex: `int(n * 0.75)` equals the floor of 3n/4 only while 3n is exactly representable as a double (below 2^53).
- The drawing, image reading and writing, JSON dump, timestamps, printing, argument parsing, directory creation and the rename of the YOLO output image in `produce.py` are I/O.
- `IMG_DIR.iterdir()` in `split.py`: the directory listing is an input. Split.SplitDataset requires what `iterdir()` guarantees: the names are distinct and each image file exists in the file map.
- `random.seed` and `random.shuffle` in `split.py`: the shuffled order is an input, required to be a permutation of the collected images.
- The creation of the `train` and `val` directories (`split.py` lines 19-21) and `output_dir.mkdir(exist_ok=True)` in `produce_txt.py`: the file map holds files only, not directories.
- `shutil.move` onto an existing directory, cross-device copying, and permission errors are not modelled. A move renames a path in the map and overwrites any file at the destination.
- Paths.Lower: lowers ASCII letters only. Python's `str.lower()` also maps other Unicode letters.
- `PurePath.suffix` and `.stem` follow the rule where the last dot counts only when it is neither the first nor the last character of the name.
- `json_dir.glob("*.json")` is modelled as a test that the name ends in `.json`, over a list of entries given in the order the glob yields them.
- Reading and parsing the JSON files: a parsed annotation is an input. Missing keys and malformed points, which raise in Python, are outside the model.
- The `:.6f` rendering of a value is the parameter `fmt`.
- LabelConvert.LineTextFields and LabelConvert.FileTextLines: assume that `fmt` never produces a space or a newline. `:.6f` never does.
- `print` calls and the `✔`/`✅` messages are output only.
- Python's float division in `produce_txt.py` is modelled as exact division on reals.
