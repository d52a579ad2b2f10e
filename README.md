# BDD dataset reader: labels and paths

A Dafny model of the core of YOLOP's BDD100K dataset reader
(`lib/dataset/bdd.py`). For every drivable-area mask, the reader works out
the sibling paths of the detection label, the camera image and the lane mask
by text substitution on the mask path. It then reads the frame's objects,
keeps those that have a `box2d` (in single-class mode, only those whose raw
category is a single-class key), and fills a zero table with one row of five
columns per kept object: `[class id, centre x, centre y, width, height]`.
A traffic light is looked up under `tl_<colour>`. An object of an unknown
category leaves its row all zeros. In single-class mode every known object
gets class id 0.

Modules:

- `Wrappers`: `Option` and `Result`. A `Result` failure stands for a Python
  exception.
- `PyStr`: Python's `str.replace` (every occurrence, including CPython's
  behaviour for an empty pattern). Beside it are `str.find`, `str.split` and
  `str.join` as an independent reference: `Replace(s, p, r)` equals
  `Join(Split(s, p), r)`.
- `BddPaths`: the label, image and lane paths (bdd.py lines 35-37).
- `BddLabels`: `filter_data` as the method `FilterData`, and the label loop
  of `_get_db` as the method `LabelTable`. The loop fills a freshly
  allocated `array2<real>` in place. Both methods are proved against the
  specification functions `Filtered`, `Row` and `Table`, and the lemmas
  state what those functions guarantee.
- `BddDatabase`: the outer loop of `_get_db`, which appends one record per
  mask (`GetDb`), and one pass of that loop (`FrameRecord`).

Inputs that come from outside the file are parameters:

- the class tables `id_dict` (a `map<string, int>`) and `id_dict_single`
  (only its keys are read, so it is a `set<string>`);
- the single-class switch;
- the image shape `(height, width)`;
- the box normaliser `convert`, a function-valued field of `Settings`;
- the root directories (`Roots`);
- the mask list;
- a function `load` that gives the object list of a label file.

The code passes the box to `convert` as `(x1, x2, y1, y2)`, with the image
size as `(width, height)`. The model keeps that order.

## Model

| member | source | states |
|---|---|---|
| `BddLabels.Keep` | lib/dataset/bdd.py:81-86 | the filter test: the object has a `box2d` and, in single-class mode, its raw category is a single-class key; `FilteredObjectsPass`, `MultiClassFilterIgnoresSingleTable` and `TrafficLightFilteredByRawName` state what it implies |
| `BddLabels.Filtered` | lib/dataset/bdd.py:78-87 | the specification of `filter_data`: walks the objects in order and keeps one exactly when `Keep` holds (it has a `box2d` and, in single-class mode, a raw category among the single-class keys, lines 81-84); the result is never longer than the input, and equals the input when every object passes |
| `BddLabels.FilterData` | lib/dataset/bdd.py:78-87 | the loop that appends to `remain` returns exactly `Filtered(data)`: the objects with a box, restricted in single-class mode to raw categories in the single-class keys, in input order |
| `BddLabels.FilteredSelectsKept` | lib/dataset/bdd.py:79-87 | the filter result is the input's elements at a strictly increasing list of positions, and a position is in that list exactly when its object passes the filter (nothing invented, dropped or reordered) |
| `BddLabels.KeptPositionsSelect` | lib/dataset/bdd.py:79-87 | the increasing list of positions whose object passes the filter picks out exactly the filter result: same length, element `k` of the result is the object at the `k`-th kept position, and a position is listed exactly when its object passes |
| `BddLabels.FilteredObjectsPass` | lib/dataset/bdd.py:81-84 | every object the filter returns has a `box2d`, and in single-class mode a raw category that is a single-class key |
| `BddLabels.MultiClassFilterIgnoresSingleTable` | lib/dataset/bdd.py:82-86 | with single-class mode off, the result does not depend on `id_dict_single`: only the presence of `box2d` decides |
| `BddLabels.TrafficLightFilteredByRawName` | lib/dataset/bdd.py:83 | the single-class test uses the raw category: adding `tl_<colour>` to the single-class keys neither admits nor rejects a traffic light |
| `BddLabels.LookupKey` | lib/dataset/bdd.py:46-50 | the key the category is looked up under: it fails, with `KeyError("trafficLightColor")`, exactly for a traffic light without a colour; any other category is its own key; a successful key is never the raw name `"traffic light"` (a traffic light becomes `tl_<colour>`) |
| `BddLabels.Row` | lib/dataset/bdd.py:43-65 | a row that is produced always has exactly five entries |
| `BddLabels.Table` | lib/dataset/bdd.py:43-65 | a table that is produced has one row per object, and every row has five entries |
| `BddLabels.TableIsRowwise` | lib/dataset/bdd.py:43-65 | the table succeeds exactly when every object's row succeeds; row `k` is object `k`'s row alone; a failure is the exception of the first object that raises |
| `BddLabels.RaisesFirst` | lib/dataset/bdd.py:45-57 | when object `k` is the first to raise, the build fails with that object's `KeyError` |
| `BddLabels.FirstFailureUnique` | lib/dataset/bdd.py:45 | the first raising object is unique, so the exception raised is determined |
| `BddLabels.LabelTable` | lib/dataset/bdd.py:43-65 | allocates a fresh zero table and returns it with exactly `len(data)` rows and 5 columns, also for an empty frame; it overwrites row `idx` only; it fails exactly when `Table` does, with the same `KeyError`; on success every entry equals `Table`'s |
| `BddLabels.TableRowContents` | lib/dataset/bdd.py:46-65 | for a built table, an object whose (possibly renamed) category is not in `id_dict` has an all-zero row; a known one has a box, class id `0` in single-class mode or `id_dict[category]` otherwise, and the normalised box in columns 1-4 |
| `BddLabels.SingleClassTableHasClassZero` | lib/dataset/bdd.py:59-62 | in single-class mode every row, known or unknown, has class id 0 |
| `BddLabels.TrafficLightIgnoresRawClass` | lib/dataset/bdd.py:46-53 | a traffic light with a colour is looked up under `"tl_" + colour`, and an `id_dict` entry for the raw name `"traffic light"` never changes its row |
| `BddLabels.FilteredTableRaisesOnlyForColour` | lib/dataset/bdd.py:41-57 | on filtered data the table can only fail with a missing `trafficLightColor`, never a missing `box2d` |
| `BddDatabase.FrameLabels` | lib/dataset/bdd.py:35-43 | the label table of one frame: the objects of the label file named by `LabelPath`, filtered, then tabulated; it has at most one row per object in the file, and it can only fail with a missing `trafficLightColor` |
| `BddDatabase.FrameRecord` | lib/dataset/bdd.py:34-73 | one pass of the mask loop: fails exactly when `FrameLabels` does, with its exception; otherwise a record with the mask path, its image and lane paths, and a fresh array of `FrameLabels`' shape (rows by 5 columns) and contents |
| `BddDatabase.GetDb` | lib/dataset/bdd.py:31-76 | one record per mask, in order, holding the mask path, its derived image and lane paths, and a fresh label array whose shape (rows by 5 columns) and entries are the frame's table; no two records share an array, as each pass allocates its own `gt`; it fails exactly when some frame's table fails, with the first such frame's exception |
| `PyStr.Replace` | lib/dataset/bdd.py:35-37 | Python's `str.replace` without a count: every non-overlapping occurrence, left to right; an empty pattern inserts the replacement `len(s) + 1` times, so the length grows by `(len(s) + 1) * len(rep)`; a replacement as long as the pattern keeps the length |
| `PyStr.ReplaceIsJoinOfSplit` | lib/dataset/bdd.py:35-37 | Python's replace-all equals splitting at every leftmost non-overlapping occurrence and joining the pieces with the replacement |
| `PyStr.SplitJoinRoundTrip` | lib/dataset/bdd.py:35-37 | joining the split pieces with the pattern gives back the original string |
| `PyStr.SplitPiecesAvoidSeparator` | lib/dataset/bdd.py:35-37 | no split piece contains the pattern, so no occurrence is left unsplit |
| `PyStr.ReplaceWithItself` | lib/dataset/bdd.py:35-37 | replacing any pattern, even the empty one, with itself leaves the string unchanged |
| `PyStr.ReplaceWhenAbsent` | lib/dataset/bdd.py:35-37 | a non-empty pattern that does not occur leaves the path unchanged |
| `PyStr.ReplaceCopiesPrefix` | lib/dataset/bdd.py:35-37 | a stretch in which the pattern never starts is copied unchanged |
| `PyStr.ReplaceAtEnd` | lib/dataset/bdd.py:35-36 | for a pattern with no overlap with itself, such as `.png`, and a pattern-free stem, only the final copy is replaced |
| `PyStr.Find` | lib/dataset/bdd.py:35-37 | `str.find`, which the source does not call: the leftmost-occurrence search behind the reference `Split`, which `ReplaceIsJoinOfSplit` compares with the replace at lines 35-37; the result is the leftmost occurrence, or -1 when there is none |
| `BddPaths.LabelPath` | lib/dataset/bdd.py:35 | the label path: the mask root swapped for the label root, then `.png` for `.json`, each at every occurrence; a mask path holding neither pattern is returned unchanged |
| `BddPaths.ImagePath` | lib/dataset/bdd.py:36 | the image path: the mask root swapped for the image root, then `.png` for `.jpg`; a mask path holding neither pattern is returned unchanged |
| `BddPaths.LanePath` | lib/dataset/bdd.py:37 | the lane path: the mask root swapped for the lane root, extension kept; unchanged when the lane root is the mask root, or when the mask root does not occur |
| `BddPaths.DerivedPathsReplaceEveryOccurrence` | lib/dataset/bdd.py:35-37 | the label path splits at every mask-root occurrence and joins with the label root, then does the same from `.png` to `.json`; likewise the image path with the image root and `.jpg`; the lane path only swaps the root |
| `BddPaths.PathsOfRegularMask` | lib/dataset/bdd.py:35-37 | `<mask root><stem>.png`, with neither pattern occurring elsewhere, maps to `<label root><stem>.json`, `<image root><stem>.jpg` and `<lane root><stem>.png` |
| `BddPaths.SwapLeadingRoot` | lib/dataset/bdd.py:35-37 | a path that starts with the mask root, and holds it nowhere else, gets just that leading root swapped |
| `BddPaths.PngUnbordered` | lib/dataset/bdd.py:35-36 | `.png` has no proper suffix that is also its prefix, so its occurrences cannot overlap |

Every substitution applies to all occurrences, as Python's `str.replace`
does. So a `.png` inside a directory name, or a second copy of the mask
root, is rewritten as well. `DerivedPathsReplaceEveryOccurrence` states
this.

## Left out

- File and JSON reading (lines 38-40) is the parameter `load`. It gives the
  object list directly, so a missing file and a malformed `frames` or
  `objects` entry are not modelled.
- The `tqdm` progress bar and the `print` calls (lines 30, 33, 75) are not
  modelled. They have no effect on the result.
- The `AutoDriveDataset` superclass and the constructor (lines 4, 9-15) are
  not part of this model. The attributes they supply (`shapes`, `mask_list`,
  the root paths, `single_cls`) are inputs. `filter_data` and `_get_db` do
  not change the object's fields, so no class is modelled.
- `convert`, `id_dict` and `id_dict_single` are defined in
  `lib/dataset/convert.py`, which is not part of this model. They are
  parameters.
- `Obj.box2d`: the model treats "has a `box2d` key" (line 81) as "has four numeric corners". In Python a `box2d` that is present but `None`, lacks a corner or holds a non-number passes the filter and then raises at lines 54-57 (`TypeError`, `KeyError` or `ValueError`). The model has no such exception.
- Box coordinates are reals: `float()` parsing, float64 rounding and the
  arithmetic inside `convert` are not modelled. A class id is stored as an
  exact real.
- `LookupKey` assumes every object has a `category` key, as BDD annotations
  do. The `KeyError` for a missing `category` (lines 46, 83) is not
  modelled.
- `LookupKey` treats a missing `attributes` entry and a missing
  `trafficLightColor` entry as one exception, `KeyError("trafficLightColor")`.
- `LookupKey` assumes category and colour values are strings. The
  `TypeError` that a non-string colour would raise at line 50 is not
  modelled.
- Path objects are strings: `str(mask)` and `str(root)` are the identity.
- `numpy` details: the table is an `array2<real>`, not a float64 array.
- The `evaluate` stub (lines 89-92) has no behaviour and is not modelled.
