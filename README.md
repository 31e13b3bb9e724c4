# IR target detection: selection, coordinate mapping and run start-up

This project models the logic of a webcam script that finds bright blobs
(simulated infrared retro-reflector targets) and logs their positions. What
it models and proves:

- **Target selection** (`detect_ir_targets`). The vision library thresholds
  the frame and finds the outer contours. For each contour it also gives the
  area and the moments. That output is the input here: a sequence of
  `Contour(area, m00, m10, m01)` records in the library's enumeration order.
  A contour qualifies when its area is strictly above `min_area` and its
  zeroth moment is nonzero. It then yields a `Target(x, y, area)`, where the
  centroid is `m10/m00` and `m01/m00`, each truncated toward zero as Python's
  `int()` does. The collected targets are sorted by area, largest first, and
  the sort is stable, as Python's `list.sort(..., reverse=True)` is. The
  list is then cut to at most `max_targets` entries.
  `DetectIrTargets` is the loop itself. It is proved equal to the
  specification `SelectTargets`, and the lemmas state what the result
  means: its length, its order, its stability, where each target came from,
  what truncation drops, and the empty cases.
- **The sort** is the library's stable sort. It is modelled by a reference
  insertion sort, `SortByAreaDesc`. The lemma `StableSortIsUnique` shows that
  any descending sort that keeps equal-area targets in their original order
  gives exactly this result, so the model does not depend on which stable
  algorithm the library uses.
- **`map_coordinates`** is an independent linear rescale of each axis, over
  the reals. The model proves its laws: the identity at equal sizes, axis
  independence, scaling, additivity and the inverse mapping.
- **Run start-up** (`camera_test.py`). `get_new_file_path` picks the name
  `target_coordinates_NNN.txt` for the least index ≥ 1 that is not taken
  yet. NNN is Python's `03d` format, modelled in `DecimalFormat`. The
  search is proved to end, and it probes at most one more index than the
  directory has entries. The camera chosen is index 1 when it is listed,
  otherwise the first listed index, and there is no choice when the list
  is empty.

Environment abstractions:

- The directory that holds the coordinate files is the set of names for
  which `os.path.exists` holds there.
- Camera enumeration is the list the enumeration returns, taken as an
  input of any content.
- The vision library's per-contour results are the contour records above.

Two details follow the code exactly:

- The camera fallback is the *first listed* index, not the lowest one
  (`camera_test.py:53`).
- `map_coordinates` needs only nonzero frame dimensions, not positive ones
  (`target_detection.py:78-79`).

Files: `decimal_format.dfy` (module `DecimalFormat`), `target_detection.dfy`
(module `TargetDetection`), `camera_test.dfy` (module `CameraTest`).

## Model

| member | source | states |
|---|---|---|
| `TargetDetection.Trunc` | opencv-camera-project/srcs/utils/target_detection.py:38-39 | `int()` of a quotient truncates toward zero: the result is at most the value and within 1 of it for non-negative values, and symmetrically for negative ones |
| `TargetDetection.Centroid` | opencv-camera-project/srcs/utils/target_detection.py:38-40 | a qualifying contour's target has the contour's own area, and each coordinate is the integer next to the real ratio m10/m00 (resp. m01/m00) on the side of zero: at most the ratio and within 1 of it when the ratio is non-negative, at least it and within 1 when negative |
| `TargetDetection.DetectIrTargets` | opencv-camera-project/srcs/utils/target_detection.py:32-44 | the collect, sort and slice loop returns exactly the specified selection `SelectTargets` |
| `TargetDetection.SortByAreaDesc` | opencv-camera-project/srcs/utils/target_detection.py:43 | the sorted list is a permutation of its input, is non-increasing by area, and keeps the relative order of equal-area targets |
| `TargetDetection.StableSortIsUnique` | opencv-camera-project/srcs/utils/target_detection.py:43 | any non-increasing, order-preserving-per-area rearrangement equals the model's sort, so every stable descending sort gives the same result |
| `TargetDetection.QualifyingAppend` | opencv-camera-project/srcs/utils/target_detection.py:32-40 | collecting over two concatenated contour lists gives the concatenation of the two collections |
| `TargetDetection.NonQualifyingIgnored` | opencv-camera-project/srcs/utils/target_detection.py:35-37 | a contour with area ≤ min_area or with m00 == 0 contributes nothing, wherever it stands in the enumeration |
| `TargetDetection.QualifyingMembers` | opencv-camera-project/srcs/utils/target_detection.py:32-40 | a target is collected if and only if some contour with area > min_area and m00 ≠ 0 yields it |
| `TargetDetection.Qualifying` | opencv-camera-project/srcs/utils/target_detection.py:32-40 | the loop collects at most one target per contour, in enumeration order, and every collected target's area is strictly above min_area |
| `TargetDetection.Qualifies` | opencv-camera-project/srcs/utils/target_detection.py:35-37 | the two guards of the loop: area strictly above min_area and a nonzero zeroth moment; its meaning is fixed by `NonQualifyingIgnored` and `QualifyingMembers` |
| `TargetDetection.SelectTargets` | opencv-camera-project/srcs/utils/target_detection.py:43-44 | the sort and slice applied to the collected targets; its properties are the `Select…` lemmas below |
| `TargetDetection.SelectLength` | opencv-camera-project/srcs/utils/target_detection.py:44 | the result has min(number of qualifying contours, max_targets) entries, never more than max_targets |
| `TargetDetection.SelectIsSortedPrefix` | opencv-camera-project/srcs/utils/target_detection.py:43-44 | the result is a prefix of the sorted collected list and is non-increasing by area |
| `TargetDetection.SelectProvenance` | opencv-camera-project/srcs/utils/target_detection.py:35-40 | every returned target comes from a contour of the input with area > min_area and m00 ≠ 0, carrying its truncated centroid and its area |
| `TargetDetection.SelectAboveMin` | opencv-camera-project/srcs/utils/target_detection.py:35 | every returned target's area is strictly above min_area, so a contour of area exactly min_area never appears |
| `TargetDetection.SelectKeepsEnumerationOrder` | opencv-camera-project/srcs/utils/target_detection.py:43-44 | for every area, the returned targets of that area are a prefix of the collected ones of that area, in contour enumeration order |
| `TargetDetection.SelectDropsOnlySmaller` | opencv-camera-project/srcs/utils/target_detection.py:43-44 | a sorted target cut off by the slice has area ≤ that of every returned target |
| `TargetDetection.SelectEmptyWhenNothingQualifies` | opencv-camera-project/srcs/utils/target_detection.py:32-44 | when no contour qualifies, including when there are no contours, the result is the empty list |
| `TargetDetection.SelectLargerOfTwo` | opencv-camera-project/srcs/utils/target_detection.py:32-44 | blobs of area 300 and 100 with min_area 50 and max_targets 1 give only the area-300 target, whichever of the two is enumerated first |
| `TargetDetection.MapCoordinates` | opencv-camera-project/srcs/utils/target_detection.py:66-80 | each mapped coordinate times its frame dimension equals the input coordinate times its output dimension |
| `TargetDetection.MapIdentity` | opencv-camera-project/srcs/utils/target_detection.py:78-80 | mapping onto a space of the frame's own size returns the point unchanged |
| `TargetDetection.MapAxesIndependent` | opencv-camera-project/srcs/utils/target_detection.py:78-79 | the mapped x depends only on x, the frame width and the output width, and likewise for y |
| `TargetDetection.MapScaling` | opencv-camera-project/srcs/utils/target_detection.py:78-80 | an output space k times the frame's size maps (x, y) to (k·x, k·y) |
| `TargetDetection.MapRoundTrip` | opencv-camera-project/srcs/utils/target_detection.py:78-80 | mapping and then mapping back with the sizes swapped gives the original point, for nonzero output sizes |
| `TargetDetection.MapAdditive` | opencv-camera-project/srcs/utils/target_detection.py:78-79 | the mapping of a sum of points is the sum of their mappings, per axis |
| `TargetDetection.MapExample` | opencv-camera-project/srcs/utils/target_detection.py:78-80 | (100, 100) in a 200 × 200 frame maps to (500, 500) in a 1000 × 1000 space |
| `DecimalFormat.Decimal` | opencv-camera-project/srcs/components/camera/camera_test.py:18 | the plain decimal form is a non-empty digit string with no leading zero unless the number is 0 |
| `DecimalFormat.Pad3` | opencv-camera-project/srcs/components/camera/camera_test.py:18 | the `03d` form is the plain decimal form with '0's in front, at least three characters long and longer only when the plain form is |
| `DecimalFormat.Pad3Shape` | opencv-camera-project/srcs/components/camera/camera_test.py:18 | exactly three digits for indices up to 999, the plain decimal form from 100 on, and more than three digits from 1000 on |
| `DecimalFormat.Pad3RoundTrip` | opencv-camera-project/srcs/components/camera/camera_test.py:18 | reading the padded digits back gives the number |
| `DecimalFormat.Pad3Injective` | opencv-camera-project/srcs/components/camera/camera_test.py:18 | distinct numbers have distinct padded forms |
| `CameraTest.FileName` | opencv-camera-project/srcs/components/camera/camera_test.py:18 | the name `target_coordinates_` + the `03d` form of the index + `.txt`; its meaning is fixed by `FileNameRoundTrip`, `FileNameInjective` and `FileNameLength` |
| `CameraTest.FileNameRoundTrip` | opencv-camera-project/srcs/components/camera/camera_test.py:18 | the index can be read back from every generated file name |
| `CameraTest.FileNameInjective` | opencv-camera-project/srcs/components/camera/camera_test.py:18 | distinct indices give distinct file names |
| `CameraTest.FileNameLength` | opencv-camera-project/srcs/components/camera/camera_test.py:18 | for indices up to 999 the name is 26 characters: the prefix, three digits and ".txt" |
| `CameraTest.ProbedBound` | opencv-camera-project/srcs/components/camera/camera_test.py:17-21 | if the names of indices 1..n all exist, the directory has at least n entries |
| `CameraTest.GetNewFilePath` | opencv-camera-project/srcs/components/camera/camera_test.py:15-21 | returns an index ≥ 1 whose name does not exist, with every smaller index's name existing, that name, and an index at most the number of entries plus one (so the loop ends) |
| `CameraTest.FirstFreeIsUnique` | opencv-camera-project/srcs/components/camera/camera_test.py:16-21 | the least free index is unique, so the search result is determined by the directory |
| `CameraTest.ChooseCamera` | opencv-camera-project/srcs/components/camera/camera_test.py:49-53 | no choice if and only if the list is empty; otherwise a listed index: 1 when listed, else the first listed |
| `CameraTest.ChooseCameraPrefersOne` | opencv-camera-project/srcs/components/camera/camera_test.py:53 | whenever 1 is listed it is chosen, whatever the order of the list |
| `CameraTest.ChooseCameraFirstListed` | opencv-camera-project/srcs/components/camera/camera_test.py:53 | without index 1 the head of the list is chosen, whatever follows it |

## Left out

- The vision library calls `cvtColor`, `threshold`, `findContours`, `contourArea` and `moments` (`target_detection.py:20-29,34,36`) are foreign code. Their per-contour results are the model's input.
- `draw_targets` (`target_detection.py:46-64`) only paints circles and labels onto the frame. `apply_grayscale` in `image_processing.py` is one library call. Neither is modelled.
- Floating-point arithmetic is not modelled. Areas, moments, quotients and mapped coordinates are reals, so rounding and NaN are not modelled.
- TargetDetection.MapCoordinates: requires nonzero frame dimensions. With a zero dimension Python raises `ZeroDivisionError`, and that case is not modelled.
- TargetDetection.DetectIrTargets: the parameter defaults of `detect_ir_targets` (`threshold=200`, `min_area=50`, `max_targets=5`, `target_detection.py:6`) are not modelled. `minArea` and `maxTargets` are always passed explicitly, and the threshold acts only inside the library calls whose results are the contour input.
- TargetDetection.DetectIrTargets: takes `max_targets` as a natural number. A negative value would make Python's slice drop entries from the end, and that case is not modelled.
- The in-place `list.sort` (`target_detection.py:43`) is the library's own algorithm. It is modelled as a function on sequences. `StableSortIsUnique` shows that the result does not depend on the algorithm, but the update in place is not modelled.
- CameraTest.GetNewFilePath: returns the file name inside the directory. `os.path.join` with the base path is not modelled. Neither is the filesystem changing while the loop probes it.
- `save_coordinates` (`camera_test.py:23-33`) is not modelled: it is a file append with `%.2f` float formatting. The `datetime` timestamps are not modelled either.
- The `main` capture and display loop, the window calls, the key polling and the `try/finally` release (`camera_test.py:35-98`) are device and UI input/output, and are not modelled.
- `camera_handler.py`, `camera_gui.py`, `tests/main.py` and `tests/test_main.py` are thin wrappers or capture/display loops, and are not modelled.
- `detect_single_target` and `CameraHandler.list_available_cameras` are called (`camera_test.py:13,46,74`) but defined in neither `target_detection.py` nor `camera_handler.py`. They are not modelled, and the camera list is an input.
