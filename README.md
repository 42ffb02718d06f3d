# ace-images: a Dafny model of the scan-to-PDF pipeline

ace-images turns photographs of book pages into one PDF. For each photo it:

1. finds the page and cuts it out (`crop_to_page`);
2. removes the fold that shows at the bottom of a page photographed in an open book (`detect_fold`);
3. trims the remaining dark borders (`final_crop`);
4. turns the page upright: a coarse quarter-turn angle from Tesseract's orientation detection, plus a fine correction from near-vertical Hough lines (`get_text_orientation`);
5. resizes it to a fixed width (`process_image`).

`main` builds one task per `.jpg` photo, runs the tasks in a process pool, drops the photos whose processing raised, sorts the pages by file name and writes `output/<name>.pdf` (`images_to_pdf`).

The model keeps the thresholds, tie-breaks, sort orders, fallback chains, error cases and the task list; it leaves out only what "## Left out" lists. The pixel work is left to its library calls, which become inputs: the contours OpenCV finds, the segments HoughLinesP returns, boundingRect, Tesseract's readings, the Hough angles and PIL's rotated size. An image is modelled by its size.

Modules, in dependency order:

- `Numbers`: Python's `int()` and numpy's `int32` cast of a real, division-free comparisons, and sums and means.
- `Outcomes`: `Option` and `Result` stand for `None` and raised exceptions. `FirstSome` is a try/except chain that keeps the first attempt that succeeds.
- `Geometry`: points, OpenCV rectangles, edge boxes, image sizes and numpy slicing.
- `Sorting`: Python's stable `sort`/`sorted` with a key (`StableSort`), and `str` ordering.
- `Folds`: `utils/folds.py`.
- `Contours`: `utils/contours.py`.
- `Rotation`: `utils/rotation.py`.
- `Paths`: `str.rstrip`, `os.path.splitext`, `split('/')[-1]`, `os.path.join`, `s[:-4]`.
- `ScansToPdf`: `scans_to_pdf.py`.

The source's loops are methods proved equal to a specification function:
- `MergeLines`
- `SelectCandidates`
- `FilterContours`
- `FinalCrop`
- `FineGrainedRotation`
- `ListingTasks`
- `CollectPages`
- `RunTasks`

The properties the code promises are proved as lemmas about those functions. Straight-line code is modelled as functions; this covers the try/except chains, `crop_to_page` and `process_image`.

Floats are exact reals. Where the code tests a quotient against a constant, the model uses the cross-multiplied integer test, and a lemma proves it equivalent to the code's test:
- `NearlyHorizontalAsWritten`
- `NearAsWritten`
- `IsFoldLineAsWritten`
- `PageLikeAsWritten`

`fold_y` can end in .5, so the model keeps it doubled.

## Model

| member | source | states |
|---|---|---|
| Numbers.Trunc | scans_to_pdf.py:24 | `int()` of a real truncates toward zero: the floor for a non-negative value, the ceiling for a negative one |
| Numbers.TruncHalf | utils/folds.py:86-93 | the `np.int32` cast of a doubled half-integer coordinate truncates toward zero, on both signs |
| Numbers.DivLess | utils/folds.py:18 | for a positive divisor, `a / d < c` holds exactly when `a < c * d` |
| Numbers.MeanBounds | utils/rotation.py:36-37 | the mean of a non-empty list whose elements all lie strictly between two bounds also lies strictly between them |
| Outcomes.FirstSome | utils/rotation.py:88-102 | the try chain succeeds exactly when some attempt succeeds, and then its value is that of the first successful attempt, all earlier ones having failed |
| Geometry.ClampIndex | utils/contours.py:152 | a Python slice bound is brought into [0, n] and left unchanged when already inside |
| Geometry.SliceLength | utils/contours.py:81 | `a[start:stop]` is never longer than `a`, and has length stop - start when 0 <= start <= stop <= n |
| Geometry.CropSize | utils/contours.py:152 | the cropped image is never larger than the image, and has the box's width and height when the box lies inside it |
| Sorting.StableSort | utils/folds.py:36 | sorting returns a permutation of its input (same multiset, same length) |
| Sorting.SortSorted | utils/contours.py:44 | for a key order that is total and transitive, the sorted list is ordered by the key |
| Sorting.SortStable | utils/folds.py:78 | the elements sharing a key keep their input order, also with `reverse=True` |
| Sorting.SortedUnique | scans_to_pdf.py:100 | two key-sorted permutations of one another are equal when no two distinct elements share a key |
| Sorting.StrLeIsTotalPreorder | scans_to_pdf.py:80 | Python's `str` comparison (code-point lexicographic, a prefix first) is total and transitive |
| Sorting.StrLeAntisymmetric | scans_to_pdf.py:100 | two strings that are each `<=` the other are equal |
| Sorting.MapPermutation | scans_to_pdf.py:89-94 | futures collected in any permutation of the task order give a permutation of the same results |
| Folds.Normalise | utils/folds.py:13-16 | the end points are sorted per axis: left <= right and top <= bottom, with the same two x and the same two y values |
| Folds.NearlyHorizontalAsWritten | utils/folds.py:18-19 | the kept segments are exactly those for which `(x_right - x_left) / (y_bottom - y_top + 1) < 50` is false |
| Folds.NearAsWritten | utils/folds.py:24 | the merge test is exactly `abs((y_top + y_bottom - m_top - m_bottom) / 2) < y_tolerance` |
| Folds.Widen | utils/folds.py:26-29 | the widened merged line covers both the old merged line and the new segment, and lies inside every box that covers both |
| Folds.FirstNear | utils/folds.py:21-31 | the merged line a segment joins is the first near one: it is near, and every merged line before it is not |
| Folds.MergeLines | utils/folds.py:7-37 | `None` gives []; otherwise no more merged lines than segments, each well-formed, sorted by vertical midpoint, and equal to the grouping followed by the stable sort |
| Folds.GroupedLength | utils/folds.py:20-34 | merging never yields more merged lines than there are segments |
| Folds.GroupedWellFormed | utils/folds.py:26-34 | every merged line has left <= right and top <= bottom |
| Folds.GroupedCovers | utils/folds.py:21-34 | every nearly horizontal segment lies inside some merged line: merging only widens |
| Folds.GroupedWithinRows | utils/folds.py:26-34 | merged lines stay within any row range containing every segment's end points |
| Folds.GroupedTight | utils/folds.py:13-34 | each edge of a merged line (left, top, right, bottom) is that same edge of some kept nearly horizontal segment, so merging never makes a line wider or taller than its segments reach |
| Folds.MergedLinesTight | utils/folds.py:7-37 | every line merge_lines returns takes each of its four edges from a kept segment |
| Folds.MergedLinesProperties | utils/folds.py:7-37 | merge_lines's result is empty for `None`; otherwise it is sorted by midpoint, no longer than the input, and covers every kept segment |
| Folds.MidLeIsTotalPreorder | utils/folds.py:36 | the key `line[1] + line[3]` orders merged lines totally and transitively |
| Folds.BandStart | utils/folds.py:46 | `bottom_y = int(h * 3 / 4)` lies within the rectangle's height |
| Folds.IsFoldLineAsWritten | utils/folds.py:68-71 | the fold-line test is exactly `x2 - x1 > 0.75 w` and `0.1 (h - bottom_y) < y1 < 0.8 (h - bottom_y)` |
| Folds.FoldFirstIsTotalPreorder | utils/folds.py:78 | the key `(width, midpoint)` with `reverse=True` is a total, transitive order |
| Folds.SelectCandidates | utils/folds.py:61-75 | the filtering loop keeps, in order, the (midpoint, width) of exactly the merged lines passing the fold-line test |
| Folds.FoldRow | utils/folds.py:59-80 | fold_y (doubled) is 0 without candidates; otherwise it is the midpoint of the first candidate of the descending sort plus bottom_y |
| Folds.FoldedAtRow | utils/folds.py:82-97 | a zero fold_y returns the contour unchanged; otherwise the result is the bounding rectangle with its bottom edge at `int32(y + fold_y)` |
| Folds.DetectFold | utils/folds.py:40-97 | detect_fold returns the contour the fold specification `FoldedContour` gives for its bounding rectangle and segments |
| Folds.FoldDecision | utils/folds.py:82 | the code's test `fold_y != 0` holds exactly when some candidate exists: a qualifying line's fold_y is never 0 |
| Folds.CandidatesIff | utils/folds.py:64-73 | a candidate is listed exactly when some merged line passes the fold-line test and yields it |
| Folds.CandidatesPositive | utils/folds.py:69-73 | every candidate from well-formed lines has a positive midpoint, because its top lies strictly inside the band |
| Folds.FirstIsBest | utils/folds.py:78-80 | the head of the descending sort is a candidate: the widest one, and the lowest among the widest |
| Folds.FoldIsWidestLowest | utils/folds.py:76-80 | a reported fold lies at the widest, then lowest, qualifying line, offset by bottom_y |
| Folds.FoldFoundIff | utils/folds.py:58-94 | a fold is reported exactly when some merged line qualifies, and it lies below the band's first row |
| Folds.FoldBelowBand | utils/folds.py:80-93 | the new bottom edge is strictly below `y + bottom_y` |
| Folds.MergedWellFormed | utils/folds.py:13-37 | every line merge_lines returns has sorted end points |
| Folds.FoldNeverTaller | utils/folds.py:44-93 | when all segments lie in the band, the shortened rectangle ends strictly between `y + bottom_y` and its old bottom edge `y + h` |
| Folds.LineNearBandBottomIsNoFold | utils/folds.py:69-71 | a page-wide line at band rows 250-260 of a 1200-row rectangle is past 80% of the band: no fold |
| Folds.LineInBandIsFold | utils/folds.py:58-93 | the same line at band rows 150-160 cuts the rectangle (100, 100, 800, 1200) at row 1155 |
| Contours.ContourToRectangle | utils/contours.py:8-18 | four corners, clockwise from the top-left, forming the axis-aligned bounding rectangle |
| Contours.FoldedIsRectangle | utils/folds.py:85-94 | when a fold is found, detect_fold's contour is contour_to_rectangle of the rectangle with the same x, y and w, ending at the fold, with positive height |
| Contours.PageLikeAsWritten | utils/contours.py:35-39 | the kept contours are exactly those with a non-zero hull area, `0.1 H W < w h < 0.9 H W` and `max(w/h, h/w) < 1.7` |
| Contours.SolidityGeIsTotalPreorder | utils/contours.py:44 | ranking by solidity, descending, is a total and transitive order |
| Contours.FilterContours | utils/contours.py:21-47 | the loop's result is the filter specification: a ZeroDivisionError exactly when some bounding rectangle has zero width or height, else the page-like contours sorted by solidity |
| Contours.KeptIff | utils/contours.py:25-40 | a contour is kept exactly when it is one of the inputs and page-like |
| Contours.FilterKeepsRanked | utils/contours.py:35-47 | filter_contours returns exactly the page-like contours, with multiplicity, every hull area non-zero, ordered by solidity from highest to lowest |
| Contours.FilterStable | utils/contours.py:43-44 | contours of equal solidity keep their input order |
| Contours.FilterHeadMostSolid | utils/contours.py:43-47 | the first filtered contour exists exactly when some contour is page-like, and then none is more solid |
| Contours.KeptHeadFirst | utils/contours.py:24-44 | the head of the solidity-sorted page-like contours is page-like, and every page-like contour before its first occurrence in the input is strictly less solid |
| Contours.FilterHeadFirst | utils/contours.py:43-47 | the first filtered contour is the first most solid page-like contour in findContours order: the reverse sort keeps ties in input order |
| Contours.LargestIndexIsFirstMax | utils/contours.py:63 | `max(contours, key=contourArea)` has the greatest area, and every contour before it has a strictly smaller one |
| Contours.FinalCrop | utils/contours.py:50-90 | no contours leaves the image; otherwise the crop is the union box (least x and y, greatest right and bottom edges counted from 0) |
| Contours.UnionBoxIs | utils/contours.py:70-79 | edges attained by some contour and bounding all of them are the union box's edges |
| Contours.TrimCoversAll | utils/contours.py:70-81 | final_crop's box contains every contour's bounding rectangle |
| Contours.TrimIsTight | utils/contours.py:70-79 | for contours inside the image, each edge of final_crop's box is an edge of some contour |
| Contours.PrimaryPreparation | utils/contours.py:100-117 | the cover preparation is used exactly for "0000" and "0001", and the adaptive threshold is never the first one tried |
| Contours.CropToPage | utils/contours.py:93-159 | raises exactly when a filter_contours call that runs raises. Returns the original only when neither preparation finds a page-like contour. Otherwise crops to the folded rectangle of the first most solid page-like contour, in findContours order, of the first preparation that found one |
| Contours.FallbackOnlyWhenEmpty | utils/contours.py:119-127 | the adaptive threshold's contours do not matter once the first preparation raises or finds a page-like contour |
| Rotation.ScaledLength | utils/rotation.py:11-12 | `int(n * size)` for a factor in [0, 1] lies in [0, n] |
| Rotation.CropImage | utils/rotation.py:9-16 | the crop has the scaled size and lies inside the image; the margins differ by at most one pixel, the odd pixel going right and below |
| Rotation.Halves | utils/rotation.py:82-85 | the halves meet at `width // 2`, have the full height, and the right one is at most one pixel wider |
| Rotation.Confident | utils/rotation.py:51-57 | an attempt counts exactly when it returned a reading with confidence at least 2.0, and then gives that reading's angle |
| Rotation.BoxOrientation | utils/rotation.py:45-77 | get_box_orientation succeeds exactly when one of its two attempts counts |
| Rotation.BoxOrientationFirstConfident | utils/rotation.py:51-76 | get_box_orientation is the first counting attempt of plain then denoised |
| Rotation.DetectedAngle | utils/rotation.py:86-102 | the angle is that of the first region (0.95 crop, left half, right half) whose orientation detection succeeds, or 0 |
| Rotation.CoarseAngleCases | utils/rotation.py:88-102 | the detected angle for each way the try chain can end |
| Rotation.CoarseAngle | utils/rotation.py:103-105 | a 0 detection on a landscape frame becomes 90, and this is the only change; a resulting 0 means the frame is not landscape |
| Rotation.NearVerticalIff | utils/rotation.py:28-34 | an angle is kept exactly when it is among the Hough angles and strictly between 85 and 95 |
| Rotation.NearVerticalBounds | utils/rotation.py:31 | every kept angle lies strictly between 85 and 95 |
| Rotation.FineAngle | utils/rotation.py:19-42 | the fine correction lies strictly between -5 and 5 degrees, and is 0 when there are no lines or none is near vertical |
| Rotation.FineAngleIsCentredMean | utils/rotation.py:36-42 | with some near-vertical angle, 90 minus the correction is the mean of the near-vertical angles |
| Rotation.FineGrainedRotation | utils/rotation.py:19-42 | the loop computes the fine correction of the specification |
| Rotation.TextOrientation | utils/rotation.py:79-113 | the total angle is the coarse angle plus the fine correction measured after the coarse turn, and lies within 5 degrees of the coarse angle |
| Rotation.LandscapeWithoutReadingTurnsQuarter | utils/rotation.py:103-111 | a landscape photo with no confident reading gets coarse angle 90, and a total angle strictly between 85 and 95 |
| Rotation.LandscapeZeroReadingExample | utils/rotation.py:104-111 | a 2000 x 1000 photo read as 0 with high confidence and with no Hough lines is turned by exactly 90 |
| Paths.RStripOne | scans_to_pdf.py:73 | a single trailing '/' is removed |
| Paths.RStripShape | scans_to_pdf.py:73 | `rstrip('/')` removes a run of trailing '/' and nothing else, and leaves no trailing '/' |
| Paths.RFind | scans_to_pdf.py:74 | `rfind` gives the last occurrence, or -1 when there is none |
| Paths.SplitExtShape | scans_to_pdf.py:74 | the root and the extension concatenate back to the path; an extension is a '.' followed by no '.' and no '/' |
| Paths.JpgExtension | scans_to_pdf.py:74-77 | a path ending in ".jpg" after a character other than '/' and '.' has the extension ".jpg" |
| Paths.JpgExtensionEndsWith | scans_to_pdf.py:74-77 | only a path ending in ".jpg" has the extension ".jpg", and its root is the path without it |
| Paths.LastComponent | scans_to_pdf.py:75 | `root.split('/')[-1]` contains no '/' |
| Paths.LastComponentAfter | scans_to_pdf.py:75 | the last component is what follows the last '/' |
| Paths.DropJpg | scans_to_pdf.py:83-85 | `filename[:-4]` of a ".jpg" name gives the name back with ".jpg" appended, so distinct names get distinct keys |
| Paths.JoinShape | scans_to_pdf.py:84 | `os.path.join` returns an absolute name as is; otherwise the name follows the directory after exactly one '/' |
| Paths.JoinLastComponent | scans_to_pdf.py:84 | the joined path's last component is the file name |
| ScansToPdf.PreCropped | scans_to_pdf.py:13 | crop_to_page never enlarges the photo |
| ScansToPdf.Trimmed | scans_to_pdf.py:14 | final_crop never enlarges the image |
| ScansToPdf.ScaledHeight | scans_to_pdf.py:23-24 | `int(h * (IMAGE_WIDTH / w))` is the floor of `h * IMAGE_WIDTH / w` |
| ScansToPdf.Resized | scans_to_pdf.py:22-25 | a zero width raises ZeroDivisionError, and only then; otherwise the width is IMAGE_WIDTH and the height keeps the aspect ratio, rounded down |
| ScansToPdf.ProcessImage | scans_to_pdf.py:10-35 | a processed page has width IMAGE_WIDTH, and an exception crop_to_page raises is passed on |
| ScansToPdf.ZeroAngleNotTurned | scans_to_pdf.py:18-21 | with a zero total angle the trimmed image goes to the resize unrotated, whatever PIL's rotate would give |
| ScansToPdf.ProcessedFromCrop | scans_to_pdf.py:13-24 | the trimmed page is no larger than the photo, and processing fails after a successful crop exactly when the turned image has zero width |
| ScansToPdf.ImagesToPdf | scans_to_pdf.py:38-48 | an empty list raises `ValueError("Image list is empty")`, and only then; otherwise the PDF is `input_path + ".pdf"` with the images as pages, in order |
| ScansToPdf.EntryTasks | scans_to_pdf.py:83-85 | an entry gives a task exactly when it ends in ".jpg", with `os.path.join(input_path, filename)` and key `filename[:-4]` |
| ScansToPdf.Examined | scans_to_pdf.py:80-82 | in debug mode only the first 40 sorted entries are examined, otherwise all, always a prefix of the listing |
| ScansToPdf.SavePath | scans_to_pdf.py:73-75 | the save path is one path component: it contains no '/' |
| ScansToPdf.BuildTasks | scans_to_pdf.py:73-85 | the task list is the planned list for the input path and listing, and the save path is the last component of the root |
| ScansToPdf.ListingTasks | scans_to_pdf.py:80-85 | the directory loop, with its debug break, gives the tasks of exactly the examined entries |
| ScansToPdf.SingleImageTask | scans_to_pdf.py:73-78 | a ".jpg" input is one task keyed by the last component of the path without ".jpg", whatever the debug flag and the directory listing |
| ScansToPdf.SingleImageExample | scans_to_pdf.py:73-78 | "scans/book1.jpg/" is a single photo filed under "book1" |
| ScansToPdf.DirectoryTasksIff | scans_to_pdf.py:80-85 | a task is planned exactly when some examined entry gives rise to it |
| ScansToPdf.DirectoryTaskOfEntry | scans_to_pdf.py:83-85 | for a listing of plain names, every directory task's path ends in a ".jpg" entry, and its key is that entry without ".jpg" |
| ScansToPdf.DirectoryTasksAppend | scans_to_pdf.py:80-85 | tasks follow the order of the entries they come from |
| ScansToPdf.DirectoryTasksLength | scans_to_pdf.py:80-85 | there are never more tasks than examined entries |
| ScansToPdf.DirectoryPlan | scans_to_pdf.py:80-85 | for a directory a task is planned exactly for each ".jpg" entry of the sorted listing (below index 40 in debug mode), and debug mode plans at most 40 tasks |
| ScansToPdf.KeyDeterminesTask | scans_to_pdf.py:77-85 | two planned tasks with the same key are the same task |
| ScansToPdf.KeyLeIsTotalPreorder | scans_to_pdf.py:100 | sorting pages by file name uses a total, transitive order |
| ScansToPdf.CollectPages | scans_to_pdf.py:89-100 | collecting the futures and sorting gives the successful pages sorted by key |
| ScansToPdf.SuccessesCount | scans_to_pdf.py:91-97 | each page is collected as often as a task completed with it; failed tasks add nothing |
| ScansToPdf.CollectedSortedSuccesses | scans_to_pdf.py:91-100 | the collected pages are sorted by file name and are exactly the successful completions |
| ScansToPdf.CompletionOrderIrrelevant | scans_to_pdf.py:91-100 | when keys name single pages, the sorted pages do not depend on the completion order |
| ScansToPdf.Images | scans_to_pdf.py:103 | `[img[0] for img in images]` keeps the images in page order |
| ScansToPdf.RunTask | scans_to_pdf.py:52-55 | a task's outcome carries the task's key |
| ScansToPdf.RunTasks | scans_to_pdf.py:89-94 | one outcome per task, in the order the tasks are given |
| ScansToPdf.CompletionsKeyed | scans_to_pdf.py:89-94 | two successful completions of the planned tasks that share a key are equal, whatever the completion order |
| ScansToPdf.AnyCompletionOrder | scans_to_pdf.py:89-100 | the pages collected from any completion order are those of the planned order |
| ScansToPdf.ConvertScans | scans_to_pdf.py:58-104 | main writes `output/<save path>.pdf` from the successful pages sorted by key, the same for every completion order; it fails when there are none |
| ScansToPdf.NoPagesIff | scans_to_pdf.py:89-100 | no page is collected exactly when every completion is a failure |
| ScansToPdf.CompletionOfTask | scans_to_pdf.py:90-93 | every completion is the outcome of one of the tasks |
| ScansToPdf.DoneWidth | scans_to_pdf.py:52-55 | a successful task's page has width IMAGE_WIDTH |
| ScansToPdf.AllFailedIff | scans_to_pdf.py:89-97 | every completion is a failure exactly when every task fails |
| ScansToPdf.PagesWidth | scans_to_pdf.py:91-100 | every collected page has width IMAGE_WIDTH |
| ScansToPdf.ConvertOutcome | scans_to_pdf.py:58-104 | the run raises exactly when every task fails; otherwise it writes `output/<save path>.pdf`, every page IMAGE_WIDTH wide |

## Notes on the code

- **Fold example.** Take a 1000 x 1400 photo whose page rectangle is (100, 100, 800, 1200), with a solid line across image rows 1250-1260. One might expect the fold detector to cut the page near row 1255.
  - By the code, bottom_y is 900 (`utils/folds.py:46`), so the band has 300 rows and the line starts at band row 250.
  - Band row 250 is not below 0.8 x 300 = 240 (`utils/folds.py:70`), so no fold is reported.
  - The model follows the code (`Folds.LineNearBandBottomIsNoFold`).
  - The same line placed at band rows 150-160 is cut at row 1155 (`Folds.LineInBandIsFold`).
- **Fine angle.** `fine_grained_rotation` calls its value the median angle, but computes the mean of the near-vertical angles (`utils/rotation.py:36-37`). The model follows the code.
- **Zero-size rectangle.** `filter_contours` computes the aspect ratio before it checks the hull area. A bounding rectangle of zero width or height therefore raises ZeroDivisionError, and crop_to_page passes the error on. The model keeps that error path.
- **final_crop's right and bottom edges.** `max_x` and `max_y` start at 0, so the right and bottom edges are the largest edge, or 0 when every edge is negative.
- **The largest contour.** The contour `max(..., key=contourArea)` picks affects only the starting x and y of the loop, and the loop then takes the minimum over all contours anyway.

## Left out

- Pixel processing is not modelled; the library calls become inputs of the model:
  - OpenCV's blur, threshold, morphology, Canny, findContours, contourArea, convexHull, boundingRect, HoughLinesP and HoughLines;
  - Tesseract's image_to_osd;
  - PIL's grayscale, crop, rotate and resize.
- Border-trim idempotence (a trimmed image trimmed again is unchanged) depends on what findContours finds in the trimmed pixels, so it cannot be stated without a pixel model.
- HoughLinesP's `threshold=config.FOLD_THRESHOLD` argument and the `--threshold` option only affect which segments are found, which is an input here.
- Floating point is modelled as exact real arithmetic, so rounding at the threshold comparisons, in the mean and in `int(h * (IMAGE_WIDTH / w))` is not modelled.
- numpy's int32 is modelled only in the cast of the fold rectangle's corners; coordinates are unbounded integers, and int32 overflow of huge coordinates is not modelled.
- Folds.TruncHalf: wrap-around on `np.int32` overflow is not modelled, because page coordinates are far below 2^31.
- The process pool is not modelled. The order in which futures complete is the parameter `finish`, which is only required to permute the tasks. Exceptions in a worker become failed tasks.
- Opening a photo is the parameter `open`; a photo PIL cannot open is `None`, and its task fails.
- File-system effects are not modelled:
  - creating and clearing the output folder and removing `output.pdf`;
  - os.listdir, whose result is the parameter `listing`;
  - the exception os.listdir raises when the input path is neither a ".jpg" nor a readable directory; the model always receives a listing;
  - the debug images and the debug JPEG copies process_image saves;
  - all `print` output.
- argparse and the config module are left out. `config.DEBUG` is a parameter of the task list, and `config.IMAGE_WIDTH` a parameter of processing. In crop_to_page and final_crop, DEBUG only prints and saves files.
- ScansToPdf.ImagesToPdf: the conversion to RGB, the DPI setting and the PDF encoding are not modelled. The result records the file name and the pages in order.
- ScansToPdf.Resized: how PIL's resize fails for a computed height of 0 is not modelled. The model returns the size it was asked for.
- ScansToPdf.ProcessImage: an exception from final_crop, get_text_orientation or PIL is not modelled, because those calls are total in the model. Only crop_to_page's ZeroDivisionError and the resize's zero width raise.
- Rotation.TextOrientation: the fine correction is measured by `hough` on the crop turned by the coarse angle. That rotated image is not computed; `hough` is indexed by the coarse angle alone.
- An `osd` result without the `rotate` or `orientation_conf` key is modelled as a raised attempt (`None`).
