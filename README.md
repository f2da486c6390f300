# milOjos core, modelled in Dafny

milOjos drives a camera-equipped animatronic rig. The rig tracks a person's
face with a pan/tilt arm. It also matches that face against the photos of
published missing-person bulletins. This project models the sequential logic of the
system and proves what that logic promises. There are four parts.

- **The live search loop** (`python/step4_webcam_search.py`), modelled as
  class `StickyMatch.Matcher`. One call handles one frame:
  - pick the largest face;
  - take the database record most similar to it;
  - keep the last fifteen best matches;
  - take the majority vote of that window;
  - replace the displayed top four only when the vote is new and stable
    (eight of the last fifteen frames).

  A frame without a face clears the window and keeps the panel.
- **The pan/tilt tracking tick** (`python/init.py`), modelled as
  `PanTilt.Controller.Tick`:
  - the centre error of the largest detector box;
  - strict deadzones;
  - clipped proportional steps added to the targets;
  - the sinusoidal search target after three seconds without a face;
  - 15% smoothing toward the targets;
  - the hard position limits;
  - the `base,60,tilt,1` command line.
- **The manual arm console** (`python/debug.py`), module `SerialFrame`. It
  collects sixteen slider values in arm-major order and frames them as
  `$v1,...,v16,1` plus a newline.
- **The bulletin pipeline** (`fcaesDes/*.py`, `python/bulletin_engine.py`).
  This part covers:
  - extracting bulletin links from the listing page
    (module `BulletinUrls`);
  - re-encoding a link before download (`Download` and `Percent`);
  - the year folder and file names;
  - the initial crop box, from a size table or from ratios of the size;
  - the five variants of the photo crop refinement.

  What the crop refinement does:
  - Gray values above a threshold are background.
  - Some variants first look for a white column gap after the photo, and
    then for a row gap (`GapScan`).
  - The result is the tight bounding box of the content that is left, with
    PIL `getbbox` semantics (`Grid`), offset back into image coordinates.

  The five variants are:
  - `BulletinEngine.FineCrop`;
  - `Step2FineCrop.FineCrop`;
  - `Refinement.FineCropV2`;
  - `V2Batch.FineCropRefined`;
  - `CropLimited.FineCrop`.

  The file loops around the crops are also modelled:
  - the pending-file filter;
  - the sorted first-`limit` batch;
  - the loop that stops after `limit` successful crops;
  - the counters of each `main`.

How the model relates to the code:
- Code that updates state step by step is imperative Dafny:
  - the matcher and the controller are classes whose fields the methods
    update;
  - the scans, tallies and file loops are methods with loop invariants,
    each proved equal to a specification function.
- Pure rules are functions with lemmas.
- Several Python constructs are written out as explicit definitions:
  - the regular expressions;
  - `os.path.basename`;
  - `urllib.parse.quote` and `unquote`;
  - `str.split` and `str.join`;
  - `sorted`;
  - PIL `getbbox`;
  - `Counter.most_common`;
  - `np.argmax` and `np.argsort`.
- Density tests such as `count / height > 0.15` become integer
  cross-multiplications (`100 * count > 15 * height`).
- A division by zero becomes a `None` result. It happens in the gap scans
  when a box has columns but no rows. Where the caller catches exceptions,
  that file alone fails; where it does not (`fcaesDes/test_v2_batch.py`),
  `None` stands for the exception that ends the run.

Three details of the code the model follows as written:
- The tracking step is the raw pixel error times the gain
  (`python/init.py:89`, `:94`).
- One smoothing fraction, 0.15, serves both the tracking and the searching
  modes.
- The sticky rule compares the majority id with `current_display_indices[0]`
  (`python/step4_webcam_search.py:76`). That index is the best match of the
  frame that filled the panel.

## Model

| member | source | states |
|---|---|---|
| Select.FirstMax | python/step4_webcam_search.py:60-63 | the position returned holds a maximal key and no earlier position holds one as large (`np.argmax`, and the head of the stable descending sort of faces by area) |
| StickyMatch.Push | python/step4_webcam_search.py:66-68 | a window of at most fifteen becomes the last fifteen of it followed by the new index |
| StickyMatch.PushWindow | python/step4_webcam_search.py:66-68 | appending and then evicting the oldest entry past fifteen keeps the history equal to the last fifteen values pushed |
| StickyMatch.PushAllWindow | python/step4_webcam_search.py:66-68 | after any run of pushes the history is exactly the last min(n, 15) pushed indices, in push order |
| StickyMatch.PushAll | python/step4_webcam_search.py:66-68 | pushing a run of indices onto a window of at most fifteen leaves the last fifteen of the window followed by the run |
| StickyMatch.LastNConcat | python/step4_webcam_search.py:66-68 | dropping all but the last fifteen before appending more leaves the same last fifteen after |
| StickyMatch.PushBelow | python/step4_webcam_search.py:66-68 | pushing a valid record index keeps every history entry a valid record index |
| StickyMatch.Tally | python/step4_webcam_search.py:71 | the `Counter` of the history has an entry for exactly the ids in it, each with its number of occurrences |
| StickyMatch.MostCommon | python/step4_webcam_search.py:71 | `most_common(1)[0]`: the id occurs in the history, its count is its number of occurrences, no id occurs more often, and among equally frequent ids it is the one seen first |
| StickyMatch.MajorityOfScan | python/step4_webcam_search.py:71 | the first position with the strictly largest count gives the majority in the sense above |
| StickyMatch.TopIndices | python/step4_webcam_search.py:77 | `argsort(similarities)[-4:][::-1]`: min(4, size of the database) distinct valid indices in non-increasing similarity, none beaten by an index left out |
| StickyMatch.TopSelectionHead | python/step4_webcam_search.py:77 | the first index of a top-four selection has the maximal similarity of all records |
| StickyMatch.Covered | python/step4_webcam_search.py:77 | a repetition-free index list holding all of 0..n-1 has at least n entries, so the top-four scan always finds a new index |
| StickyMatch.Replaces | python/step4_webcam_search.py:76 | the sticky rule: an empty panel is always filled; a shown panel is kept when the majority has fewer than eight votes or is the first shown index |
| StickyMatch.ResetHoldsDisplay | python/step4_webcam_search.py:66-76 | after a face-free frame empties the history (lines 122-123), fewer than eight face frames cannot change a shown panel, whatever the ids |
| StickyMatch.EightVotesChangeDisplay | python/step4_webcam_search.py:66-76 | in a window of at most fifteen, an id with eight votes is the majority, and it changes the panel exactly when it is not the first shown index |
| StickyMatch.TwoCounts | python/step4_webcam_search.py:71 | two different ids together have at most as many votes as the window has entries |
| StickyMatch.Matcher.constructor | python/step4_webcam_search.py:39-41 | the history starts empty and nothing is displayed |
| StickyMatch.Matcher.FaceFrame | python/step4_webcam_search.py:51-77 | the main face is the first of maximal area, the best index is the first of maximal similarity, history is the old history pushed with it, the vote is its majority, and the panel becomes a top-four selection of the main face's similarities exactly when the sticky rule fires, staying unchanged otherwise |
| StickyMatch.Matcher.NoFaceFrame | python/step4_webcam_search.py:122-123 | a frame without faces empties the history and leaves the panel unchanged |
| PanTilt.ErrX | python/init.py:77-83 | the box centre `x + w // 2` is the floor of the exact centre, and the error is the frame centre minus it, positive exactly when the box centre lies left of the frame centre |
| PanTilt.ErrY | python/init.py:77-84 | the same for rows: positive exactly when the face centre is above the centre line |
| PanTilt.Clip | python/init.py:111-112 | `np.clip`: the result lies in the bounds, equals the value inside them and the nearer bound outside |
| PanTilt.AxisStep | python/init.py:87-95 | no change while the error is within the strict deadzone; otherwise the proportional step clipped to the axis maximum, with the sign of the error; unclipped when the step is within the maximum |
| PanTilt.SearchPan | python/init.py:103 | the search pan target `90 + 40 sin` lies in [50, 130] |
| PanTilt.Smooth | python/init.py:107-108 | the remaining distance to the target shrinks to exactly 85%, so the new position lies between the old one and the target, strictly when they differ |
| PanTilt.Command | python/init.py:115 | the command line ends in `,1` and a newline |
| PanTilt.CommandFields | python/init.py:115 | for positions inside their limits the line splits into four unsigned decimals: the truncated base, 60, the truncated tilt and 1, within 15..165 and 10..140 |
| PanTilt.CenteredFaceHoldsTargets | python/init.py:84-95 | a face centred in the frame leaves both targets unchanged |
| PanTilt.Controller.constructor | python/init.py:53-55 | positions and targets start at base 90 and tilt 45, with the last sighting at the start time |
| PanTilt.Controller.Tick | python/init.py:59-115 | a face is tracked iff one is detected, and it is the first of maximal w*h; a detection sets the last sighting to now and adds the clipped deadzoned steps of that box's errors to the targets; without a face the targets hold until more than 3 s have passed and then become the search pan and tilt 50; each position moves 15% toward its target and is clamped to 15..165 and 10..140; the command is the one of the new positions |
| Text.Trunc | python/init.py:115 | `int()` of a float truncates toward zero |
| SerialFrame.CollectValues | python/debug.py:31-36 | sixteen values, value 4*(arm-1)+j being joint j of the arm in the order Base, Homb, Vert, Horz |
| SerialFrame.EncodeFrame | python/debug.py:40 | the line starts with `$` and ends with `,1` and a newline |
| SerialFrame.FrameRoundTrip | python/debug.py:40 | stripping `$` and the newline, splitting on commas and parsing gives back the values followed by the mode flag 1 |
| SerialFrame.FrameSplit | python/debug.py:40 | between `$` and the newline the line splits into the decimal fields of the values and the flag |
| SerialFrame.FrameFields | python/debug.py:22-40 | with sliders in 0..180, a frame has seventeen fields, each of one to three digits |
| SerialFrame.InitialFrame | python/debug.py:22-26 | with untouched sliders the frame is `90,60,45,90` four times, then the flag |
| Text.SplitJoin | python/debug.py:40 | splitting a comma join of fields without commas gives the fields back |
| Text.ParseFieldsOfFields | python/debug.py:40 | parsing the decimal renderings of numbers gives the numbers back |
| Text.NatToStringLength | python/debug.py:40 | a number renders in at most three digits exactly when it is below 1000 |
| BulletinUrls.MatchAt | python/bulletin_engine.py:18-19 | a match found at a position is a bulletin path: the fixed prefix, four digits, a `/`-free month, and a `"`-free name ending in `.jpg` |
| BulletinUrls.FindAll | python/bulletin_engine.py:18-19 | every string the scan collects is a bulletin path |
| BulletinUrls.MatchAtLongest | python/bulletin_engine.py:18-19 | no match starts at a position exactly when no bulletin path starts there, and a match is the longest path starting there, as greedy matching gives |
| BulletinUrls.PathMatched | python/bulletin_engine.py:18-19 | a bulletin path from a position is matched there, up to its end or further |
| BulletinUrls.FindAllLeftmost | python/bulletin_engine.py:18-19 | the scan returns the leftmost match first and resumes at its end |
| BulletinUrls.FindAllNone | python/bulletin_engine.py:18-19 | where no match starts from a position on, nothing more is found |
| BulletinUrls.FindBulletinUrls | python/bulletin_engine.py:17-21 | the result holds exactly the domain prefixed to each path the scan found, with duplicates merged |
| BulletinUrls.UrlsAreBulletins | python/bulletin_engine.py:17-21 | every returned URL is `https://cobupem.edomex.gob.mx` followed by a bulletin path |
| BulletinUrls.FindsQuotedPath | python/bulletin_engine.py:17-21 | a quoted bulletin path in a page with no other `/` is found, and is the only URL returned |
| BulletinUrls.SkipNoSlash | python/bulletin_engine.py:18-19 | text without `/` holds no match start, so the scan skips it |
| BulletinUrls.FirstYear | python/bulletin_engine.py:53 | the leftmost position of `/Desaparecidos/` followed by four digits and `/`, or none when there is none |
| BulletinUrls.Year | python/bulletin_engine.py:53-54 | `Desconocido` exactly when no such occurrence exists, otherwise the four digits of the leftmost one |
| BulletinUrls.BulletinUrlHasYear | python/bulletin_engine.py:53-54 | every extracted bulletin URL has a year |
| BulletinUrls.BaseName | python/bulletin_engine.py:64 | the base name is the longest separator-free suffix of the path |
| BulletinUrls.FileName | python/bulletin_engine.py:63 | a link without `%` escapes names its file by its last segment as it is |
| BulletinUrls.FileNameOfQuoted | fcaesDes/step1_download.py:30-41 | the file name of a link whose last segment is the quoted name is the name itself |
| BulletinUrls.BaseNameAfterSep | python/bulletin_engine.py:63 | the base name of a path ending in a separator and a separator-free name is that name |
| BulletinEngine.FineCrop | python/bulletin_engine.py:23-50 | the result is nested in the initial box; it is the initial box when the area has no content pixel, and otherwise it holds every content pixel under the box and has content on each of its four edges |
| BulletinEngine.FineCropMinimal | python/bulletin_engine.py:39-48 | the refined box lies inside every box that holds all the content, so it is the smallest one |
| BulletinEngine.InitialBox | python/bulletin_engine.py:80-86 | (5,60,230,360) for 640x480, (10,80,400,450) for 680x528, the 2%/10%/50%/80% ratio box otherwise; always inside the image |
| BulletinEngine.ProcessBulletin | python/bulletin_engine.py:52-96 | file name, full path and `foto_` crop path from the year and the unquoted base name; EXISTS iff both files exist, with nothing saved; ERROR iff not and the download, the open, or the cut and save raised; NEW iff not both exist and every step went through, and then the refined crop of the initial guess is saved, inside the image |
| BulletinEngine.Tally | python/bulletin_engine.py:113-124 | the new and error counters equal the numbers of NEW and ERROR results, which with EXISTS make up all results |
| Grid.Crop | python/bulletin_engine.py:28 | the cropped area has the box's dimensions and its pixel (x, y) is the image's pixel at the box corner plus (x, y) |
| Grid.ColCount | fcaesDes/step2_fine_crop.py:22 | a column's content count is at most the height, and positive iff the column has a content pixel |
| Grid.RowCount | fcaesDes/test_v2_batch.py:34-50 | a row's content count over the first columns is at most their number, and positive iff one of them has content |
| Grid.BBox | python/bulletin_engine.py:39 | `getbbox`: none iff the area has no content pixel; otherwise a nonempty box inside the area that holds every content pixel and has content on each edge |
| Grid.TightBox | python/bulletin_engine.py:39-48 | the `getbbox` of the crop under a box, offset by its corner: none iff no content lies under the box, otherwise nested in the box, nonempty, holding all content under the box and with content on each edge |
| Grid.TightBoxMinimal | python/bulletin_engine.py:39-48 | the tight box lies inside every box that holds the content under the box |
| Grid.EdgesInkedMinimal | python/bulletin_engine.py:39-48 | a box with content on each edge lies inside every box that holds that content |
| Grid.CropBBox | python/bulletin_engine.py:43-48 | the bounding box of the cropped area, offset by the crop corner, is the tight box of the content of the image under the box |
| Grid.OffsetNested | python/bulletin_engine.py:43-48 | a box inside the cropped area, offset by the crop corner, is nested in the crop box |
| Grid.RatioBox | python/bulletin_engine.py:86 | the ratio box of percentages between 0 and 100 lies inside the image |
| GapScan.FirstCut | fcaesDes/step2_fine_crop.py:19-37 | the first confirmed gap column: every earlier column is not one, and the width when there is none |
| GapScan.FirstCutUnique | fcaesDes/step2_fine_crop.py:19-37 | a column that is a cut with no earlier cut is the first cut |
| GapScan.Scan | fcaesDes/step2_fine_crop.py:19-37 | the scan loop with its flag and early break returns the first cut and whether a dense column was seen |
| GapScan.SeenNext | fcaesDes/step2_fine_crop.py:23-24 | the flag after one more column is the flag before or that column being dense |
| GapScan.DenseBeforeCut | fcaesDes/step2_fine_crop.py:19-37 | once a dense column is seen, one lies strictly before the cut |
| GapScan.ContentBeforeCut | fcaesDes/step2_fine_crop.py:19-37 | once a dense column is seen, a column with content lies strictly before the cut |
| GapScan.ColProfile | fcaesDes/step2_fine_crop.py:22 | one content count per column, in column order |
| GapScan.RowProfile | fcaesDes/test_v2_batch.py:38-40 | one content count per row, in row order |
| GapScan.CropColumns | fcaesDes/step2_fine_crop.py:21-22 | the column profile of the crop under a box |
| GapScan.CropRows | fcaesDes/test_v2_batch.py:36-40 | the row profile of the crop under a box, restricted to the columns left of the column gap |
| GapScan.LeftOfCutHasContent | fcaesDes/step2_fine_crop.py:41-46 | when a dense column was seen, the part of the box left of the cut has content, so its tight box exists |
| GapScan.AboveCutHasContent | fcaesDes/test_v2_batch.py:34-58 | when a dense row was seen, the part above the row cut (left of the column cut) has content |
| GapScan.ColumnInk | fcaesDes/step2_fine_crop.py:22-23 | a column with a positive count has a content pixel of the image under the box |
| GapScan.RowInkAt | fcaesDes/test_v2_batch.py:38-40 | a row with a positive count has a content pixel of the image left of the cut |
| Step2FineCrop.Columns | fcaesDes/step2_fine_crop.py:21-22 | one content count per column of the box |
| Step2FineCrop.BestRight | fcaesDes/step2_fine_crop.py:19-37 | `best_right` is at most the width of the box |
| Step2FineCrop.Refine | fcaesDes/step2_fine_crop.py:4-48 | `fine_crop` fails exactly on a box with columns but no rows (division by zero); otherwise it returns a box nested in the initial box |
| Step2FineCrop.FineCrop | fcaesDes/step2_fine_crop.py:4-48 | the loop implementation returns what `Refine` specifies |
| Step2FineCrop.RefineWithoutDense | fcaesDes/step2_fine_crop.py:23-48 | when no column is denser than 15% the initial box is returned unchanged |
| Step2FineCrop.LeftPartHasContent | fcaesDes/step2_fine_crop.py:41-46 | once a dense column is seen the restricted area has content, so `getbbox` finds a box |
| Step2FineCrop.RefineWithDense | fcaesDes/step2_fine_crop.py:41-46 | once a dense column is seen the result is the tight box of the content left of the gap: nested in that part, ending at or before the gap, holding all its content, with content on its four edges |
| Step2FineCrop.BestRightIsGap | fcaesDes/step2_fine_crop.py:19-37 | where the scan stops before the edge, that column is under 2% content, it and the next column are at most 5%, and an earlier column is over 15% |
| Step2FineCrop.InitialBox | fcaesDes/step2_fine_crop.py:76-82 | (5,60,245,380) for 640x480, (10,80,420,450) for 680x528, the ratio box otherwise; always inside the image |
| Step2FineCrop.CropBulletin | fcaesDes/step2_fine_crop.py:72-89 | no box when the image does not open; when it opens, a failure exactly for a guess with columns and no rows, else a box nested in the guess |
| Step2FineCrop.OutputName | fcaesDes/step2_fine_crop.py:67 | the crop is saved as `foto_` and the input name, which can be read back |
| Step2FineCrop.Pending | fcaesDes/step2_fine_crop.py:62-70 | a listed name is cropped exactly when it is an image whose `foto_` output is not in the crop folder |
| Step2FineCrop.PendingFiles | fcaesDes/step2_fine_crop.py:54-70 | nothing when the full bulletins folder is missing; otherwise the image files of the listing whose `foto_` output is missing, in listing order |
| Step2FineCrop.PendingAreNew | fcaesDes/step2_fine_crop.py:62-70 | every file cropped is a listed image whose output does not exist |
| Step2FineCrop.IsYearName | fcaesDes/step2_fine_crop.py:98 | `isdigit()`: a year folder name is never an image file name |
| Step2FineCrop.YearFolderName | fcaesDes/step2_fine_crop.py:98 | the decimal rendering of any year is a year folder name |
| Step2FineCrop.YearFolders | fcaesDes/step2_fine_crop.py:97-100 | a folder is processed iff it is listed, is a directory and its name is a nonempty run of digits |
| Refinement.BestRight | fcaesDes/test_refinement.py:20-37 | `best_right` is at most the width of the box |
| Refinement.RefineV2 | fcaesDes/test_refinement.py:4-47 | fails exactly on a box with columns and no rows, otherwise a box nested in the initial box |
| Refinement.FineCropV2 | fcaesDes/test_refinement.py:4-47 | the loop implementation returns what `RefineV2` specifies |
| Refinement.RefineV2Tight | fcaesDes/test_refinement.py:40-47 | the result is the initial box when the part left of the gap is blank, else the tight box of that part |
| Refinement.RefineV2Seen | fcaesDes/test_refinement.py:20-47 | once a column denser than 20% is seen the result is the tight box of the part left of the gap |
| Refinement.Compare | fcaesDes/test_refinement.py:56-67 | the v1 box at threshold 240 is none iff the guess is blank and otherwise holds all its content inside the guess; the v2 box always exists and is nested in the guess |
| V2Batch.BestRight | fcaesDes/test_v2_batch.py:16-30 | `best_right` is at most the width |
| V2Batch.BestBottom | fcaesDes/test_v2_batch.py:34-50 | `best_bottom` is at most the height |
| V2Batch.Kept | fcaesDes/test_v2_batch.py:53-54 | the part kept, left of the column gap and above the row gap, is nested in the initial box |
| V2Batch.RefineBoth | fcaesDes/test_v2_batch.py:4-60 | fails exactly on a box with columns and no rows, else a box nested in the initial box |
| V2Batch.FineCropRefined | fcaesDes/test_v2_batch.py:4-60 | the two scan loops return what `RefineBoth` specifies |
| V2Batch.RefineBothTight | fcaesDes/test_v2_batch.py:53-60 | the result is the initial box when the kept part is blank, else its tight box |
| V2Batch.ColumnGap | fcaesDes/test_v2_batch.py:16-30 | where the scan stops, that column and the next are under 2% and an earlier column is over 30% |
| V2Batch.KeptHasContent | fcaesDes/test_v2_batch.py:34-58 | once a dense row was seen the kept part has content |
| V2Batch.RowSeenTight | fcaesDes/test_v2_batch.py:34-60 | once a dense row was seen the result is the tight box of the kept part |
| V2Batch.InitialBox | fcaesDes/test_v2_batch.py:76-79 | (5,60,240,380) for 640x480, the ratio box otherwise; always inside the image |
| V2Batch.BatchFiles | fcaesDes/test_v2_batch.py:70 | exactly min(`limit`, number of listed `.jpg` names) names, sorted, drawn from the listed `.jpg` names without repeating any more often than listed |
| V2Batch.BatchIsFirst | fcaesDes/test_v2_batch.py:70 | every listed `.jpg` left out of the batch comes after every name in it, and none is left out when there are at most `limit` of them |
| V2Batch.CropBulletin | fcaesDes/test_v2_batch.py:73-83 | `None` exactly when the initial guess has columns but no rows (the division by zero that raises); otherwise the saved box is nested in the initial guess |
| CropLimited.FineCrop | fcaesDes/test_crop_10.py:4-25 | the whole image when the box reaches past its right or bottom edge, otherwise the engine's tight crop; always inside the image |
| CropLimited.CropFirst | fcaesDes/test_crop_10.py:27-75 | nothing when the folder is missing; otherwise the first `limit` croppable images of the sorted listing, so at most `limit`, in order |
| CropLimited.CropLoop | fcaesDes/test_crop_10.py:43-75 | the loop that stops at `limit`, skips non-images without counting and counts only successful crops yields the first `limit` croppable files |
| Names.IsImageName | fcaesDes/step2_fine_crop.py:63 | the extension test ignores case: every `.jpg` name and every `.PNG` name passes, and a name without a dot never does |
| Names.IsJpgName | fcaesDes/test_v2_batch.py:70 | `.JPG` passes as well as `.jpg`, and a passing name ends in a dot and three characters |
| Names.LowerSuffix | fcaesDes/test_v2_batch.py:70 | a name ending in an upper-case suffix ends, lower-cased, in the lower-cased suffix |
| Names.Take | fcaesDes/test_v2_batch.py:70 | `s[:n]`: the first min(n, length) elements |
| Names.Sort | fcaesDes/test_crop_10.py:41 | `sorted`: an ascending permutation of the listing |
| Names.Insert | fcaesDes/test_crop_10.py:41 | inserting into a sorted list keeps it sorted and adds exactly that element |
| Names.FilterSorted | fcaesDes/test_crop_10.py:41-48 | skipping names keeps a sorted listing sorted |
| Names.TakeSmallest | fcaesDes/test_v2_batch.py:70 | the first `n` of a sorted list come before every element left out |
| Names.LessEqTotal | fcaesDes/test_crop_10.py:41 | Python's string order is total |
| Names.LessEqTrans | fcaesDes/test_crop_10.py:41 | Python's string order is transitive |
| Names.LessEqAntisym | fcaesDes/test_crop_10.py:41 | Python's string order is antisymmetric |
| Names.Filter | fcaesDes/step2_fine_crop.py:62-63 | the kept names are exactly the listed names satisfying the filter |
| ProcessAll.FixedCrop | fcaesDes/process_all_bulletins.py:55-61 | (5,70,215,355) for 640x480, (15,95,360,435) for 680x528, the 5%/15%/45%/75% ratio box otherwise; always inside the image |
| ProcessAll.ProcessBulletin | fcaesDes/process_all_bulletins.py:26-67 | same names and paths as the engine; a bulletin is new (`True`) iff not both files exist, the image was obtained, and cutting and saving went through; then the fixed crop of its size is saved |
| ProcessAll.SameLayoutAsEngine | fcaesDes/process_all_bulletins.py:26-67 | this pass and the engine give a bulletin the same file name and paths, and call it new in the same cases, given the same download and the same fate of the save |
| ProcessAll.Tally | fcaesDes/process_all_bulletins.py:88-100 | the processed count is the number of URLs and the new count the number of successes |
| CropPhoto.Selected | fcaesDes/crop_photo.py:16 | a selected name is an image, a name starting with `photo_` never is selected, and an upper-case `.PNG` name not starting with `photo_` is |
| CropPhoto.OutputName | fcaesDes/crop_photo.py:18 | the crop is saved as `photo_` and the input name, which can be read back |
| CropPhoto.PhotoBox | fcaesDes/crop_photo.py:21-33 | a box exactly for an image that opened, the table box or ratio box of its size, inside the image |
| CropPhoto.Jobs | fcaesDes/crop_photo.py:15-33 | one job per selected name, with its `photo_` output and box |
| CropPhoto.JobsAppend | fcaesDes/crop_photo.py:15-33 | one more selected name adds its job at the end |
| CropPhoto.CropBulletinPhotos | fcaesDes/crop_photo.py:15-36 | the jobs are those of the listed names that are images not starting with `photo_`, in listing order |
| CropPhoto.OutputNotSelected | fcaesDes/crop_photo.py:16-18 | an output name is never selected for cropping again |
| Download.EncodedUrl | fcaesDes/step1_download.py:38-42 | the request URL exists iff the link has at least three `/`-separated parts |
| Download.QuoteAll | fcaesDes/step1_download.py:41 | each path segment is quoted on its own |
| Download.UnquoteAll | fcaesDes/step1_download.py:41 | every quoted segment decodes back to the original segment |
| Download.EncodedUrlParts | fcaesDes/step1_download.py:38-42 | the request URL splits into `https:`, an empty part, the host verbatim and one quoted segment per path segment of the link |
| Download.BulletinUrlEncodes | fcaesDes/step1_download.py:19-42 | every extracted bulletin link gets a request, sent to the bulletin host |
| Download.DownloadBulletin | fcaesDes/step1_download.py:21-48 | name and path under year/`boletines_completos`; no request when the file exists; success iff the file was missing, the request URL was built and the fetch succeeded |
| Download.CountNew | fcaesDes/step1_download.py:65-70 | the counter equals the number of successful downloads |
| Percent.Escape | fcaesDes/step1_download.py:41 | an escape is `%` and two upper-case hex digits |
| Percent.UnquoteQuote | fcaesDes/step1_download.py:41 | `unquote(quote(s)) == s` |
| Percent.QuoteUnreserved | fcaesDes/step1_download.py:41 | a segment of unreserved characters is quoted as itself |
| Percent.QuoteNoSlash | fcaesDes/step1_download.py:41 | quoting a segment without `/` introduces none |
| Percent.Unquote | fcaesDes/step1_download.py:30 | `unquote` is percent-decoding to bytes and UTF-8 decoding them; its shortcut for strings without `%` agrees with that |
| Percent.Quote | fcaesDes/step1_download.py:41 | what `quote` writes is unreserved characters, `/` and `%` only |
| Percent.DecodeUtf8 | fcaesDes/step1_download.py:30 | decoding UTF-8 inverts encoding it |
| Percent.Decode | fcaesDes/step1_download.py:30 | decoding with replacement gives at most one character per byte |

## Left out

- Camera capture, the `VideoStream` thread, frame rotation and resizing, the
  Haar and insightface detectors and embeddings. Faces arrive as boxes with
  their similarity vectors, and detector boxes as rectangles.
- The serial port and every window, trackbar, drawing and `imshow` call.
  Slider positions are a function input, and the console and tick return the
  line they would write.
- The canvas layout and the 0.45 colour threshold of the panel, which are
  presentation only.
- `time.time()` and `np.sin`. The current time and the sine of the search
  phase are parameters, the sine in [-1, 1].
- `urllib` fetches and downloads, directory creation, and file existence
  checks. Existence, listings, success of a fetch, and the image obtained
  from a download are inputs.
- `pickle` loading and the empty-database case. `argmax` of an empty vector
  raises in the source, so the matcher requires a nonempty database.
- PIL loading, `convert('L')` and `save`. The image is given as a grid of
  gray values 0..255. Whether cutting and writing a photo raised is an
  input (`written`) of the per-bulletin steps.
- Crop padding for boxes outside the image. Every crop requires its box to
  lie inside the image. All guesses and table boxes are proved to lie inside
  it.
- IEEE float rounding. Gains, smoothing and positions are exact reals.
  Ratio boxes use exact floors of percentages, and densities use exact
  cross-multiplication.
- `str.isdigit`, `str.lower` and `\d` are modelled on ASCII only.
- `os.path.basename` is modelled with the Windows rule, `/` and `\` both
  separate, since the deployment is Windows. Drive letters and UNC prefixes
  are not modelled.
- `python/step3_index_faces.py`, `fcaesDes/download_bulletins.py`,
  `fcaesDes/re_crop_10.py`, `fcaesDes/analyze_columns.py` and
  `fcaesDes/analyze_rows.py` are not part of this model. They are drivers
  around the same logic, or only print densities.
- The `main` of `fcaesDes/test_crop_10.py` only checks that the 2020 folder
  exists before calling the modelled loop.
- BulletinUrls.FindBulletinUrls: returns a set. The order of the returned
  list, which goes through a Python `set`, is unspecified in the source.
- BulletinUrls.FindAll: is a specific recogniser for the one URL pattern,
  with the greedy semantics of `re.findall`. It is not a general regex
  engine.
- StickyMatch.TopIndices: fixes no order among equal similarities, because
  `np.argsort` is not a stable sort.
- Percent.Unquote: percent-decodes the whole string to bytes and decodes
  them in one pass. Python decodes each ASCII run separately and keeps the
  other characters as they are. The two agree, since every character's
  UTF-8 bytes form a complete sequence, but that agreement is not proved.
- V2Batch.CropBulletin: `None` stands for the uncaught exception, a
  failed `Image.open` or the division by zero of a guess with columns but no
  rows (a 2x1 image), that ends `process_test`. The files after it in the
  batch are never cropped. The per-file loop of `process_test` is not
  modelled.
- CropLimited.FineCrop: requires a box with non-negative, ordered corners.
  Ratio and table boxes always have them.
- StickyMatch.Matcher.FaceFrame, PanTilt.Controller.Tick,
  SerialFrame.CollectValues: handle one frame or one tick. The unbounded
  `while True` loop around them, and its exit on `q`, are not modelled.
