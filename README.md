# OCR camera session — a verified Dafny model

`ocr_camera.py` lets a user mark up to ten rectangles on a live camera
picture by dragging, delete them by clicking in Remove mode, and, once OCR
has been started with `s`, reads the text of every rectangle twice a second,
showing it and writing it to `ocr_regions/region_<k>.txt`. This project
models the session logic of that program: the geometry helpers, the mouse
handler, the key commands and the timed OCR cycle with its file
reconciliation.

The module globals (`regions`, `drawing`, `start_pt`, `preview_rect`,
`removing_mode`, `ocr_started`, `frame_shape`, `latest_texts`, plus the
loop-local `last_ocr`) become the fields of one object, `Session.OcrSession`.
It has one method per mouse event, one per key, one for the OCR block and one
for the main loop. Its invariant `Valid()` says three things:

- there are at most `MAX_REGIONS` regions;
- every region is at least `MIN_BOX` wide and high, with its origin at non-negative coordinates;
- a preview exists only while a drag is in progress.

Every method preserves it, so these facts hold after any sequence of frames,
mouse events, ticks and keys (`Run`).

The outside world enters as inputs:

- the frame is its shape `(height, width)`;
- mouse events are `MouseInput(event, x, y)`;
- a key is the raw code that `cv2.waitKey` returns (masked with `% 256`, as `& 0xFF` does);
- the clock is an integer number of milliseconds;
- the OCR engine is an oracle `nat -> string` that gives the stripped text of region `i`;
- the output directory is a `map` from file name to contents.

Modules:

- `Geometry` (geometry.dfy): `clip_rect`, `point_in_rect`, and the normalised drag rectangle.
- `Regions` (regions.dfy): `MIN_BOX`, `MAX_REGIONS`, the commit rule of a mouse-up, and first-hit removal with the index shift of `list.pop`.
- `RegionFiles` (region_files.dfy): the name `region_<k>.txt`, the pattern `region_(\d+)\.txt$` that recognises it, and `cleanup_extra_region_files`.
- `Session` (session.dfy): the OCR cycle and the session object.
- `Scenarios` (scenarios.dfy): client methods that drive a session through concrete cases using only the contracts.
- `Wrappers` (wrappers.dfy): `Option`.

Behaviour worth noting, as the code has it:

- Toggling the mode with `r` does not cancel a drag in progress. `drawing` and `preview_rect` survive, and a later mouse-up in Draw mode still commits the drag.
- An exception from the OCR engine is not caught; see "Left out".
- A clipped rectangle may have width or height 0. Only the regions that are committed are guaranteed to be at least `MIN_BOX` in both dimensions.
- `c` empties the regions and the texts but leaves OCR on. The files of the removed regions stay on disk until the next cycle, and no cycle runs while there are no regions.
- A removal in Remove mode does not touch `latest_texts`. The texts are realigned only by the next cycle.
- File names with leading zeros (`region_007.txt`) and with one trailing newline also match the pattern. The cycle deletes them when their number is above the region count.

## Model

| member | source | states |
|---|---|---|
| Geometry.ClipRect | ocr_camera.py:25-30 | the result has non-negative origin and size; for a frame of at least 1x1 it lies inside it (0 ≤ x ≤ W-1, x+w ≤ W, same for y); a degenerate frame gives size 0; the size never grows; an origin already in the frame is kept, a negative one moves to 0, one past the far edge moves to W-1 (H-1); a negative size becomes 0, a size that fits is kept and one that overshoots is cut exactly at the far edge; a rectangle already inside is returned unchanged |
| Geometry.ClipIdempotent | ocr_camera.py:25-30 | clipping an already clipped rectangle changes nothing |
| Geometry.PointInRect | ocr_camera.py:32-34 | a point is in a rectangle exactly when its offsets from the origin lie in 0..w and 0..h, edges included; so no point is in a rectangle of negative size |
| Geometry.PointInRectInclusive | ocr_camera.py:32-34 | all four edges and corners belong to the rectangle, one pixel beyond any edge does not |
| Geometry.DragRect | ocr_camera.py:60-63 | the min/max-normalised, clipped drag rectangle lies inside any frame of at least 1x1 |
| Geometry.DragDirectionIrrelevant | ocr_camera.py:61-62 | any two opposite corners, dragged in any direction, give the same rectangle |
| Geometry.DragInsideFrame | ocr_camera.py:67-70 | a drag between two pixels of the frame is not clipped: its corners are the two points and both are inside it |
| Geometry.NonEmptyDragInFrame | ocr_camera.py:70-72 | a drag rectangle of positive size lies inside the frame whatever the frame's shape, so a committed region is always in the frame it was drawn on |
| Regions.Classify | ocr_camera.py:72-79 | a mouse-up reports TooSmall exactly when w or h is below MIN_BOX, LimitReached exactly when the size is fine and the list is full, Added otherwise |
| Regions.Commit | ocr_camera.py:72-77 | the cap is kept; a full list and a too-small rectangle leave the list unchanged; a rectangle of sufficient size is appended when there is room; the only change ever is appending the committed rectangle |
| Regions.FirstHit | ocr_camera.py:47-48 | the index found contains the point and no earlier region does; none is found exactly when no region contains the point |
| Regions.RemoveAt | ocr_camera.py:49 | `pop(i)`: one shorter, earlier regions in place, later ones moved down by one |
| Regions.RemoveAtMultiset | ocr_camera.py:49 | exactly the region at the index is removed, no other |
| Regions.RemoveFirstHit | ocr_camera.py:44-52 | a click never lengthens the list and keeps only regions that were there |
| Regions.RemoveFirstHitLowest | ocr_camera.py:47-51 | when k is the lowest index containing the point, exactly region k is removed and the list shrinks by one |
| Regions.RemoveFirstHitMiss | ocr_camera.py:47-52 | a click inside no region leaves the list unchanged |
| RegionFiles.DigitChar | ocr_camera.py:163 | a decimal digit becomes the character for it |
| RegionFiles.DecimalString | ocr_camera.py:163 | the decimal form of a number is non-empty, all digits, without leading zeros |
| RegionFiles.DigitsValue | ocr_camera.py:91 | `int` of a digit string without leading zeros is positive unless the string is `0`, and `str` of the value gives the string back |
| RegionFiles.DecimalRoundTrip | ocr_camera.py:91 | reading back the decimal form with `int` gives the number |
| RegionFiles.RegionNameParts | ocr_camera.py:87 | every accepted name splits at fixed places into `region_`, its digits and `.txt`, after one final newline is dropped |
| RegionFiles.RegionNameJoin | ocr_camera.py:87 | conversely, the three parts put back together give the name, with or without one final newline |
| RegionFiles.ParseRegionName | ocr_camera.py:87-91 | every name that is `region_` + one or more digits + `.txt`, optionally followed by one newline, matches and is read as the value of its digits (leading zeros allowed) |
| RegionFiles.ParseRegionNameOnlyAccepted | ocr_camera.py:87-89 | conversely, a name matches only when it has exactly that form |
| RegionFiles.ParseTrailingNewline | ocr_camera.py:87 | `$` also matches before a final newline, so appending one does not change the parse |
| RegionFiles.RegionFileName | ocr_camera.py:163 | the pattern accepts the name written for region k and reads it back as k |
| RegionFiles.RegionFileNameInjective | ocr_camera.py:163 | distinct regions write distinct files |
| RegionFiles.ParseRegion3 | ocr_camera.py:87-91 | `region_3.txt` is read as 3 |
| RegionFiles.ParseLeadingZeros | ocr_camera.py:87-91 | `region_007.txt` is read as 7 |
| RegionFiles.ParseNewlineExample | ocr_camera.py:87-91 | `region_3.txt` followed by a newline is read as 3 |
| RegionFiles.ParseRegionNameRejects | ocr_camera.py:87-89 | an empty number, a suffix after `.txt`, a prefix before `region_` and an unrelated name do not match |
| RegionFiles.CleanupExtraRegionFiles | ocr_camera.py:85-96 | visiting the listing one name at a time, a file remains exactly when its name does not match with an index above n, and kept files keep their contents |
| RegionFiles.WrittenNameStep | ocr_camera.py:161-165 | the region file names of regions 1..n are those of 1..n-1 and the name of region n |
| RegionFiles.WriteNext | ocr_camera.py:162-165 | writing the next region's file extends the written prefix without disturbing earlier region files or other files |
| RegionFiles.CleanupCompletesCycle | ocr_camera.py:167-168 | reconciling after all regions were written gives: file k holds text k-1, no stale file, other files untouched, nothing else created |
| Session.WriteRegionTexts | ocr_camera.py:155-165 | the texts are the oracle's, one per region in region order; afterwards region_k.txt holds text k-1 for every k in 1..n, every other file is as it was, and nothing else was added |
| Session.OcrCycle | ocr_camera.py:155-168 | the texts are one per region in region order; region_k.txt holds text k-1 for every k in 1..n; no file named region_N.txt with N > n remains; files whose names do not match are untouched; no other file appears |
| Session.OcrSession.constructor | ocr_camera.py:16-23 | the initial values of the globals, and of `latest_texts` and `last_ocr` as the main function resets them at ocr_camera.py lines 130-131; the directory is as found |
| Session.OcrSession.OnFrame | ocr_camera.py:141 | only the frame shape changes |
| Session.OcrSession.MouseDown | ocr_camera.py:40-58 | no frame yet: nothing changes; Remove mode: the first region containing the point is popped and nothing else changes; Draw mode: a drag starts at the point with no preview and the regions are untouched |
| Session.OcrSession.MouseMoved | ocr_camera.py:59-64 | only during a Draw-mode drag, the preview becomes the clipped normalised rectangle from the anchor; nothing else ever changes |
| Session.OcrSession.MouseUp | ocr_camera.py:65-79 | only during a Draw-mode drag: the drag ends, the preview is cleared, and the clipped rectangle is appended exactly when it is large enough and the list is not full; the outcome reported says which case applied |
| Session.OcrSession.HandleMouse | ocr_camera.py:36-79 | before the first frame, and for ignored event codes, nothing changes; in Remove mode only a press has an effect; only a Remove-mode press and a Draw-mode release change the regions, as RemoveFirstHit and Commit say; a Draw-mode press starts a drag at the point with no preview; a move refreshes the preview during a Draw-mode drag and nothing else of the drag; a Draw-mode release ends the drag and clears the preview; the anchor survives moves and releases |
| Session.OcrSession.KeyStart | ocr_camera.py:196-202 | with no regions nothing changes; otherwise OCR is on and the texts are one empty string per region |
| Session.OcrSession.KeyToggleRemove | ocr_camera.py:203-206 | only the mode flips |
| Session.OcrSession.KeyClear | ocr_camera.py:207-210 | the regions and the texts become empty; nothing else changes |
| Session.OcrSession.HandleKey | ocr_camera.py:192-210 | the key is the code masked to a byte; `q` (and only `q`) quits; `s`, `r` and `c` act as above; OCR becomes on only through `s` with at least one region, and is never turned off; any other key changes nothing |
| Session.OcrSession.OcrTick | ocr_camera.py:154-169 | a cycle runs exactly when OCR is on, there is a region and the interval has elapsed; it rebuilds the texts from the oracle in region order, leaves the directory as `OcrCycle` says and records the finishing time; otherwise nothing changes |
| Session.OcrSession.Run | ocr_camera.py:135-210 | frame, OCR block, mouse events, key, in that order, until a read fails or `q` is pressed: every processed iteration had a frame, only the last one may have asked to quit, and without `q` the loop stops at the first missing frame or at the end; the region cap and size rule hold throughout |
| Scenarios.CycleReconcileExample | ocr_camera.py:85-96 | after a two-region cycle a leftover region_3.txt is gone and an unrelated file is kept |

## Left out

- Camera capture, window creation, mouse-callback registration and all drawing (`draw_ui`, the side panel, `imshow`, `hstack`): these are I/O and pixels. The frame enters only as its shape.
- The text panel layout and its truncation: these affect only the display.
- OCR itself (`image_to_string`, grayscale conversion, cropping): the OCR engine is an external library. An oracle from region index to text stands for it, with `.strip()` folded in. The oracle is total, so an exception from the engine, which the source does not catch and which would end the program, is not modelled.
- Floating-point wall-clock time: `time.time()` and `INTERVAL_SEC = 0.5` become integer milliseconds and `INTERVAL_MS = 500`.
- `ensure_output_dir`, and failures of writes and deletes: the directory always exists, every write succeeds and every delete succeeds. The source swallows delete errors, and a write error would end the program.
- The order of `os.listdir`: the cleanup visits the names in an arbitrary order, and its result does not depend on that order.
- Session.OcrSession.Run: the effect of each iteration on the state is stated only through the contracts of the methods it calls (`OnFrame`, `OcrTick`, `HandleMouse`, `HandleKey`); `Run` itself promises the invariant and which iterations were processed, not a closed form of the final state.
- RegionFiles.ParseRegionName: accepts only ASCII digits. Python's `\d` and `int` also accept other Unicode decimal digits, so a name such as `region_٣.txt` would be deleted by the source but is left alone by the model.
- The camera-index prompt, `cap.release()`, `destroyAllWindows` and every console message. The messages of a mouse-up are kept as the `AddOutcome` value that `MouseUp` returns.
- The `flags` and `userdata` arguments of the mouse callback: the source never reads them.
- test_cams_windows.py and test_cams_macs.py: they only open a camera and show frames.
