# Wii U screenshot album — a Dafny model of its core logic

The album app (Xpl0itU's WiiUScreenshotManager) lists the console's
screenshots as TV/DRC pairs on a 4-column grid. It lets the user browse them
with the D-pad or touch, open one pair full-screen and slide between its two
halves, and select pairs for deletion. This project models the app's pure
logic as immutable records and step functions:

- `carith.dfy`, module `CArith`: C's truncating `/` and `%`, and the
  console's 32-bit `size_t` wrap.
- `grid.dfy`, module `Grid`: the layout macros as the preprocessor expands
  them (cell pitch 300 on both axes, scroll row 195, maximum drag 585,
  offsets 390 and -30, header 256), the `ImagesPair` entry and its
  path-only `operator==`, the row-major cell formula, and the hit and
  visibility tests.
- `scan.dfy`, module `Scan`: `fileEndsWith`, suffix classification, base
  names, and the grouping of the walk into pairs. It ends with
  `ScanImagePairs`, which enumerates the hash map's keys in an arbitrary
  duplicate-free order.
- `button.dfy`, module `ButtonWidget`: the `Button` press/inflate/release
  machine, driven by `updateButton` and `handleEvent`.
- `imagepairscreen.dfy`, module `ImagePairScreen`: the single-image viewer.
  It covers the arrow-click toggle, the 50-step slide of 38 px per frame
  with its snap to rest, and the arrow's placement.
- `menu.dfy`, module `Menu`: the main loop's state machine. It covers the
  D-pad, button A, the back and select callbacks, the confirmed delete with
  its dense re-layout, the drag scroll, and the events the viewer receives.
  The machine `Step` uses the corrected drag (see Findings), and
  `StepPreservesWF` shows that each of its steps keeps the menu well formed.
  `StepAsWritten` takes the drag as written. `StepAsWrittenPreservesWF`
  shows the same for it on any non-empty album.

The button's float `scale` is an integer level from 0 (scale 1.0) to `top`
(`scalePressed`). The click callback is the `InflateRelease` hook a step
reports. Touch coordinates are integer pixels. The confirmation dialog's
answer is an input. The walk is an input list of `(name, path, regular)`
records, and `None` stands for a missing or non-directory root. Files to
remove are an output list of paths.

## Model

| member | source | states |
|---|---|---|
| CArith.CDiv | src/main.cpp:448-449 | C `int` division truncates toward zero: the remainder has the dividend's sign and is smaller than the divisor |
| CArith.CMod | src/main.cpp:680 | C `%` gives dividend = quotient·divisor + remainder, with the remainder carrying the dividend's sign |
| CArith.CDivNonNegative | src/main.cpp:327-328 | on non-negative operands C and Dafny division and remainder agree |
| CArith.SizeT | src/main.cpp:662 | `size_t` arithmetic is taken modulo 2^32; `0 - 1` becomes 2^32 - 1 |
| CArith.IntOfSizeT | src/main.cpp:769 | casting a 32-bit `size_t` to `int` keeps the value modulo 2^32 and lands in the signed range |
| Grid.ConstantValues | src/main.cpp:27-30 | the macros expand to image 240×135, separation 60, pitch 300, scroll row 195, drag bound 585 and grid offsets (390, -30) |
| Grid.SamePathsIgnoresLayoutAndSelection | include/ImagePairScreen.h:19-21 | two pairs are equal exactly when both paths match; position and selection never matter |
| Grid.CellRoundTrip | src/main.cpp:327-328 | the k-th cell's origin determines k, and its x stays within the four columns |
| Grid.CellsDistinct | src/main.cpp:814-819 | distinct indices get distinct cells |
| Grid.Relayout | src/main.cpp:813-819 | the re-layout loop puts every entry at its own index's cell and changes no path or selection |
| Grid.RelayoutFixesLaidOut | src/main.cpp:814-819 | re-laying out an already laid-out list changes nothing |
| Grid.RelayoutPrefix | src/main.cpp:814-819 | the layout of a prefix is the prefix of the layout, so an entry's cell depends only on its index |
| Grid.IsFirstRow | src/main.cpp:100-102 | for a non-negative index, true exactly on row 0 |
| Grid.IsLastRow | src/main.cpp:104-107 | for an index in range, true exactly when it shares the last entry's row |
| Grid.IsImageVisible | src/main.cpp:166-177 | true exactly when the on-screen top lies between the screen top minus the 202 px box and the screen bottom; the screen top is 128 px, or 256 px when `fullyVisible` is set |
| Scan.EndsWith | src/main.cpp:88-90 | `fileEndsWith(f, e)` holds exactly when `e` is a suffix of `f`, equal lengths included |
| Scan.EqualFromBack | src/main.cpp:89 | comparing from the back over all of `e` is the same as comparing `f`'s last `|e|` characters with `e` |
| Scan.ClassifyMeaning | src/main.cpp:310-314 | a name is TV exactly when it ends in a TV suffix, DRC exactly when it ends in a DRC suffix, and ignored otherwise |
| Scan.NoDRCSuffixAfterTV | src/main.cpp:310-312 | no name ends in both a TV and a DRC suffix, so the order of the two tests does not matter |
| Scan.MatchedSuffix | src/main.cpp:310-314 | a classified name ends in the suffix it matched, which is one of the six recognised ones |
| Scan.SuffixShape | src/main.cpp:310-312 | each recognised suffix begins with its only `_` |
| Scan.LastIndexOf | src/main.cpp:309 | `find_last_of('_')` finds the last `_`, or reports that the name has none |
| Scan.ClassifiedNameSplits | src/main.cpp:309-313 | for a classified file, base name + matched suffix = file name |
| Scan.BaseNameOfClassified | src/main.cpp:309 | the base name of `b ++ suffix` is `b`, even when `b` itself contains `_` |
| Scan.KeyOfSuffixed | src/main.cpp:308-313 | a regular file named `b_TV.ext` or `b_DRC.ext` fills that slot of key `b` |
| Scan.WithHalf | src/main.cpp:311-313 | filling one slot of a pair leaves the other slot untouched |
| Scan.GroupTaggedKeys | src/main.cpp:301-315 | the map's keys are exactly the base names of contributing files |
| Scan.GroupTaggedHalfIsLast | src/main.cpp:311-313 | each slot holds the path of the last file that filled it, and stays empty if no file did |
| Scan.GroupTaggedWitness | src/main.cpp:301-315 | every key has a slot holding a path of a file with that base name |
| Scan.GroupTaggedHalfOrigin | src/main.cpp:311-313 | a non-empty slot holds the path of a walked file with that base name and slot |
| Scan.Contributing | src/main.cpp:304-314 | the contributing files are exactly the walked files that have a key |
| Scan.GroupIgnoresOthers | src/main.cpp:304-306 | non-regular and unclassified files contribute nothing: grouping all files equals grouping the contributing ones |
| Scan.ScanImagePairs | src/main.cpp:297-340 | a missing root gives no entries; otherwise one unselected entry per key, in a duplicate-free key order, with the k-th entry at cell k |
| Scan.GroupWalk | src/main.cpp:303-315 | the walk loop builds exactly the grouping of all walked files |
| Scan.EnumerateKeys | src/main.cpp:317-335 | every key of the map becomes exactly one unselected entry, at the cell of its position in the enumeration |
| Scan.ScanEntriesDistinct | src/main.cpp:317-334 | scanned entries have at least one path and are pairwise unequal under `operator==` |
| Scan.PairingExample | src/main.cpp:301-315 | `a_TV`, `a_DRC` and `c_TV` files group into `a` with both halves and `c` with its TV half only |
| Scan.GroupOfPairingExample | src/main.cpp:311-313 | the grouping loop on three tagged files yields the expected two-key map |
| ButtonWidget.NewButton | src/Button.cpp:6-12 | a new button is idle with scale 1.0, its original bounds equal its bounds, and no controller button is bound |
| ButtonWidget.InsideHalfOpenVsClosed | src/Button.cpp:118-120 | the button's hit test is half-open and differs from the closed `isPointInsideRect` exactly on the right and bottom edges |
| ButtonWidget.UpdateButton | src/Button.cpp:43-84 | a cycle starts iff idle, touched and inside, and then restarts at the lowest level. The click fires iff an undeflated touch is released at full inflation, and it arms `touchDown`. Dragging out at full inflation deflates without a click. After that, each update lowers the level by one, and the update from level 1 ends the cycle with `onDeflate`. `pressed == touching && !touchDown`, and geometry never changes |
| ButtonWidget.HandleEvent | src/Button.cpp:14-41 | finger events touch at their point, and finger-up releases. The bound controller button touches and releases at the centre. Other buttons and other events leave the button unchanged |
| ButtonWidget.UnboundIgnoresController | src/Button.cpp:26-34 | with the initial invalid binding every controller event is ignored |
| ButtonWidget.SetRect | src/Button.cpp:157-166 | bounds and original bounds become the same rectangle; nothing else changes |
| ButtonWidget.SetControllerButton | src/Button.cpp:168-170 | the binding becomes the given code; nothing else changes |
| ButtonWidget.BoundControllerPressesAtCentre | src/Button.cpp:26-34 | once bound, the controller button presses an idle button at its centre, which lies inside it. A full press with that button clicks exactly once |
| ButtonWidget.ClicksAtMostOnePerCycle | src/Button.cpp:53-80 | over any run of updates the clicks never exceed the press cycles started, plus one for a cycle already armed |
| ButtonWidget.HoldInside | src/Button.cpp:53-66 | holding inside inflates one level per update, up to the top, without clicking |
| ButtonWidget.PressHoldReleaseClicksOnce | src/Button.cpp:46-74 | press inside, hold to full inflation, release: exactly one click and one start |
| ButtonWidget.HoldThenRelease | src/Button.cpp:60-74 | an armed press that reaches the top and is then released clicks exactly once |
| ButtonWidget.PressDragOutReleaseNoClick | src/Button.cpp:67-69 | press, hold to full inflation, drag outside and release there: no click |
| ButtonWidget.HoldThenDragOut | src/Button.cpp:67-72 | an armed press dragged outside at full inflation and then released never clicks |
| ImagePairScreen.NewScreen | include/ImagePairScreen.h:31-38 | a fresh screen rests on TV with 50 steps, step 0, arrow visible, TV at x = 0, DRC at x = 1920, and the arrow's rectangle at x = 0 |
| ImagePairScreen.SetImagePair | src/ImagePairScreen.cpp:59-70 | resets to TV at rest, with TV at 0, DRC at 1920, step 0, arrow visible and the arrow rectangle back at x = 0 |
| ImagePairScreen.ArrowClick | include/ImagePairScreen.h:39-47 | a click flips TV↔DRC and sets step 1 and the arrow hidden unconditionally, without moving the images |
| ImagePairScreen.ArrowClickTwiceRestoresState | include/ImagePairScreen.h:40-46 | two clicks restore the state; only the restarted step and the hidden arrow remain |
| ImagePairScreen.Slide | src/ImagePairScreen.cpp:8-32 | at step 0 nothing moves. Mid-transition both rects shift by +38 (TV) or -38 (DRC) and the step increments. The last step lands at rest. The gap DRC.x - TV.x = 1920 is kept. The state, the arrow, the step count and the flip never change |
| ImagePairScreen.PlaceArrow | src/ImagePairScreen.cpp:43-54 | the arrow goes to x = 1600 unflipped for TV, and to x = 0 mirrored for DRC; nothing else changes |
| ImagePairScreen.Render | src/ImagePairScreen.cpp:7-56 | `render` slides, keeps the 1920 gap and leaves a resting screen in place. It places the arrow only when it is visible and not mid-press |
| ImagePairScreen.HandleEvent | src/ImagePairScreen.cpp:3-5 | events reach the arrow button even while the arrow is hidden, and the images never move. The state toggles iff the arrow clicks, and a toggle restarts the slide at step 1 with the arrow hidden |
| ImagePairScreen.ViewerPressHoldReleaseTogglesOnce | include/ImagePairScreen.h:39-47 | a finger pressed on the arrow, held to full inflation and lifted there clicks exactly once. The viewer toggles once, and only the arrow button changes besides the toggle |
| ImagePairScreen.ViewerHoldThenRelease | src/ImagePairScreen.cpp:3-5 | an armed press on the arrow, held to the top and then released, runs the toggle exactly once |
| ImagePairScreen.TransitionCompletes | src/ImagePairScreen.cpp:10-31 | a transition begun at step k runs for exactly 51 - k renders and ends in the current state's resting layout |
| ImagePairScreen.RestIsStable | src/ImagePairScreen.cpp:10 | any number of renders leaves a resting screen at rest |
| ImagePairScreen.ToggleSlidesThenSnaps | src/ImagePairScreen.cpp:8-31 | after a click at rest, j < 50 renders have moved both images 38·j px, and the 50th render lands exactly on the other state's rest |
| ImagePairScreen.SlideOffsets | src/ImagePairScreen.cpp:8-19 | every mid-transition render adds 38 px in the state's direction |
| Menu.Start | src/main.cpp:467-470 | the loop starts on the grid with cursor 0, scroll 0 and no touch, and the menu is well formed |
| Menu.Launch | src/main.cpp:572 | scan then start: a consistent walk gives a well-formed menu of unselected entries, each with a path |
| Menu.Back | src/main.cpp:534-541 | back always shows the grid and clears every selection, keeping paths and positions |
| Menu.Select | src/main.cpp:577-586 | nothing on an empty album. It moves grid to selection mode, and in selection mode it only raises the delete request |
| Menu.PressA | src/main.cpp:629-637 | nothing on an empty album. In selection mode it flips only the cursor entry's flag. On the grid it opens the cursor entry in a freshly reset viewer |
| Menu.ScrollUp | src/main.cpp:644-651 | the up adjustment scrolls back 585 px but never past the top, so the offset never becomes positive |
| Menu.PadUp | src/main.cpp:639-655 | when its guard holds, up moves the cursor by exactly -4 and adjusts the scroll on the first row; otherwise nothing changes. The cursor stays in range |
| Menu.LastRowTop | src/main.cpp:662-664 | the bound of a down scroll sits one row above the last row, at 0 for albums of one or two rows |
| Menu.ScrollDown | src/main.cpp:661-673 | the down adjustment scrolls 885 px but stops at the last row's bound, and never makes a non-positive offset positive |
| Menu.PadDown | src/main.cpp:656-677 | when its guard holds, down moves the cursor by exactly +4 and adjusts the scroll on the last row; otherwise nothing changes. The cursor stays in range |
| Menu.PadLeft | src/main.cpp:678-684 | left moves one step unless in column 0 and never changes row |
| Menu.PadRight | src/main.cpp:685-691 | right moves one step unless in column 3 or on the last entry, and never changes row |
| Menu.DragScroll | src/main.cpp:752-759 | the dragged offset is clamped to [-585, 0] and is exact inside that range |
| Menu.Clamp | src/main.cpp:771 | with a non-empty range the result lies in it, and a value already in range is kept |
| Menu.DragAsWritten | src/main.cpp:750-774 | with a drag under way, the offset lands in [-585, 0], the anchor follows the finger and, on a non-empty album, the cursor lands in [0, n-1] |
| Menu.DragAsWrittenEmptyAlbum | src/main.cpp:769-771 | on an empty album a drag sets the cursor to -1 |
| Menu.DragAsWrittenCounterexample | src/main.cpp:750-771 | a well-formed empty album, anchored at y = 500, dragged to y = 400, ends with the cursor out of range |
| Menu.Drag | src/main.cpp:750-774 | the corrected drag keeps the cursor in range on every album, empty included, and moves the offset exactly as the clamp does |
| Menu.DragAgreesOnNonEmptyAlbum | src/main.cpp:771 | on a non-empty album the corrected and the as-written drag coincide |
| Menu.EraseFirst | src/main.cpp:803-807 | `std::find` + `erase` removes one entry when some entry is equal, and nothing otherwise |
| Menu.EraseFirstRemovesFirstMatch | src/main.cpp:803-807 | the entry removed is the first whose paths match; the entries before and after it stay in order |
| Menu.Selected | src/main.cpp:786-788 | the copies pushed for removal are exactly the selected entries of the list |
| Menu.Kept | src/main.cpp:781-822 | the survivors are exactly the unselected entries of the list |
| Menu.KeptSelectedPartition | src/main.cpp:781-808 | the survivors and the copies pushed for removal together are exactly the album's entries (as multisets), so a delete never lengthens the list |
| Menu.RemovedPathsExactly | src/main.cpp:786-794 | the paths removed are exactly the non-empty paths of selected entries |
| Menu.EraseAllPassesOver | src/main.cpp:803-808 | the erase loop walks past an entry that no removed copy equals |
| Menu.EraseSelectedIsKept | src/main.cpp:803-808 | with distinct paths the erase loop leaves exactly the unselected entries, in their order |
| Menu.EraseWithDuplicatePaths | src/main.cpp:803-808 | with duplicate paths the loop erases an unselected twin instead of the selected entry |
| Menu.KeptDistinct | src/main.cpp:803-808 | the survivors of a list with distinct paths still have distinct paths |
| Menu.RelayoutKeepsDistinct | src/main.cpp:813-819 | re-layout preserves distinct paths |
| Menu.DeleteAsWritten | src/main.cpp:781-822 | with no request or a declined dialog nothing changes; a confirmed request always ends on the grid, and with nothing selected that is its only effect |
| Menu.DeleteKeepsExactlyUnselected | src/main.cpp:781-819 | a confirmed delete with a selection keeps exactly the unselected entries, in order and densely re-laid out, and resets the cursor to 0 |
| Menu.DeleteRemovesSelectedPaths | src/main.cpp:786-794 | a confirmed delete asks to remove exactly the non-empty paths of the selected entries |
| Menu.DeleteFrame | src/main.cpp:780-822 | the end-of-frame delete keeps the menu well formed and never grows the list |
| Menu.Step | src/main.cpp:601-866 | no step grows the album |
| Menu.StepPreservesWF | src/main.cpp:601-866 | every step of the machine with the corrected drag keeps the cursor in range, the offset non-positive, the layout dense, paths distinct, and the two non-grid states on a non-empty album |
| Menu.StepAsWritten | src/main.cpp:601-866 | the machine with the as-written drag takes the same steps as `Step` on every non-empty album, and on every action other than a drag |
| Menu.StepAsWrittenPreservesWF | src/main.cpp:601-866 | on a non-empty album every step of the as-written machine keeps the menu well formed |

## Left out

- Rendering, textures, fonts, particles, the highlight rectangle, music and asset loading: presentation over SDL, with no state the logic reads.
- The directory walk, `std::filesystem::exists` and `remove`: the walk is an input list and the removals are an output list. The re-check at src/main.cpp:321 is not modelled. It is always true for files the walk has just found, so every key yields an entry.
- The background scan thread, its mutex counter and the placeholder-polling loop (src/main.cpp:525-574). The placeholders use the same cell formula as `Grid.CellX`/`Grid.CellY`.
- The finger-down and finger-up handlers (src/main.cpp:696-739): the drag's anchor (`initialTouchY`, `initialSelectedImageIndex`, `isCameraScrolling`) is part of the menu state and is taken as given. Finger-up reads `images[selectedImageIndex]` without an emptiness check, which is outside this model.
- The per-frame `updateButton` calls of the corner buttons in the main loop (src/main.cpp:878-879), whose coordinates can be uninitialised. The routing of each event to the corner buttons is also left out. Their callbacks are modelled directly as `Menu.Back` and `Menu.Select`. Event routing to the viewer (src/main.cpp:607-609) is modelled as the `ViewerEvent` action.
- Menu.StepPreservesWF: is proved for the machine with the corrected drag. With the drag as written, well-formedness holds only on non-empty albums (`Menu.StepAsWrittenPreservesWF`). On an empty album a drag leaves the cursor at -1 (`Menu.DragAsWrittenCounterexample`).
- The confirmation dialog and its `quit` output: its answer is the `confirmed` input.
- ButtonWidget.UpdateButton: the float `scale` is an integer level, so the number of frames to full inflation is the level count `top`, not the one float rounding gives for 1.1 in steps of 0.1/3.
- The arrow button's controller binding (`setButton(0xe)` / `setButton(0xc)`) and the nine-argument constructor in include/ImagePairScreen.h do not match include/Button.h, so the arrow's binding is left abstract. The flip is kept on the screen as `arrowFlip`.
- `Button::render`, `setText`, `setTextColor`, `setTexture` and `update` (empty): presentation only.
- Integer overflow of `int` coordinates and offsets is not modelled. Sizes are bounded below 2^31 where the source casts `images.size()` to `int`.

## Findings

| source | as written | input that shows it | evidently intended | confidence | as-written member | corrected member |
|---|---|---|---|---|---|---|
| src/main.cpp:771 | `std::clamp(v, 0, (int) images.size() - 1)` has an empty range on an empty album. The standard leaves that undefined, and the `min(max(v, lo), hi)` form yields -1 | empty album, finger down at y = 500 (anchor index 0), finger moved to y = 400: the cursor becomes -1 | the cursor stays 0 when there are no entries (upper bound `max(0, n - 1)`) | medium; not executed | Menu.DragAsWritten, Menu.DragAsWrittenCounterexample | Menu.Drag |
