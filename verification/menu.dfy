/**
 The album's main-loop state machine in src/main.cpp: the three menu states,
 the entry list with its cursor and scroll offset, and one step function per
 action the loop reacts to: the D-pad, button A, the two corner-button
 callbacks, the confirmed delete with its dense re-layout, and the
 touch-drag scroll. Each step keeps the well-formedness invariant `WF`.
 */
module Menu {
  import opened CArith
  import opened Grid
  import ButtonWidget
  import ImagePairScreen
  import Scan

  datatype MenuState = ShowAllImages | SelectImagesDelete | ShowSingleImage

  datatype Menu = Menu(
    state: MenuState,
    images: seq<Entry>,
    /** `selectedImageIndex`. */
    cursor: int,
    /** `scrollOffsetY`. */
    scroll: int,
    /** `deleteImagesSelected`, cleared at the start of every frame. */
    deleteRequested: bool,
    /** `initialTouchY`; -1 while no finger is down. */
    dragAnchorY: int,
    /** `initialSelectedImageIndex`. */
    dragAnchorIndex: int,
    /** `isCameraScrolling`. */
    cameraScrolling: bool,
    screen: ImagePairScreen.Screen,
    /** Index of the entry last handed to `setImagePair`. */
    shown: int)

  /** The cursor designates an entry, or is 0 on an empty album. */
  predicate CursorInRange(m: Menu) {
    0 <= m.cursor && (m.cursor < |m.images| || (|m.images| == 0 && m.cursor == 0))
  }

  predicate WF(m: Menu) {
    && CursorInRange(m)
    && m.scroll <= 0
    && LaidOut(m.images)
    && PathsDistinct(m.images)
    && (m.state != ShowAllImages ==> |m.images| > 0)
    && ImagePairScreen.Valid(m.screen)
  }

  /** The menu as the loop starts, once the scan has delivered `images`. */
  function Start(images: seq<Entry>, pressedLevel: int): (m: Menu)
    requires LaidOut(images) && PathsDistinct(images) && pressedLevel >= 1
    ensures WF(m) && m.state == ShowAllImages && m.cursor == 0 && m.scroll == 0 && m.images == images
    ensures !m.deleteRequested && !m.cameraScrolling && m.dragAnchorY == -1
  {
    Menu(ShowAllImages, images, 0, 0, false, -1, 0, false, ImagePairScreen.NewScreen(pressedLevel), 0)
  }

  /** The scan followed by the start of the loop: a consistent walk yields a
      well-formed menu over exactly the scanned entries, none selected. */
  method Launch(root: Scan.Option<seq<Scan.FileRecord>>, pressedLevel: int) returns (m: Menu)
    requires pressedLevel >= 1
    requires root.Some? ==> Scan.WalkConsistent(root.value)
    ensures WF(m) && m.state == ShowAllImages && m.cursor == 0 && m.scroll == 0
    ensures root.None? ==> m.images == []
    ensures forall k :: 0 <= k < |m.images| ==> !m.images[k].selected && (m.images[k].pathTV != "" || m.images[k].pathDRC != "")
  {
    var entries, order := Scan.ScanImagePairs(root);
    if root.Some? {
      Scan.ScanEntriesDistinct(root.value, entries, order);
    }
    m := Start(entries, pressedLevel);
  }

  predicate AnySelected(es: seq<Entry>) {
    exists k :: 0 <= k < |es| && es[k].selected
  }

  /** The back (B) corner-button callback: back to the grid, every selection dropped. */
  function Back(m: Menu): (m': Menu)
    ensures m'.state == ShowAllImages
    ensures |m'.images| == |m.images|
    ensures forall k :: 0 <= k < |m.images| ==>
      && !m'.images[k].selected
      && m'.images[k] == m.images[k].(selected := false)
    ensures m'.(state := m.state, images := m.images) == m
  {
    var images := if AnySelected(m.images) then
      seq(|m.images|, k requires 0 <= k < |m.images| => m.images[k].(selected := false))
    else m.images;
    m.(state := ShowAllImages, images := images)
  }

  /** The select/delete (X) corner-button callback. */
  function Select(m: Menu): (m': Menu)
    ensures |m.images| == 0 ==> m' == m
    ensures |m.images| > 0 && m.state == ShowAllImages ==> m' == m.(state := SelectImagesDelete)
    ensures |m.images| > 0 && m.state == SelectImagesDelete ==> m' == m.(deleteRequested := true)
    ensures m.state == ShowSingleImage ==> m' == m
    ensures m'.images == m.images && m'.cursor == m.cursor && m'.scroll == m.scroll
  {
    if |m.images| == 0 then m
    else if m.state == ShowAllImages then m.(state := SelectImagesDelete)
    else if m.state == SelectImagesDelete then m.(deleteRequested := true)
    else m
  }

  /** Controller button A: toggle the cursor entry in the delete selection,
      or open it in the single-image viewer. */
  function PressA(m: Menu): (m': Menu)
    requires CursorInRange(m) && ImagePairScreen.Valid(m.screen)
    ensures |m.images| == 0 || m.state == ShowSingleImage ==> m' == m
    ensures |m'.images| == |m.images| && m'.cursor == m.cursor && m'.scroll == m.scroll
    ensures forall k :: 0 <= k < |m.images| && k != m.cursor ==> m'.images[k] == m.images[k]
    ensures |m.images| > 0 && m.state == SelectImagesDelete ==>
      && m'.state == SelectImagesDelete
      && m'.images[m.cursor].selected == !m.images[m.cursor].selected
      && m'.images[m.cursor].(selected := m.images[m.cursor].selected) == m.images[m.cursor]
    ensures |m.images| > 0 && m.state == ShowAllImages ==>
      && m'.state == ShowSingleImage && m'.images == m.images
      && m'.shown == m.cursor && m'.screen == ImagePairScreen.SetImagePair(m.screen)
  {
    if |m.images| == 0 then m
    else if m.state == SelectImagesDelete then
      var e := m.images[m.cursor];
      m.(images := m.images[m.cursor := e.(selected := !e.selected)])
    else if m.state == ShowAllImages then
      m.(state := ShowSingleImage, screen := ImagePairScreen.SetImagePair(m.screen), shown := m.cursor)
    else m
  }

  /** The D-pad-up scroll adjustment: scroll back by three rows, never past the top. */
  function ScrollUp(scroll: int): (r: int)
    ensures r <= 0
    ensures r == if scroll + MaxDragScroll < 0 then scroll + MaxDragScroll else 0
  {
    if scroll >= 0 then 0
    else
      var s := scroll + (GridSize - 1) * ScrollRow;
      if s > 0 then 0 else s
  }

  function PadUp(m: Menu): (m': Menu)
    requires CursorInRange(m)
    ensures m.state == ShowSingleImage || m.cursor < GridSize ==> m' == m
    ensures m.state != ShowSingleImage && m.cursor >= GridSize ==>
      && m'.cursor == m.cursor - GridSize
      && (m'.scroll == m.scroll || m'.scroll == ScrollUp(m.scroll))
      && (m.cursor < 2 * GridSize ==> m'.scroll == ScrollUp(m.scroll))
    ensures m'.(cursor := m.cursor, scroll := m.scroll) == m
    ensures CursorInRange(m')
  {
    if m.state != ShowSingleImage && m.cursor >= GridSize then
      var c := m.cursor - GridSize;
      if IsFirstRow(c) || !IsImageVisible(m.images[c], m.scroll, true) then
        m.(cursor := c, scroll := ScrollUp(m.scroll))
      else m.(cursor := c)
    else m
  }

  /** The top edge of the view that shows the last row: one row above it
      (`lastVisibleRow` = `lastRow - 1`, or 0 for a one-row album). */
  function LastRowTop(n: int): (r: int)
    requires 1 <= n < 0x8000_0000
    ensures r <= 0
    ensures r == -(if (n - 1) / GridSize >= 1 then (n - 1) / GridSize - 1 else 0) * ScrollRow
  {
    var lastRow := IntOfSizeT(SizeT(n - 1) / GridSize);
    assert lastRow == (n - 1) / GridSize;
    var lastVisibleRow := CDiv(lastRow * GridSize - 1, GridSize);
    assert lastVisibleRow == if lastRow >= 1 then lastRow - 1 else 0;
    -lastVisibleRow * ScrollRow
  }

  /** The D-pad-down scroll adjustment as written: one pitch, then three more
      rows unless that already reached the last row's view. */
  function ScrollDown(scroll: int, n: int): (r: int)
    requires 1 <= n < 0x8000_0000
    ensures r == if scroll - CellPitch - MaxDragScroll > LastRowTop(n) then scroll - CellPitch - MaxDragScroll else LastRowTop(n)
    ensures scroll <= 0 ==> r <= 0
  {
    var lastRowTop := LastRowTop(n);
    var s := scroll - CellPitch;
    if s <= lastRowTop then lastRowTop
    else
      var s' := s - (GridSize - 1) * ScrollRow;
      if s' < lastRowTop then lastRowTop else s'
  }

  function PadDown(m: Menu): (m': Menu)
    requires CursorInRange(m) && |m.images| < 0x8000_0000
    ensures m.state == ShowSingleImage || m.cursor >= |m.images| - GridSize ==> m' == m
    ensures m.state != ShowSingleImage && m.cursor < |m.images| - GridSize ==>
      && m'.cursor == m.cursor + GridSize
      && (m'.scroll == m.scroll || m'.scroll == ScrollDown(m.scroll, |m.images|))
      && (IsLastRow(m'.cursor, |m.images|) ==> m'.scroll == ScrollDown(m.scroll, |m.images|))
    ensures m'.(cursor := m.cursor, scroll := m.scroll) == m
    ensures CursorInRange(m')
  {
    if m.state != ShowSingleImage && m.cursor < |m.images| - GridSize then
      var c := m.cursor + GridSize;
      if IsLastRow(c, |m.images|) || !IsImageVisible(m.images[c], m.scroll, true) then
        m.(cursor := c, scroll := ScrollDown(m.scroll, |m.images|))
      else m.(cursor := c)
    else m
  }

  function PadLeft(m: Menu): (m': Menu)
    requires CursorInRange(m)
    ensures m.state == ShowSingleImage || m.cursor % GridSize == 0 ==> m' == m
    ensures m.state != ShowSingleImage && m.cursor % GridSize != 0 ==> m' == m.(cursor := m.cursor - 1)
    ensures m'.cursor / GridSize == m.cursor / GridSize
    ensures CursorInRange(m')
  {
    if m.state != ShowSingleImage && CMod(m.cursor, GridSize) != 0 then m.(cursor := m.cursor - 1)
    else m
  }

  function PadRight(m: Menu): (m': Menu)
    requires CursorInRange(m)
    ensures m.state == ShowSingleImage || m.cursor % GridSize == GridSize - 1 || m.cursor + 1 >= |m.images| ==> m' == m
    ensures m.state != ShowSingleImage && m.cursor % GridSize != GridSize - 1 && m.cursor + 1 < |m.images| ==>
      m' == m.(cursor := m.cursor + 1)
    ensures m'.cursor / GridSize == m.cursor / GridSize
    ensures CursorInRange(m')
  {
    if m.state != ShowSingleImage && CMod(m.cursor, GridSize) != GridSize - 1 && m.cursor < |m.images| - 1 then
      m.(cursor := m.cursor + 1)
    else m
  }

  /** The drag's scroll clamp: the offset stays within three rows of the top. */
  function DragScroll(scroll: int, delta: int): (r: int)
    ensures -MaxDragScroll <= r <= 0
    ensures -MaxDragScroll <= scroll + delta <= 0 ==> r == scroll + delta
    ensures scroll + delta > 0 ==> r == 0
    ensures scroll + delta < -MaxDragScroll ==> r == -MaxDragScroll
  {
    var s := scroll + delta;
    if s > 0 then 0 else if s < -MaxDragScroll then -MaxDragScroll else s
  }

  /** The row the drag moves the cursor to: the anchor's row shifted by the
      rows scrolled, kept within [0, lastRow] (`lastRow` computed in 32-bit
      `size_t`), plus the anchor's column. */
  function DragTarget(n: int, anchorIndex: int, scroll: int): int
    requires 0 <= n < 0x8000_0000
  {
    var rowsScrolled := CDiv(if scroll < 0 then -scroll else scroll, ScrollRow);
    var row0 := CDiv(anchorIndex, GridSize);
    var row := if scroll > 0 then row0 - rowsScrolled else if scroll < 0 then row0 + rowsScrolled - 1 else row0;
    var lastRow := IntOfSizeT(SizeT(n - 1) / GridSize);
    var clampedRow := Max(0, Min(row, lastRow));
    clampedRow * GridSize + CMod(anchorIndex, GridSize)
  }

  function Min(a: int, b: int): int { if a <= b then a else b }
  function Max(a: int, b: int): int { if a >= b then a else b }

  /** `std::clamp(v, lo, hi)` in libstdc++'s `min(max(v, lo), hi)` form; the
      standard leaves `hi < lo` undefined. */
  function Clamp(v: int, lo: int, hi: int): (r: int)
    ensures lo <= hi ==> lo <= r <= hi
    ensures lo <= v <= hi ==> r == v
  {
    Min(Max(v, lo), hi)
  }

  /** The drag step as written: the cursor is clamped to [0, n - 1], an empty
      range on an empty album. */
  function DragAsWritten(m: Menu, y: int): (m': Menu)
    requires |m.images| < 0x8000_0000
    ensures m.dragAnchorY == -1 || !m.cameraScrolling ==> m' == m
    ensures m.dragAnchorY != -1 && m.cameraScrolling ==>
      && -MaxDragScroll <= m'.scroll <= 0 && m'.dragAnchorY == y
      && (|m.images| > 0 ==> 0 <= m'.cursor < |m.images|)
  {
    if m.dragAnchorY != -1 && m.cameraScrolling then
      var scroll := DragScroll(m.scroll, y - m.dragAnchorY);
      var cursor := Clamp(DragTarget(|m.images|, m.dragAnchorIndex, scroll), 0, |m.images| - 1);
      m.(scroll := scroll, cursor := cursor, dragAnchorY := y)
    else m
  }

  /** On an empty album a drag from an anchor at a real index sets the cursor to -1. */
  lemma DragAsWrittenEmptyAlbum(m: Menu, y: int)
    requires |m.images| == 0 && m.dragAnchorY != -1 && m.cameraScrolling && m.dragAnchorIndex >= 0
    ensures DragAsWritten(m, y).cursor == -1
    ensures !CursorInRange(DragAsWritten(m, y))
  {
    var scroll := DragScroll(m.scroll, y - m.dragAnchorY);
    var v := DragTarget(0, m.dragAnchorIndex, scroll);
    assert v >= 0;
  }

  /** The concrete run: a freshly started empty album, a finger put down at
      y = 500 (anchoring index 0), then moved to y = 400. */
  lemma DragAsWrittenCounterexample(pressedLevel: int)
    requires pressedLevel >= 1
    ensures var m := Start([], pressedLevel).(dragAnchorY := 500, cameraScrolling := true);
      WF(m) && !CursorInRange(DragAsWritten(m, 400))
  {
    var m := Start([], pressedLevel).(dragAnchorY := 500, cameraScrolling := true);
    DragAsWrittenEmptyAlbum(m, 400);
  }

  /** The drag step with the cursor's upper bound kept at 0 on an empty album. */
  function Drag(m: Menu, y: int): (m': Menu)
    requires |m.images| < 0x8000_0000
    ensures m.dragAnchorY == -1 || !m.cameraScrolling ==> m' == m
    ensures m.dragAnchorY != -1 && m.cameraScrolling ==>
      && -MaxDragScroll <= m'.scroll <= 0 && m'.dragAnchorY == y
      && m'.scroll == DragScroll(m.scroll, y - m.dragAnchorY)
      && CursorInRange(m')
    ensures m'.(cursor := m.cursor, scroll := m.scroll, dragAnchorY := m.dragAnchorY) == m
  {
    if m.dragAnchorY != -1 && m.cameraScrolling then
      var scroll := DragScroll(m.scroll, y - m.dragAnchorY);
      var cursor := Clamp(DragTarget(|m.images|, m.dragAnchorIndex, scroll), 0, Max(0, |m.images| - 1));
      m.(scroll := scroll, cursor := cursor, dragAnchorY := y)
    else m
  }

  /** Wherever the as-written clamp has a non-empty range, the two drag steps agree. */
  lemma DragAgreesOnNonEmptyAlbum(m: Menu, y: int)
    requires 0 < |m.images| < 0x8000_0000
    ensures Drag(m, y) == DragAsWritten(m, y)
  {
  }

  // ----- Confirmed delete -----

  /** `std::find` by path equality, then `erase`: drop the first entry equal to `r`. */
  function EraseFirst(es: seq<Entry>, r: Entry): (es': seq<Entry>)
    ensures (exists j :: 0 <= j < |es| && SamePaths(es[j], r)) ==> |es'| == |es| - 1
    ensures (forall j :: 0 <= j < |es| ==> !SamePaths(es[j], r)) ==> es' == es
  {
    if |es| == 0 then []
    else if SamePaths(es[0], r) then es[1..]
    else [es[0]] + EraseFirst(es[1..], r)
  }

  /** `erase` removes exactly the first entry whose paths match, keeping the
      order of everything around it. */
  lemma {:induction false} EraseFirstRemovesFirstMatch(es: seq<Entry>, r: Entry, j: int)
    requires 0 <= j < |es| && SamePaths(es[j], r)
    requires forall i :: 0 <= i < j ==> !SamePaths(es[i], r)
    ensures EraseFirst(es, r) == es[..j] + es[j + 1..]
  {
    if j > 0 {
      var t := es[1..];
      assert !SamePaths(es[0], r);
      assert forall i :: 0 <= i < j - 1 ==> !SamePaths(t[i], r) by {
        forall i | 0 <= i < j - 1 ensures !SamePaths(t[i], r) {
          assert t[i] == es[i + 1];
        }
      }
      assert t[j - 1] == es[j];
      EraseFirstRemovesFirstMatch(t, r, j - 1);
      assert es[..j] + es[j + 1..] == [es[0]] + (t[..j - 1] + t[j..]);
    }
  }

  /** The erase loop over the copies in `removedImages`, in order. */
  function EraseAll(es: seq<Entry>, rs: seq<Entry>): seq<Entry>
    decreases |rs|
  {
    if |rs| == 0 then es else EraseAll(EraseFirst(es, rs[0]), rs[1..])
  }

  /** The selected entries, in order: the copies pushed into `removedImages`. */
  function Selected(es: seq<Entry>): (s: seq<Entry>)
    ensures forall x :: x in s ==> x in es && x.selected
    ensures forall k :: 0 <= k < |es| && es[k].selected ==> es[k] in s
  {
    if |es| == 0 then [] else (if es[0].selected then [es[0]] else []) + Selected(es[1..])
  }

  /** The unselected entries, in order: the reference for what a delete keeps. */
  function Kept(es: seq<Entry>): (s: seq<Entry>)
    ensures forall x :: x in s ==> x in es && !x.selected
    ensures forall k :: 0 <= k < |es| && !es[k].selected ==> es[k] in s
  {
    if |es| == 0 then [] else (if es[0].selected then [] else [es[0]]) + Kept(es[1..])
  }

  /** The files the delete asks the filesystem to remove: each selected
      entry's non-empty paths, TV before DRC. */
  function RemovedPaths(es: seq<Entry>): seq<string> {
    if |es| == 0 then []
    else
      var e := es[0];
      var own := if e.selected then
        (if e.pathTV != "" then [e.pathTV] else []) + (if e.pathDRC != "" then [e.pathDRC] else [])
      else [];
      own + RemovedPaths(es[1..])
  }

  lemma {:induction false} RemovedPathsExactly(es: seq<Entry>, p: string)
    ensures p in RemovedPaths(es) <==>
      exists k :: 0 <= k < |es| && es[k].selected && p != "" && (p == es[k].pathTV || p == es[k].pathDRC)
  {
    if |es| > 0 {
      RemovedPathsExactly(es[1..], p);
      if p in RemovedPaths(es[1..]) {
        var k :| 0 <= k < |es[1..]| && es[1..][k].selected && p != "" && (p == es[1..][k].pathTV || p == es[1..][k].pathDRC);
        assert es[k + 1] == es[1..][k];
      }
      if exists k :: 0 <= k < |es| && es[k].selected && p != "" && (p == es[k].pathTV || p == es[k].pathDRC) {
        var k :| 0 <= k < |es| && es[k].selected && p != "" && (p == es[k].pathTV || p == es[k].pathDRC);
        if k > 0 {
          assert es[1..][k - 1] == es[k];
        }
      }
    }
  }

  /** No entry of `rs` matches `e`, so the erase loop walks past it. */
  lemma {:induction false} EraseAllPassesOver(e: Entry, t: seq<Entry>, rs: seq<Entry>)
    requires forall r :: r in rs ==> !SamePaths(e, r)
    ensures EraseAll([e] + t, rs) == [e] + EraseAll(t, rs)
    decreases |rs|
  {
    if |rs| > 0 {
      assert ([e] + t)[1..] == t;
      assert EraseFirst([e] + t, rs[0]) == [e] + EraseFirst(t, rs[0]);
      EraseAllPassesOver(e, EraseFirst(t, rs[0]), rs[1..]);
    }
  }

  /** With distinct paths, erasing the selected copies one by one leaves
      exactly the unselected entries, in their original order. */
  lemma {:induction false} EraseSelectedIsKept(es: seq<Entry>)
    requires PathsDistinct(es)
    ensures EraseAll(es, Selected(es)) == Kept(es)
  {
    if |es| > 0 {
      var e, t := es[0], es[1..];
      assert es == [e] + t;
      assert PathsDistinct(t) by {
        forall i, j | 0 <= i < j < |t| ensures !SamePaths(t[i], t[j]) {
          assert t[i] == es[i + 1] && t[j] == es[j + 1];
        }
      }
      EraseSelectedIsKept(t);
      assert forall r :: r in t ==> !SamePaths(e, r) by {
        forall r | r in t ensures !SamePaths(e, r) {
          var j :| 0 <= j < |t| && t[j] == r;
          assert es[j + 1] == r;
        }
      }
      if e.selected {
        assert Selected(es) == [e] + Selected(t);
        assert EraseFirst(es, e) == t;
        assert EraseAll(es, Selected(es)) == EraseAll(t, Selected(t));
      } else {
        assert Selected(es) == Selected(t);
        EraseAllPassesOver(e, t, Selected(t));
      }
    }
  }

  /** Two entries with the same paths where only the second is selected: the
      erase loop removes the first, unselected one. Distinct paths matter. */
  lemma EraseWithDuplicatePaths(a: Entry)
    ensures var es := [a.(selected := false), a.(selected := true)];
      EraseAll(es, Selected(es)) == [a.(selected := true)] != Kept(es)
  {
    var es := [a.(selected := false), a.(selected := true)];
    assert es[1..] == [a.(selected := true)] && es[1..][1..] == [];
    assert Selected(es[1..]) == [a.(selected := true)];
    assert Kept(es[1..]) == [];
    assert Selected(es) == [a.(selected := true)];
    assert Kept(es) == [a.(selected := false)];
    assert EraseFirst(es, a.(selected := true)) == es[1..];
  }

  lemma {:induction false} KeptDistinct(es: seq<Entry>)
    requires PathsDistinct(es)
    ensures PathsDistinct(Kept(es))
  {
    if |es| > 0 {
      var e, t := es[0], es[1..];
      DistinctTail(es);
      KeptDistinct(t);
      if !e.selected {
        assert Kept(es) == [e] + Kept(t);
        DistinctCons(e, Kept(t));
      }
    }
  }

  /** A distinct album's tail is distinct, and its head matches nothing in it. */
  lemma DistinctTail(es: seq<Entry>)
    requires |es| > 0 && PathsDistinct(es)
    ensures PathsDistinct(es[1..])
    ensures forall x :: x in es[1..] ==> !SamePaths(es[0], x)
  {
    var t := es[1..];
    forall i, j | 0 <= i < j < |t| ensures !SamePaths(t[i], t[j]) {
      assert t[i] == es[i + 1] && t[j] == es[j + 1];
    }
    forall jj | 0 <= jj < |t| ensures !SamePaths(es[0], t[jj]) {
      assert t[jj] == es[jj + 1];
    }
  }

  /** Putting an entry in front of a distinct list keeps it distinct when
      nothing in the list shares its paths. */
  lemma DistinctCons(e: Entry, k: seq<Entry>)
    requires PathsDistinct(k) && forall x :: x in k ==> !SamePaths(e, x)
    ensures PathsDistinct([e] + k)
  {
    forall i, j | 0 <= i < j < |[e] + k| ensures !SamePaths(([e] + k)[i], ([e] + k)[j]) {
      if i == 0 {
        assert ([e] + k)[j] == k[j - 1];
      } else {
        assert ([e] + k)[i] == k[i - 1] && ([e] + k)[j] == k[j - 1];
      }
    }
  }

  lemma RelayoutKeepsDistinct(es: seq<Entry>)
    requires PathsDistinct(es)
    ensures PathsDistinct(Relayout(es))
  {
    var r := Relayout(es);
    forall i, j | 0 <= i < j < |r| ensures !SamePaths(r[i], r[j]) {
      assert SamePaths(r[i], r[j]) == SamePaths(es[i], es[j]);
    }
  }

  datatype Deletion = Deletion(menu: Menu, removedPaths: seq<string>)

  /** The end-of-events delete step as written, `confirmed` being the
      dialog's answer: the selected copies are erased one by one by path
      equality, their files are removed, and the survivors are re-laid out. */
  function DeleteAsWritten(m: Menu, confirmed: bool): (d: Deletion)
    ensures !m.deleteRequested || !confirmed ==> d == Deletion(m.(deleteRequested := false), [])
    ensures m.deleteRequested && confirmed ==> d.menu.state == ShowAllImages && !d.menu.deleteRequested
    ensures m.deleteRequested && confirmed && !AnySelected(m.images) ==>
      d == Deletion(m.(state := ShowAllImages, deleteRequested := false), [])
  {
    if m.deleteRequested && confirmed then
      if AnySelected(m.images) then
        var survivors := Relayout(EraseAll(m.images, Selected(m.images)));
        Deletion(m.(images := survivors, cursor := 0, state := ShowAllImages, deleteRequested := false),
                 RemovedPaths(m.images))
      else Deletion(m.(state := ShowAllImages, deleteRequested := false), [])
    else Deletion(m.(deleteRequested := false), [])
  }

  /** A confirmed delete of a well-formed menu with a selection keeps exactly
      the unselected entries, in order and densely re-laid out, resets the
      cursor to 0 and shows the grid. */
  lemma DeleteKeepsExactlyUnselected(m: Menu)
    requires WF(m) && m.deleteRequested && AnySelected(m.images)
    ensures DeleteAsWritten(m, true).menu.images == Relayout(Kept(m.images))
    ensures DeleteAsWritten(m, true).menu.cursor == 0
  {
    EraseSelectedIsKept(m.images);
  }

  /** The files a confirmed delete removes are exactly the non-empty paths of
      the selected entries. */
  lemma DeleteRemovesSelectedPaths(m: Menu, p: string)
    requires m.deleteRequested && AnySelected(m.images)
    ensures p in DeleteAsWritten(m, true).removedPaths <==>
      exists k :: 0 <= k < |m.images| && m.images[k].selected && p != "" && (p == m.images[k].pathTV || p == m.images[k].pathDRC)
  {
    RemovedPathsExactly(m.images, p);
  }

  // ----- The whole machine -----

  datatype Action =
    | PadUpPressed | PadDownPressed | PadLeftPressed | PadRightPressed
    | APressed
    | BackClicked
    | SelectClicked
    | Dragged(y: int)
    /** The end of a frame's events, with the confirmation dialog's answer. */
    | FrameEnd(confirmed: bool)
    /** A frame of the single-image viewer. */
    | Rendered
    /** An input event, which the viewer also receives while it is shown. */
    | ViewerEvent(e: ButtonWidget.Event)

  function Step(m: Menu, a: Action): (m': Menu)
    requires WF(m) && |m.images| < 0x8000_0000
    ensures |m'.images| <= |m.images|
  {
    match a
    case PadUpPressed => PadUp(m)
    case PadDownPressed => PadDown(m)
    case PadLeftPressed => PadLeft(m)
    case PadRightPressed => PadRight(m)
    case APressed => PressA(m)
    case BackClicked => Back(m)
    case SelectClicked => Select(m)
    case Dragged(y) => Drag(m, y)
    case FrameEnd(confirmed) => DeleteFrame(m, confirmed)
    case Rendered =>
      if m.state == ShowSingleImage && 0 <= m.cursor < |m.images| then
        m.(screen := ImagePairScreen.Render(m.screen))
      else m
    case ViewerEvent(e) =>
      if m.state == ShowSingleImage then m.(screen := ImagePairScreen.HandleEvent(m.screen, e)) else m
  }

  /** The machine as written: the same steps, but drags take the as-written
      clamp. It differs from `Step` only on a drag over an empty album. */
  function StepAsWritten(m: Menu, a: Action): (m': Menu)
    requires WF(m) && |m.images| < 0x8000_0000
    ensures |m.images| > 0 || !a.Dragged? ==> m' == Step(m, a)
  {
    match a
    case Dragged(y) =>
      if |m.images| > 0 then DragAgreesOnNonEmptyAlbum(m, y); DragAsWritten(m, y) else DragAsWritten(m, y)
    case _ => Step(m, a)
  }

  /** The as-written machine keeps the menu well formed on any non-empty album;
      on an empty one a drag breaks the cursor bound (`DragAsWrittenCounterexample`). */
  lemma StepAsWrittenPreservesWF(m: Menu, a: Action)
    requires WF(m) && 0 < |m.images| < 0x8000_0000
    ensures WF(StepAsWritten(m, a))
  {
    StepPreservesWF(m, a);
  }

  /** The delete step the machine uses, with its size bound. */
  function DeleteFrame(m: Menu, confirmed: bool): (m': Menu)
    requires WF(m)
    ensures |m'.images| <= |m.images|
    ensures WF(m')
  {
    KeptDistinct(m.images);
    RelayoutKeepsDistinct(Kept(m.images));
    KeptSelectedPartition(m.images);
    if m.deleteRequested && confirmed && AnySelected(m.images) then
      DeleteKeepsExactlyUnselected(m);
      DeleteAsWritten(m, confirmed).menu
    else DeleteAsWritten(m, confirmed).menu
  }

  /** The kept and the selected entries split the album: together they are
      exactly its entries, so a delete never lengthens it. */
  lemma {:induction false} KeptSelectedPartition(es: seq<Entry>)
    ensures multiset(Kept(es)) + multiset(Selected(es)) == multiset(es)
    ensures |Kept(es)| + |Selected(es)| == |es|
  {
    if |es| > 0 {
      KeptSelectedPartition(es[1..]);
      assert es == [es[0]] + es[1..];
    }
  }

  /** Every step of the machine (with the corrected drag) keeps the menu well formed. */
  lemma StepPreservesWF(m: Menu, a: Action)
    requires WF(m) && |m.images| < 0x8000_0000
    ensures WF(Step(m, a))
  {
    match a
    case APressed =>
      var m' := PressA(m);
      forall i, j | 0 <= i < j < |m'.images| ensures !SamePaths(m'.images[i], m'.images[j]) {
        assert SamePaths(m'.images[i], m'.images[j]) == SamePaths(m.images[i], m.images[j]);
      }
    case BackClicked =>
      var m' := Back(m);
      forall i, j | 0 <= i < j < |m'.images| ensures !SamePaths(m'.images[i], m'.images[j]) {
        assert SamePaths(m'.images[i], m'.images[j]) == SamePaths(m.images[i], m.images[j]);
      }
    case _ =>
  }
}
