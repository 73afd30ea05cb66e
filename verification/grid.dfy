/**
 The album grid of src/main.cpp: the layout constants as the macros expand,
 the entry record (`ImagesPair` without its textures), the row-major cell
 formula, and the rectangle and visibility tests the main loop uses.
 */
module Grid {
  import opened CArith

  const ScreenWidth: int := 1920
  const ScreenHeight: int := 1080
  const GridSize: int := 4
  /** `IMAGE_WIDTH`, `IMAGE_HEIGHT`, `SEPARATION` as the preprocessor expands them. */
  const ImageWidth: int := ScreenWidth / GridSize / 2
  const ImageHeight: int := ScreenHeight / GridSize / 2
  const Separation: int := ImageWidth / 4
  /** `IMAGE_WIDTH + SEPARATION`: the cell pitch, used for x AND for y. */
  const CellPitch: int := ImageWidth + Separation
  /** `IMAGE_HEIGHT + SEPARATION`: the row unit of the scroll arithmetic. */
  const ScrollRow: int := ImageHeight + Separation
  /** `(GRID_SIZE - 1) * (IMAGE_HEIGHT + SEPARATION)`: the drag scroll bound. */
  const MaxDragScroll: int := (GridSize - 1) * ScrollRow
  const TotalWidth: int := GridSize * CellPitch - Separation
  const TotalHeight: int := GridSize * CellPitch - Separation
  const OffsetX: int := CDiv(ScreenWidth - TotalWidth, 2)
  const OffsetY: int := CDiv(ScreenHeight - TotalHeight, 2)
  /** Height of the header texture's rectangle. */
  const HeaderHeight: int := 256

  lemma ConstantValues()
    ensures ImageWidth == 240 && ImageHeight == 135 && Separation == 60
    ensures CellPitch == 300 && ScrollRow == 195 && MaxDragScroll == 585
    ensures OffsetX == 390 && OffsetY == -30
  {
  }

  /** One screenshot pair; an empty path means that half is absent. */
  datatype Entry = Entry(pathTV: string, pathDRC: string, x: int, y: int, selected: bool)

  /** `ImagesPair::operator==`: only the two paths take part. */
  predicate SamePaths(a: Entry, b: Entry) {
    a.pathTV == b.pathTV && a.pathDRC == b.pathDRC
  }

  lemma SamePathsIgnoresLayoutAndSelection(a: Entry, b: Entry)
    ensures SamePaths(a, b) <==> (a.pathTV, a.pathDRC) == (b.pathTV, b.pathDRC)
    ensures SamePaths(a, b) ==> forall x: int, y: int, s: bool :: SamePaths(a.(x := x, y := y, selected := s), b)
  {
  }

  /** No two entries of `es` are equal under `operator==`. */
  predicate PathsDistinct(es: seq<Entry>) {
    forall i, j :: 0 <= i < j < |es| ==> !SamePaths(es[i], es[j])
  }

  /** Column and row of the k-th cell (row-major, `GRID_SIZE` columns). */
  function CellX(k: nat): int {
    OffsetX + (k % GridSize) * CellPitch
  }

  function CellY(k: nat): int {
    OffsetY + (k / GridSize) * CellPitch
  }

  /** Inverse of the cell formula: the index whose cell has origin (x, y). */
  function CellIndex(x: int, y: int): int {
    ((y - OffsetY) / CellPitch) * GridSize + (x - OffsetX) / CellPitch
  }

  /** The cell formula is a bijection onto its image: no two indices share a cell. */
  lemma CellRoundTrip(k: nat)
    ensures CellIndex(CellX(k), CellY(k)) == k
    ensures OffsetX <= CellX(k) <= OffsetX + (GridSize - 1) * CellPitch
  {
    var c, r := k % GridSize, k / GridSize;
    assert CellX(k) - OffsetX == c * CellPitch;
    assert CellY(k) - OffsetY == r * CellPitch;
    assert (c * CellPitch) / CellPitch == c;
    assert (r * CellPitch) / CellPitch == r;
  }

  lemma CellsDistinct(j: nat, k: nat)
    requires j != k
    ensures CellX(j) != CellX(k) || CellY(j) != CellY(k)
  {
    CellRoundTrip(j);
    CellRoundTrip(k);
  }

  /** Every entry sits at the cell of its own index. */
  predicate LaidOut(es: seq<Entry>) {
    forall k :: 0 <= k < |es| ==> es[k].x == CellX(k) && es[k].y == CellY(k)
  }

  /** The dense re-layout loop of the delete path: positions from indices, nothing else touched. */
  function Relayout(es: seq<Entry>): (r: seq<Entry>)
    ensures |r| == |es| && LaidOut(r)
    ensures forall k :: 0 <= k < |es| ==>
      r[k].pathTV == es[k].pathTV && r[k].pathDRC == es[k].pathDRC && r[k].selected == es[k].selected
  {
    seq(|es|, k requires 0 <= k < |es| => es[k].(x := CellX(k), y := CellY(k)))
  }

  /** Re-laying out a laid-out sequence changes nothing. */
  lemma RelayoutFixesLaidOut(es: seq<Entry>)
    requires LaidOut(es)
    ensures Relayout(es) == es
  {
    var r := Relayout(es);
    forall k | 0 <= k < |es| ensures r[k] == es[k] {
    }
  }

  /** Re-layout commutes with taking a prefix: a cell depends only on the index. */
  lemma RelayoutPrefix(es: seq<Entry>, n: nat)
    requires n <= |es|
    ensures Relayout(es)[..n] == Relayout(es[..n])
  {
  }

  /** `isPointInsideRect`: a CLOSED rectangle, both far edges included. */
  predicate InsideRectClosed(px: int, py: int, rx: int, ry: int, w: int, h: int) {
    px >= rx && px <= rx + w && py >= ry && py <= ry + h
  }

  /** `isFirstRow`. */
  function IsFirstRow(index: int): (r: bool)
    ensures index >= 0 ==> (r <==> index / GridSize == 0)
  {
    index < GridSize
  }

  /** `isLastRow`, with the source's truncating division. */
  function IsLastRow(index: int, count: int): (r: bool)
    requires count >= 1
    ensures 0 <= index < count ==> (r <==> index / GridSize == (count - 1) / GridSize)
  {
    var lastRow := CDiv(count - 1, GridSize);
    index >= lastRow * GridSize
  }

  /** `isImageVisible`: vertical overlap of the entry's on-screen box with the
      screen below half the header (or below the whole header when `fully`). */
  function IsImageVisible(e: Entry, scroll: int, fully: bool): (r: bool)
    ensures r <==> (if fully then HeaderHeight else HeaderHeight / 2) - 202 <= HeaderHeight + e.y + scroll <= ScreenHeight
  {
    var top := HeaderHeight + e.y + scroll;
    var bottom := top + ImageHeight + ImageHeight / 2;
    var screenTop := if fully then HeaderHeight / 2 * 2 else HeaderHeight / 2;
    bottom >= screenTop && top <= ScreenHeight
  }
}
