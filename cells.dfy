/**
 * The `Cells` component's `render`: a `row` x `col` grid of equally sized
 * cells separated by a gap of `padding`, filling a `width` x `height`
 * container, with the first content items laid over the first cells.
 *
 * Sizes are ideal reals, not IEEE doubles.  The component's list of React
 * elements is a local list that render pushes to and then overwrites by
 * index; nothing else refers to it, so it is modelled as a `seq` value.
 */
module Cells {
  import opened Decimal

  /** The properties `render` reads (their defaults are `DefaultProps`). */
  datatype Props = Props(width: real, height: real, row: nat, col: nat, padding: real)

  /** The property controls let rows and columns step from 1 to 25. */
  predicate ValidProps(p: Props) {
    p.row >= 1 && p.col >= 1
  }

  /** The component's `defaultProps`. */
  function DefaultProps(): Props {
    Props(300.0, 300.0, 2, 2, 15.0)
  }

  /** A React key: `"c:r"` for the cell of column `c` and row `r`, `"i"` for content item `i`. */
  datatype Key = CellKey(c: nat, r: nat) | ItemKey(i: nat)

  /** The text of a key, as the template literals write it. */
  function KeyText(k: Key): string {
    match k
    case CellKey(c, r) => NatToString(c) + ":" + NatToString(r)
    case ItemKey(i) => NatToString(i)
  }

  /**
   * One entry of the rendered list: a plain cell at `(x, y)`, or content item
   * `item` placed at `(x, y)`.
   */
  datatype Cell =
    | Plain(x: real, y: real, key: Key)
    | Content(item: nat, x: real, y: real, key: Key)

  // ---------------------------------------------------------------- geometry

  /** The size of one of `count` cells along an axis of length `extent`, with gaps of `padding`. */
  function CellSize(extent: real, count: nat, padding: real): real
    requires count >= 1
  {
    var s := extent / count as real;
    s - padding * (count - 1) as real / count as real
  }

  /** The `count` cells and the `count - 1` gaps between them exactly span the axis. */
  lemma CellsSpanAxis(extent: real, count: nat, padding: real)
    requires count >= 1
    ensures count as real * CellSize(extent, count, padding) + (count - 1) as real * padding == extent
  {
    var n := count as real;
    var s := extent / n;
    assert n * s == extent;
    assert n * (padding * (n - 1.0) / n) == padding * (n - 1.0);
  }

  /**
   * What render derives from its properties before it builds the list: the
   * grid's shape, the size of one cell and the gap.
   */
  datatype Layout = Layout(row: nat, col: nat, cellWidth: real, cellHeight: real, padding: real)

  predicate ValidLayout(l: Layout) {
    l.row >= 1 && l.col >= 1
  }

  /** The layout render computes from its properties. */
  function LayoutOf(p: Props): (l: Layout)
    requires ValidProps(p)
    ensures ValidLayout(l) && l.row == p.row && l.col == p.col && l.padding == p.padding
  {
    Layout(p.row, p.col, CellSize(p.width, p.col, p.padding), CellSize(p.height, p.row, p.padding), p.padding)
  }

  /** With `n` cells of size `s` and gaps `g` spanning `extent`: the step from cell to cell, and the last cell's far edge. */
  lemma StepOfSpan(n: nat, s: real, g: real, extent: real)
    requires n >= 1 && n as real * s + (n - 1) as real * g == extent
    ensures n as real * (s + g) == extent + g
    ensures s + g > 0.0 <==> extent + g > 0.0
    ensures (n - 1) as real * (s + g) + s == extent
  {
    var m := n as real;
    assert m * (s + g) == m * s + (m - 1.0) * g + g;
    assert (m - 1.0) * (s + g) + s == m * s + (m - 1.0) * g;
  }

  /**
   * A cell and its gap together take the container's extent plus one gap,
   * shared out over the cells; so they take room exactly when the extent
   * plus one gap is positive.
   */
  lemma LayoutSteps(p: Props)
    requires ValidProps(p)
    ensures p.col as real * (LayoutOf(p).cellWidth + p.padding) == p.width + p.padding
    ensures p.row as real * (LayoutOf(p).cellHeight + p.padding) == p.height + p.padding
    ensures LayoutOf(p).cellWidth + p.padding > 0.0 <==> p.width + p.padding > 0.0
    ensures LayoutOf(p).cellHeight + p.padding > 0.0 <==> p.height + p.padding > 0.0
  {
    var l := LayoutOf(p);
    CellsSpanAxis(p.width, p.col, p.padding);
    CellsSpanAxis(p.height, p.row, p.padding);
    StepOfSpan(p.col, l.cellWidth, p.padding, p.width);
    StepOfSpan(p.row, l.cellHeight, p.padding, p.height);
  }

  // -------------------------------------------------------- the plain grid

  /** The plain cell in row `r` and column `c`. */
  function PlainCell(l: Layout, r: nat, c: nat): Cell {
    Plain(c as real * (l.cellWidth + l.padding), r as real * (l.cellHeight + l.padding), CellKey(c, r))
  }

  /** Row `r` of the grid, left to right. */
  function Row(l: Layout, r: nat): (s: seq<Cell>)
    ensures |s| == l.col
  {
    seq(l.col, c requires 0 <= c < l.col => PlainCell(l, r, c))
  }

  /** The first `n` rows of the grid, top row first. */
  function Rows(l: Layout, n: nat): (g: seq<Cell>)
    ensures |g| == n * l.col
  {
    if n == 0 then [] else Rows(l, n - 1) + Row(l, n - 1)
  }

  /** The list render builds before any content is placed: all `row` rows. */
  function Grid(l: Layout): (g: seq<Cell>)
    ensures |g| == l.row * l.col
  {
    Rows(l, l.row)
  }

  /** `d` whole rows of `col` cells hold at least one row. */
  lemma MulAtLeast(d: int, col: int)
    requires d >= 1 && col > 0
    ensures d * col >= col
  {
    assert d * col == (d - 1) * col + col;
    assert (d - 1) * col >= 0;
  }

  /** Euclidean division by `col` has one quotient and one remainder. */
  lemma DivModUnique(k: int, col: int, q: int, m: int)
    requires col > 0 && 0 <= m < col && k == q * col + m
    ensures k / col == q && k % col == m
  {
    var q', m' := k / col, k % col;
    assert k == q' * col + m' && 0 <= m' < col;
    assert (q' - q) * col == q' * col - q * col;
    if q' > q {
      MulAtLeast(q' - q, col);
    } else if q' < q {
      assert (q - q') * col == q * col - q' * col;
      MulAtLeast(q - q', col);
    }
  }

  /** Two different indices differ in their row or in their column. */
  lemma DivModDistinct(i: int, j: int, col: int)
    requires col > 0 && i != j
    ensures i / col != j / col || i % col != j % col
  {
    assert i == (i / col) * col + i % col;
    assert j == (j / col) * col + j % col;
  }

  /** Row-major positions: `r * col + c` stands for row `r`, column `c`, and lies in the grid. */
  lemma RowMajor(r: nat, c: nat, row: nat, col: nat)
    requires r < row && c < col
    ensures r * col + c < row * col
    ensures (r * col + c) / col == r && (r * col + c) % col == c
  {
    assert row * col == (r + 1) * col + (row - r - 1) * col;
    assert (row - r - 1) * col >= 0;
    DivModUnique(r * col + c, col, r, c);
  }

  /** Entry `r * col + c` of the first `n` rows is the cell of column `c` in row `r`. */
  lemma {:induction false} RowsAt(l: Layout, n: nat, r: nat, c: nat)
    requires r < n && c < l.col
    ensures r * l.col + c < |Rows(l, n)|
    ensures Rows(l, n)[r * l.col + c] == PlainCell(l, r, c)
  {
    RowMajor(r, c, n, l.col);
    if r < n - 1 {
      RowsAt(l, n - 1, r, c);
    } else {
      assert Rows(l, n)[r * l.col + c] == Row(l, r)[c];
    }
  }

  /**
   * Entry `r * col + c` of the grid is the plain cell of column `c` in row
   * `r`: at `x = c * (cellWidth + padding)`, `y = r * (cellHeight + padding)`,
   * keyed `"c:r"`.
   */
  lemma GridAt(l: Layout, r: nat, c: nat)
    requires r < l.row && c < l.col
    ensures r * l.col + c < |Grid(l)|
    ensures Grid(l)[r * l.col + c] ==
      Plain(c as real * (l.cellWidth + l.padding), r as real * (l.cellHeight + l.padding), CellKey(c, r))
  {
    RowsAt(l, l.row, r, c);
  }

  /** Every entry of the grid sits in the row and column its index spells out. */
  lemma GridIndex(l: Layout, k: nat)
    requires k < |Grid(l)|
    ensures l.col > 0 && Grid(l)[k] == PlainCell(l, k / l.col, k % l.col)
  {
    var col := l.col;
    assert col > 0;
    var r, c := k / col, k % col;
    assert k == r * col + c;
    RowsAt(l, l.row, r, c);
  }

  /** Different keys have different texts: a cell key holds a colon, an item key is all digits. */
  lemma {:induction false} KeyTextInjective(k1: Key, k2: Key)
    ensures KeyText(k1) == KeyText(k2) <==> k1 == k2
  {
    match (k1, k2)
    case (CellKey(c1, r1), CellKey(c2, r2)) =>
      if KeyText(k1) == KeyText(k2) {
        var t, s1, s2 := KeyText(k1), NatToString(c1), NatToString(c2);
        // the colon is the first character that is not a digit
        LeadingDigitsOfDigitsThen(s1, ":" + NatToString(r1));
        LeadingDigitsOfDigitsThen(s2, ":" + NatToString(r2));
        assert t == s1 + (":" + NatToString(r1)) == s2 + (":" + NatToString(r2));
        assert s1 == t[..|s1|] == s2;
        assert NatToString(r1) == t[|s1| + 1..] == NatToString(r2);
        NatToStringInjective(c1, c2);
        NatToStringInjective(r1, r2);
      }
    case (ItemKey(i1), ItemKey(i2)) =>
      NatToStringInjective(i1, i2);
    case (CellKey(c, r), ItemKey(i)) =>
      assert KeyText(k1)[|NatToString(c)|] == ':';
    case (ItemKey(i), CellKey(c, r)) =>
      assert KeyText(k2)[|NatToString(c)|] == ':';
  }

  /** No two cells of the grid share a key. */
  lemma GridKeysDistinct(l: Layout)
    ensures forall i, j :: 0 <= i < j < |Grid(l)| ==> Grid(l)[i].key != Grid(l)[j].key
  {
    var g, col := Grid(l), l.col;
    forall i, j | 0 <= i < j < |g|
      ensures g[i].key != g[j].key
    {
      GridIndex(l, i);
      GridIndex(l, j);
      DivModDistinct(i, j, col);
    }
  }

  /** A positive step taken more times reaches further. */
  lemma ScaleIncreasing(a: nat, b: nat, step: real)
    requires a < b && step > 0.0
    ensures a as real * step < b as real * step
  {
    assert b as real * step == a as real * step + (b - a) as real * step;
  }

  /** When a cell and its gap take up room, x grows from left to right along every row. */
  lemma RowIncreasing(l: Layout, r: nat, c1: nat, c2: nat)
    requires l.cellWidth + l.padding > 0.0
    requires r < l.row && c1 < c2 < l.col
    ensures r * l.col + c2 < |Grid(l)|
    ensures Grid(l)[r * l.col + c1].x < Grid(l)[r * l.col + c2].x
  {
    var step := l.cellWidth + l.padding;
    GridAt(l, r, c1);
    GridAt(l, r, c2);
    ScaleIncreasing(c1, c2, step);
    assert Grid(l)[r * l.col + c1].x == c1 as real * step;
    assert Grid(l)[r * l.col + c2].x == c2 as real * step;
  }

  /** When a cell and its gap take up room, y grows from top to bottom down every column. */
  lemma ColumnIncreasing(l: Layout, r1: nat, r2: nat, c: nat)
    requires l.cellHeight + l.padding > 0.0
    requires r1 < r2 < l.row && c < l.col
    ensures r2 * l.col + c < |Grid(l)|
    ensures Grid(l)[r1 * l.col + c].y < Grid(l)[r2 * l.col + c].y
  {
    var step := l.cellHeight + l.padding;
    GridAt(l, r1, c);
    GridAt(l, r2, c);
    ScaleIncreasing(r1, r2, step);
    assert Grid(l)[r1 * l.col + c].y == r1 as real * step;
    assert Grid(l)[r2 * l.col + c].y == r2 as real * step;
  }

  /** In a layout whose cells and gaps span `width` x `height`, the last row and column end at the edges. */
  lemma LayoutEdges(l: Layout, width: real, height: real, r: nat, c: nat)
    requires r < l.row && c < l.col
    requires l.col as real * l.cellWidth + (l.col - 1) as real * l.padding == width
    requires l.row as real * l.cellHeight + (l.row - 1) as real * l.padding == height
    ensures r * l.col + (l.col - 1) < |Grid(l)|
    ensures Grid(l)[r * l.col + (l.col - 1)].x + l.cellWidth == width
    ensures (l.row - 1) * l.col + c < |Grid(l)|
    ensures Grid(l)[(l.row - 1) * l.col + c].y + l.cellHeight == height
  {
    GridAt(l, r, l.col - 1);
    GridAt(l, l.row - 1, c);
    StepOfSpan(l.col, l.cellWidth, l.padding, width);
    StepOfSpan(l.row, l.cellHeight, l.padding, height);
  }

  /**
   * The last cell of every row ends exactly at the container's right edge,
   * and the last cell of every column at its bottom edge.
   */
  lemma GridEdges(p: Props, r: nat, c: nat)
    requires ValidProps(p) && r < p.row && c < p.col
    ensures r * p.col + (p.col - 1) < |Grid(LayoutOf(p))|
    ensures Grid(LayoutOf(p))[r * p.col + (p.col - 1)].x + LayoutOf(p).cellWidth == p.width
    ensures (p.row - 1) * p.col + c < |Grid(LayoutOf(p))|
    ensures Grid(LayoutOf(p))[(p.row - 1) * p.col + c].y + LayoutOf(p).cellHeight == p.height
  {
    CellsSpanAxis(p.width, p.col, p.padding);
    CellsSpanAxis(p.height, p.row, p.padding);
    LayoutEdges(LayoutOf(p), p.width, p.height, r, c);
  }

  /** With the default properties: four 142.5 x 142.5 cells, the second column and row at 157.5. */
  lemma DefaultGrid()
    ensures ValidProps(DefaultProps())
    ensures LayoutOf(DefaultProps()) == Layout(2, 2, 142.5, 142.5, 15.0)
    ensures Grid(LayoutOf(DefaultProps())) == [
      Plain(0.0, 0.0, CellKey(0, 0)), Plain(157.5, 0.0, CellKey(1, 0)),
      Plain(0.0, 157.5, CellKey(0, 1)), Plain(157.5, 157.5, CellKey(1, 1))]
    ensures KeyText(CellKey(1, 0)) == "1:0"
  {
    var l := Layout(2, 2, 142.5, 142.5, 15.0);
    assert LayoutOf(DefaultProps()) == l;
    GridAt(l, 0, 0);
    GridAt(l, 0, 1);
    GridAt(l, 1, 0);
    GridAt(l, 1, 1);
    assert NatToString(0) == "0" && NatToString(1) == "1";
  }

  /** The two nested loops push the cells row by row. */
  method BuildGrid(l: Layout) returns (cells: seq<Cell>)
    ensures cells == Grid(l)
  {
    cells := [];
    var rowAmount := 0;
    while rowAmount < l.row
      invariant 0 <= rowAmount <= l.row
      invariant cells == Rows(l, rowAmount)
    {
      var colAmount := 0;
      while colAmount < l.col
        invariant 0 <= colAmount <= l.col
        invariant cells == Rows(l, rowAmount) + Row(l, rowAmount)[..colAmount]
      {
        var x := colAmount as real * (l.cellWidth + l.padding);
        var y := rowAmount as real * (l.cellHeight + l.padding);
        ghost var done := Row(l, rowAmount)[..colAmount];
        assert Row(l, rowAmount)[..colAmount + 1] == done + [PlainCell(l, rowAmount, colAmount)];
        assert Plain(x, y, CellKey(colAmount, rowAmount)) == PlainCell(l, rowAmount, colAmount);
        assert Rows(l, rowAmount) + done + [PlainCell(l, rowAmount, colAmount)]
            == Rows(l, rowAmount) + (done + [PlainCell(l, rowAmount, colAmount)]);
        cells := cells + [Plain(x, y, CellKey(colAmount, rowAmount))];
        colAmount := colAmount + 1;
      }
      assert Row(l, rowAmount)[..l.col] == Row(l, rowAmount);
      rowAmount := rowAmount + 1;
    }
  }

  // ---------------------------------------------------- the content overlay

  /** Whether `count` content items are placed over a grid of `total` cells. */
  predicate Overlays(count: nat, total: nat) {
    0 < count <= total
  }

  /** Content item `i` in the place of `cell`, keyed `"i"`. */
  function ContentAt(i: nat, cell: Cell): Cell {
    Content(i, cell.x, cell.y, ItemKey(i))
  }

  /**
   * The list after content is laid over it: when the `count` items fit,
   * entry `i < count` becomes item `i`, the rest stay; otherwise nothing
   * changes.  Every entry keeps its position.
   */
  function Overlay(cells: seq<Cell>, count: nat): (r: seq<Cell>)
    ensures |r| == |cells|
    ensures forall k :: 0 <= k < |r| ==> r[k].x == cells[k].x && r[k].y == cells[k].y
  {
    if Overlays(count, |cells|) then
      seq(|cells|, k requires 0 <= k < |cells| => if k < count then ContentAt(k, cells[k]) else cells[k])
    else
      cells
  }

  /** The first `count` entries are overwritten in place, when they fit. */
  method OverlayContent(cells: seq<Cell>, count: nat) returns (out: seq<Cell>)
    ensures out == Overlay(cells, count)
  {
    out := cells;
    if count > 0 {
      var contentLength := count - 1;
      var totalCells := |cells|;  // render's list holds row * col cells
      if totalCells >= contentLength + 1 {
        var amount := 0;
        while amount < contentLength + 1
          invariant 0 <= amount <= count
          invariant |out| == |cells|
          invariant forall k :: 0 <= k < |out| ==> out[k] == if k < amount then ContentAt(k, cells[k]) else cells[k]
        {
          var curX := out[amount].x;
          var curY := out[amount].y;
          out := out[amount := Content(amount, curX, curY, ItemKey(amount))];
          amount := amount + 1;
        }
      }
    }
  }

  /** The list of cells render returns, for `count` content items. */
  method Render(p: Props, count: nat) returns (cells: seq<Cell>)
    requires ValidProps(p)
    ensures cells == Overlay(Grid(LayoutOf(p)), count)
  {
    var width := CellSize(p.width, p.col, p.padding);
    var height := CellSize(p.height, p.row, p.padding);
    cells := BuildGrid(Layout(p.row, p.col, width, height, p.padding));
    cells := OverlayContent(cells, count);
  }

  /**
   * What render returns: `row * col` entries at the grid positions; entry
   * `k` is content item `k` exactly when the items fit and `k < count`, and
   * the plain grid cell otherwise; no two entries have the same key text.
   */
  lemma RenderedCells(l: Layout, count: nat)
    ensures |Overlay(Grid(l), count)| == l.row * l.col
    ensures forall k :: 0 <= k < l.row * l.col ==>
      Overlay(Grid(l), count)[k] ==
        if Overlays(count, l.row * l.col) && k < count then ContentAt(k, Grid(l)[k]) else Grid(l)[k]
    ensures forall i, j :: 0 <= i < j < l.row * l.col ==>
      KeyText(Overlay(Grid(l), count)[i].key) != KeyText(Overlay(Grid(l), count)[j].key)
  {
    var g, r := Grid(l), Overlay(Grid(l), count);
    GridKeysDistinct(l);
    forall i, j | 0 <= i < j < |r|
      ensures KeyText(r[i].key) != KeyText(r[j].key)
    {
      assert g[i].key != g[j].key;
      assert r[i] == if Overlays(count, |g|) && i < count then ContentAt(i, g[i]) else g[i];
      assert r[j] == if Overlays(count, |g|) && j < count then ContentAt(j, g[j]) else g[j];
      GridIndex(l, i);
      GridIndex(l, j);
      KeyTextInjective(r[i].key, r[j].key);
    }
  }

  /** No content is placed when there is none, or when there is more than the grid holds. */
  lemma NoOverlayWhenNoFit(l: Layout, count: nat)
    requires count == 0 || count > l.row * l.col
    ensures Overlay(Grid(l), count) == Grid(l)
    ensures forall k :: 0 <= k < |Grid(l)| ==> Overlay(Grid(l), count)[k].Plain?
  {
    forall k | 0 <= k < |Grid(l)|
      ensures Grid(l)[k].Plain?
    {
      GridIndex(l, k);
    }
  }
}
