/**
 * The tile grid planner of `split_image`: four integer cursors sweep the
 * image row by row, and every step emits one crop box.  The cursors are
 * exactly the box that is cropped next, so the state of the loop is a `Box`.
 *
 * `Start` and `Advance` are the cursor updates of the source, branch for
 * branch; `Grid` is the closed-form row-major grid they are proved to
 * enumerate.
 */
module Planner {
  import opened Cells

  /** A crop box in PIL order (left, top, right, bottom); right and bottom are exclusive. */
  datatype Box = Box(left: nat, top: nat, right: nat, bottom: nat)
  {
    /** Pixel (x, y) lies inside the box. */
    predicate Contains(x: int, y: int) {
      left <= x < right && top <= y < bottom
    }
  }

  /** The image size (`image.size`) and the requested tile size. */
  datatype Geometry = Geometry(width: nat, height: nat, tileX: nat, tileY: nat)
  {
    /** A non-empty image and non-zero tile sizes. */
    predicate Positive() {
      width > 0 && height > 0 && tileX > 0 && tileY > 0
    }

    /** Non-zero tile sizes no larger than the image: the inputs on which the source loop behaves. */
    predicate TileFits() {
      0 < tileX <= width && 0 < tileY <= height
    }
  }

  function Min(a: nat, b: nat): nat {
    if a <= b then a else b
  }

  /** The number of tile columns, ceil(W / tx). */
  function Cols(g: Geometry): nat
    requires g.Positive()
  {
    CeilDiv(g.width, g.tileX)
  }

  /** The number of tile rows, ceil(H / ty). */
  function Rows(g: Geometry): nat
    requires g.Positive()
  {
    CeilDiv(g.height, g.tileY)
  }

  /** The tile in row r and column c: a full tile step, clipped to the image. */
  function GridBox(g: Geometry, r: nat, c: nat): Box {
    var left, top := Times(c, g.tileX), Times(r, g.tileY);
    Box(left, top, Min(left + g.tileX, g.width), Min(top + g.tileY, g.height))
  }

  /**
   * The closed-form tile set, in row-major order: the box at index i is the
   * tile of row i div cols and column i mod cols.
   */
  function Grid(g: Geometry): seq<Box>
    requires g.Positive()
  {
    seq(Times(Rows(g), Cols(g)), i requires 0 <= i => GridBox(g, Quot(i, Cols(g)), Rem(i, Cols(g))))
  }

  // ---------------------------------------------------------------------
  // The cursor machine of splitter.py, lines 88-116
  // ---------------------------------------------------------------------

  /** The cursors before the first crop (lines 88-91). */
  function Start(g: Geometry): Box {
    Box(0, 0, g.tileX, g.tileY)
  }

  /** The loop's exit test (line 99): the box just emitted reaches the right and bottom edges. */
  predicate Done(g: Geometry, b: Box) {
    b.right == g.width && b.bottom == g.height
  }

  /**
   * One cursor update (lines 101-116): at the right edge move down one tile
   * step, clipping the bottom, and restart the column; otherwise move right
   * one tile step, clipping the right edge.
   */
  function Advance(g: Geometry, b: Box): Box {
    if b.right == g.width then
      if b.bottom + g.tileY > g.height then
        Box(0, b.top + g.tileY, g.tileX, g.height)
      else
        Box(0, b.top + g.tileY, g.tileX, b.bottom + g.tileY)
    else
      if b.right + g.tileX > g.width then
        Box(b.left + g.tileX, b.top, g.width, b.bottom)
      else
        Box(b.left + g.tileX, b.top, b.right + g.tileX, b.bottom)
  }

  // ---------------------------------------------------------------------
  // One dimension: a length n cut into cells of d
  // ---------------------------------------------------------------------

  /**
   * Cell k of a length n cut into steps of d starts inside it, and its
   * unclipped end reaches n exactly when k is the last cell.
   */
  lemma {:induction false} CellEdge(n: nat, d: nat, k: nat)
    requires n > 0 && d > 0 && k < CeilDiv(n, d)
    ensures Times(k, d) < n
    ensures Times(k, d) + d >= n <==> k == CeilDiv(n, d) - 1
  {
    CeilDivBounds(n, d);
    TimesLe(k, CeilDiv(n, d) - 1, d);
    if k < CeilDiv(n, d) - 1 {
      TimesStrict(k, CeilDiv(n, d) - 1, d);
    }
  }

  /** Coordinate v falls in cell k of step d exactly when k is v div d. */
  lemma {:induction false} CellOf(v: nat, d: nat, k: nat)
    requires d > 0
    ensures Times(k, d) <= v < Times(k, d) + d <==> k == Quot(v, d)
  {
    QuotRem(v, d);
    if Times(k, d) <= v < Times(k, d) + d {
      QuotRemUnique(v, d, k, v - Times(k, d));
    }
  }

  /** The cell of a coordinate inside the length is one of its cells. */
  lemma {:induction false} CellInRange(n: nat, d: nat, v: nat)
    requires d > 0 && v < n
    ensures Quot(v, d) < CeilDiv(n, d)
  {
    CeilDivBounds(n, d);
    QuotRem(v, d);
    if Quot(v, d) >= CeilDiv(n, d) {
      TimesLe(CeilDiv(n, d), Quot(v, d), d);
    }
  }

  // ---------------------------------------------------------------------
  // Indexing the grid
  // ---------------------------------------------------------------------

  /** An index below n whole steps of d has a quotient below n. */
  lemma {:induction false} QuotientBelow(i: nat, d: nat, n: nat)
    requires d > 0 && i < Times(n, d)
    ensures Quot(i, d) < n
  {
    QuotRem(i, d);
    if Quot(i, d) >= n {
      TimesLe(n, Quot(i, d), d);
    }
  }

  /** Row-major positions are unique: r * cols + c determines r and c. */
  lemma {:induction false} PositionUnique(cols: nat, r: nat, c: nat, r': nat, c': nat)
    requires c < cols && c' < cols && Times(r, cols) + c == Times(r', cols) + c'
    ensures r == r' && c == c'
  {
    QuotRemUnique(Times(r, cols) + c, cols, r, c);
    QuotRemUnique(Times(r', cols) + c', cols, r', c');
  }

  /** Row r, column c sits at index r * cols + c. */
  lemma {:induction false} GridIndex(g: Geometry, r: nat, c: nat)
    requires g.Positive() && r < Rows(g) && c < Cols(g)
    ensures Times(r, Cols(g)) + c < |Grid(g)|
    ensures Grid(g)[Times(r, Cols(g)) + c] == GridBox(g, r, c)
  {
    var k := Times(r, Cols(g)) + c;
    TimesStrict(r, Rows(g), Cols(g));
    assert k < |Grid(g)|;
    QuotRemUnique(k, Cols(g), r, c);
    assert Grid(g)[k] == GridBox(g, Quot(k, Cols(g)), Rem(k, Cols(g)));
  }

  /** Every index of the grid is a row and a column of it. */
  lemma {:induction false} Locate(g: Geometry, i: nat) returns (r: nat, c: nat)
    requires g.Positive() && i < |Grid(g)|
    ensures r < Rows(g) && c < Cols(g)
    ensures r == Quot(i, Cols(g)) && c == Rem(i, Cols(g)) && i == Times(r, Cols(g)) + c
    ensures Grid(g)[i] == GridBox(g, r, c)
  {
    r, c := Quot(i, Cols(g)), Rem(i, Cols(g));
    QuotRem(i, Cols(g));
    QuotientBelow(i, Cols(g), Rows(g));
  }

  /**
   * The grid has ceil(W / tx) * ceil(H / ty) boxes, in the integer
   * arithmetic of the source: (W + tx - 1) div tx columns and
   * (H + ty - 1) div ty rows.
   */
  lemma {:induction false} GridCount(g: Geometry)
    requires g.Positive()
    ensures |Grid(g)| == Rows(g) * Cols(g)
    ensures Cols(g) == (g.width + g.tileX - 1) / g.tileX
    ensures Rows(g) == (g.height + g.tileY - 1) / g.tileY
  {
    TimesIs(Rows(g), Cols(g));
    CeilDivIs(g.width, g.tileX);
    CeilDivIs(g.height, g.tileY);
  }

  // ---------------------------------------------------------------------
  // Properties of the tile set
  // ---------------------------------------------------------------------

  /**
   * Every box lies inside the image and is non-empty; it is a full tile wide
   * unless it is in the last column, where it ends at the right edge and is
   * W - (cols - 1) * tx = W - tx * floor((W - 1) / tx) wide; likewise for
   * height and the last row.
   */
  lemma {:induction false} GridBoxShape(g: Geometry, i: nat)
    requires g.Positive() && i < |Grid(g)|
    ensures var b := Grid(g)[i];
      && b.left < b.right <= g.width
      && b.top < b.bottom <= g.height
      && b.right - b.left <= g.tileX
      && b.bottom - b.top <= g.tileY
      && (b.right == g.width <==> Rem(i, Cols(g)) == Cols(g) - 1)
      && (b.bottom == g.height <==> Quot(i, Cols(g)) == Rows(g) - 1)
      && (b.right < g.width ==> b.right - b.left == g.tileX)
      && (b.bottom < g.height ==> b.bottom - b.top == g.tileY)
      && (b.right == g.width ==> b.right - b.left == g.width - Times(Quot(g.width - 1, g.tileX), g.tileX))
      && (b.bottom == g.height ==> b.bottom - b.top == g.height - Times(Quot(g.height - 1, g.tileY), g.tileY))
  {
    var r, c := Locate(g, i);
    BoxShapeAt(g, r, c);
  }

  /** The shape of the box in row r, column c, as `GridBoxShape` states it by index. */
  lemma {:induction false} BoxShapeAt(g: Geometry, r: nat, c: nat)
    requires g.Positive() && r < Rows(g) && c < Cols(g)
    ensures var b := GridBox(g, r, c);
      && b.left < b.right <= g.width
      && b.top < b.bottom <= g.height
      && b.right - b.left <= g.tileX
      && b.bottom - b.top <= g.tileY
      && (b.right == g.width <==> c == Cols(g) - 1)
      && (b.bottom == g.height <==> r == Rows(g) - 1)
      && (b.right < g.width ==> b.right - b.left == g.tileX)
      && (b.bottom < g.height ==> b.bottom - b.top == g.tileY)
      && (b.right == g.width ==> b.right - b.left == g.width - Times(Quot(g.width - 1, g.tileX), g.tileX))
      && (b.bottom == g.height ==> b.bottom - b.top == g.height - Times(Quot(g.height - 1, g.tileY), g.tileY))
  {
    CellSpan(g.width, g.tileX, c);
    CellSpan(g.height, g.tileY, r);
  }

  /** One dimension of a grid box: cell k of a length n cut into steps of d, clipped to n. */
  lemma {:induction false} CellSpan(n: nat, d: nat, k: nat)
    requires n > 0 && d > 0 && k < CeilDiv(n, d)
    ensures var start, end := Times(k, d), Min(Times(k, d) + d, n);
      && start < end <= n
      && end - start <= d
      && (end == n <==> k == CeilDiv(n, d) - 1)
      && (end < n ==> end - start == d)
      && (end == n ==> end - start == n - Times(Quot(n - 1, d), d))
  {
    CellEdge(n, d, k);
    CeilDivPred(n, d);
  }

  /** In a rows x cols grid, r * cols + c is the last index exactly at the last row and column. */
  lemma {:induction false} LastPosition(rows: nat, cols: nat, r: nat, c: nat)
    requires r < rows && c < cols
    ensures Times(r, cols) + c == Times(rows, cols) - 1 <==> r == rows - 1 && c == cols - 1
  {
    if r < rows - 1 {
      TimesStrict(r, rows - 1, cols);
    }
  }

  /** The last box reaches the bottom-right corner, and no earlier box passes the exit test. */
  lemma {:induction false} GridExitsAtLast(g: Geometry, i: nat)
    requires g.Positive() && i < |Grid(g)|
    ensures Done(g, Grid(g)[i]) <==> i == |Grid(g)| - 1
  {
    GridBoxShape(g, i);
    var r, c := Locate(g, i);
    LastPosition(Rows(g), Cols(g), r, c);
  }

  /** The row and column of the box after the one at row r, column c. */
  lemma {:induction false} NextPosition(g: Geometry, i: nat, r: nat, c: nat)
    requires g.Positive() && i + 1 < |Grid(g)| && c < Cols(g) && i == Times(r, Cols(g)) + c
    ensures c < Cols(g) - 1 ==> Grid(g)[i + 1] == GridBox(g, r, c + 1)
    ensures c == Cols(g) - 1 ==> Grid(g)[i + 1] == GridBox(g, r + 1, 0)
  {
    var r', c' := Locate(g, i + 1);
    if c < Cols(g) - 1 {
      PositionUnique(Cols(g), r, c + 1, r', c');
    } else {
      assert i + 1 == Times(r + 1, Cols(g)) + 0;
      PositionUnique(Cols(g), r + 1, 0, r', c');
    }
  }

  /** Inside a row, the box of column c + 1 starts where the box of column c ends. */
  lemma {:induction false} ColumnStep(g: Geometry, r: nat, c: nat)
    requires g.Positive() && c + 1 < Cols(g)
    ensures GridBox(g, r, c).right < g.width
    ensures GridBox(g, r, c + 1).left == GridBox(g, r, c).right
  {
    CellEdge(g.width, g.tileX, c);
  }

  /** Row r + 1 starts at column 0, one full tile step below the top of row r, which is not the last. */
  lemma {:induction false} RowStep(g: Geometry, r: nat, c: nat)
    requires g.Positive() && r + 1 < Rows(g)
    ensures GridBox(g, r, c).bottom < g.height
    ensures GridBox(g, r + 1, 0).left == 0
    ensures GridBox(g, r + 1, 0).top == GridBox(g, r, c).top + g.tileY
  {
    CellEdge(g.height, g.tileY, r);
  }

  /**
   * Row-major order: inside a row the next box starts where the previous one
   * ended, on the same rows of pixels; after a box at the right edge the next
   * box starts at column 0, one full tile step further down.
   */
  lemma {:induction false} GridRowMajor(g: Geometry, i: nat)
    requires g.Positive() && i + 1 < |Grid(g)|
    ensures var b, n := Grid(g)[i], Grid(g)[i + 1];
      && (b.right < g.width ==> n.left == b.right && n.top == b.top && n.bottom == b.bottom)
      && (b.right == g.width ==> n.left == 0 && n.top == b.top + g.tileY)
  {
    GridBoxShape(g, i);
    var r, c := Locate(g, i);
    NextPosition(g, i, r, c);
    if c < Cols(g) - 1 {
      ColumnStep(g, r, c);
    } else {
      LastPosition(Rows(g), Cols(g), r, c);
      RowStep(g, r, c);
    }
  }

  /** The source's column advance (lines 110-116) moves from column c to column c + 1. */
  lemma {:induction false} AdvanceColumn(g: Geometry, r: nat, c: nat)
    requires g.Positive() && c + 1 < Cols(g)
    ensures Advance(g, GridBox(g, r, c)) == GridBox(g, r, c + 1)
  {
    ColumnStep(g, r, c);
    CellEdge(g.width, g.tileX, c);
  }

  /** The source's row advance (lines 101-109) moves from the end of row r to the start of row r + 1. */
  lemma {:induction false} AdvanceRow(g: Geometry, r: nat)
    requires g.Positive() && g.TileFits() && r + 1 < Rows(g)
    ensures Advance(g, GridBox(g, r, Cols(g) - 1)) == GridBox(g, r + 1, 0)
  {
    CeilDivBounds(g.width, g.tileX);
    CellEdge(g.width, g.tileX, Cols(g) - 1);
    RowStep(g, r, Cols(g) - 1);
    CellEdge(g.height, g.tileY, r);
  }

  /** On inputs where the tile fits, the source's cursor update steps from each box to the next. */
  lemma {:induction false} AdvanceFollowsGrid(g: Geometry, i: nat)
    requires g.Positive() && g.TileFits() && i + 1 < |Grid(g)|
    ensures Advance(g, Grid(g)[i]) == Grid(g)[i + 1]
  {
    var r, c := Locate(g, i);
    NextPosition(g, i, r, c);
    if c < Cols(g) - 1 {
      AdvanceColumn(g, r, c);
    } else {
      LastPosition(Rows(g), Cols(g), r, c);
      AdvanceRow(g, r);
    }
  }

  /** A box of the grid holds pixel (x, y) only if it is the box at (y div ty, x div tx). */
  lemma {:induction false} ContainsMeansCell(g: Geometry, i: nat, x: nat, y: nat)
    requires g.Positive() && i < |Grid(g)| && Grid(g)[i].Contains(x, y)
    ensures i == Times(Quot(y, g.tileY), Cols(g)) + Quot(x, g.tileX)
  {
    var r, c := Locate(g, i);
    CellOf(y, g.tileY, r);
    CellOf(x, g.tileX, c);
  }

  /**
   * The boxes partition the image: every pixel of the W x H image lies in
   * exactly one box, the one at index (y div ty) * cols + x div tx.
   */
  lemma {:induction false} GridPartition(g: Geometry, x: nat, y: nat) returns (k: nat)
    requires g.Positive() && x < g.width && y < g.height
    ensures k < |Grid(g)| && Grid(g)[k].Contains(x, y)
    ensures forall i :: 0 <= i < |Grid(g)| && Grid(g)[i].Contains(x, y) ==> i == k
    ensures k == Times(Quot(y, g.tileY), Cols(g)) + Quot(x, g.tileX)
  {
    var r, c := Quot(y, g.tileY), Quot(x, g.tileX);
    CellInRange(g.height, g.tileY, y);
    CellInRange(g.width, g.tileX, x);
    GridIndex(g, r, c);
    CellHolds(g, x, y);
    k := Times(r, Cols(g)) + c;
    forall i | 0 <= i < |Grid(g)| && Grid(g)[i].Contains(x, y)
      ensures i == k
    {
      ContainsMeansCell(g, i, x, y);
    }
  }

  /** A pixel of the image lies in the box of its own row and column. */
  lemma {:induction false} CellHolds(g: Geometry, x: nat, y: nat)
    requires g.Positive() && x < g.width && y < g.height
    ensures GridBox(g, Quot(y, g.tileY), Quot(x, g.tileX)).Contains(x, y)
  {
    QuotRem(x, g.tileX);
    QuotRem(y, g.tileY);
  }

  /** No pixel lies in two different boxes. */
  lemma {:induction false} GridDisjoint(g: Geometry, i: nat, j: nat, x: nat, y: nat)
    requires g.Positive() && i < |Grid(g)| && j < |Grid(g)| && i != j
    ensures !(Grid(g)[i].Contains(x, y) && Grid(g)[j].Contains(x, y))
  {
    if Grid(g)[i].Contains(x, y) && Grid(g)[j].Contains(x, y) {
      ContainsMeansCell(g, i, x, y);
      ContainsMeansCell(g, j, x, y);
    }
  }

  /** Distinct boxes have distinct top-left corners, the pair a tile file is named after. */
  lemma {:induction false} GridCornersDistinct(g: Geometry, i: nat, j: nat)
    requires g.Positive() && i < |Grid(g)| && j < |Grid(g)| && i != j
    ensures (Grid(g)[i].top, Grid(g)[i].left) != (Grid(g)[j].top, Grid(g)[j].left)
  {
    GridBoxShape(g, i);
    GridBoxShape(g, j);
    GridDisjoint(g, i, j, Grid(g)[i].left, Grid(g)[i].top);
  }

  // ---------------------------------------------------------------------
  // The loop itself
  // ---------------------------------------------------------------------

  /**
   * The crop loop of `split_image` (lines 88-116) as written, on inputs where
   * the tile fits in the image: it terminates and emits exactly the
   * closed-form grid, ending with the bottom-right tile.
   */
  method PlanTilesAsWritten(g: Geometry) returns (boxes: seq<Box>)
    requires g.Positive() && g.TileFits()
    ensures boxes == Grid(g)
    ensures |boxes| == Times(CeilDiv(g.height, g.tileY), CeilDiv(g.width, g.tileX))
    ensures |boxes| > 0 && Done(g, boxes[|boxes| - 1])
  {
    GridIndex(g, 0, 0);
    var cursor := Start(g);
    boxes := [];
    while true
      invariant |boxes| < |Grid(g)|
      invariant boxes == Grid(g)[..|boxes|]
      invariant cursor == Grid(g)[|boxes|]
      decreases |Grid(g)| - |boxes|
    {
      GridExitsAtLast(g, |boxes|);
      PrefixExtend(Grid(g), |boxes|);
      boxes := boxes + [cursor];
      if Done(g, cursor) {
        break;
      }
      AdvanceFollowsGrid(g, |boxes| - 1);
      cursor := Advance(g, cursor);
    }
  }

  /** A prefix grows by the next element. */
  lemma {:induction false} PrefixExtend<T>(s: seq<T>, k: nat)
    requires k < |s|
    ensures s[..k] + [s[k]] == s[..k + 1]
  {
  }

  /**
   * A tile at least as large as the image, as written: the first box already
   * overhangs the image, does not pass the exit test, and the next box has
   * left > right.  On a 100 x 100 image with 128 x 128 tiles the source crops
   * (0, 0, 128, 128), (128, 0, 100, 128), (0, 128, 128, 100) and
   * (128, 128, 100, 100) and only then stops, instead of cropping the one
   * whole-image tile.
   */
  lemma OversizeTileInvertsBox()
    ensures var g := Geometry(100, 100, 128, 128);
      var b1 := Advance(g, Start(g));
      var b2 := Advance(g, b1);
      var b3 := Advance(g, b2);
      && Start(g) == Box(0, 0, 128, 128) && !Done(g, Start(g))
      && b1 == Box(128, 0, 100, 128) && !Done(g, b1) && b1.left > b1.right
      && b2 == Box(0, 128, 128, 100) && !Done(g, b2) && b2.top > b2.bottom
      && b3 == Box(128, 128, 100, 100) && Done(g, b3)
      && Grid(g) == [Box(0, 0, 100, 100)]
  {
  }

  /**
   * A zero tile width, as written: the first box fails the exit test and the
   * cursor update leaves it unchanged, so the loop of lines 94-116 never ends.
   */
  lemma {:induction false} ZeroTileNeverAdvances(width: nat, height: nat, tileY: nat)
    requires width > 0
    ensures var g := Geometry(width, height, 0, tileY);
      !Done(g, Start(g)) && Advance(g, Start(g)) == Start(g)
  {
  }

  /**
   * A zero tile height, as written: every box keeps top = bottom = 0, so the
   * exit test never holds, and the row branch puts the cursors back at the
   * start, so the loop sweeps row 0 forever.
   */
  lemma {:induction false} ZeroHeightNeverExits(g: Geometry, b: Box)
    requires g.height > 0 && g.tileY == 0
    requires b.top == 0 && b.bottom == 0
    ensures !Done(g, b)
    ensures Advance(g, b).top == 0 && Advance(g, b).bottom == 0
    ensures b.right == g.width ==> Advance(g, b) == Start(g)
  {
  }

  /** `"64x0"` on an image 128 wide: the cursors cycle through the two boxes of row 0. */
  lemma {:induction false} ZeroHeightCycles(height: nat)
    requires height > 0
    ensures var g := Geometry(128, height, 64, 0);
      var b1 := Advance(g, Start(g));
      && Start(g) == Box(0, 0, 64, 0) && !Done(g, Start(g))
      && b1 == Box(64, 0, 128, 0) && !Done(g, b1)
      && Advance(g, b1) == Start(g)
  {
  }

  /**
   * A tile taller than the image but narrower, as written: a 300 x 100
   * image with 128 x 128 tiles crops row 0 clipped at the bottom edge 128,
   * then a second row whose top 128 lies below its bottom 100.
   */
  lemma OversizeHeightInvertsRow()
    ensures var g := Geometry(300, 100, 128, 128);
      var b1 := Advance(g, Start(g));
      var b2 := Advance(g, b1);
      var b3 := Advance(g, b2);
      var b4 := Advance(g, b3);
      var b5 := Advance(g, b4);
      && Start(g) == Box(0, 0, 128, 128) && !Done(g, Start(g))
      && b1 == Box(128, 0, 256, 128) && !Done(g, b1)
      && b2 == Box(256, 0, 300, 128) && !Done(g, b2)
      && b3 == Box(0, 128, 128, 100) && !Done(g, b3) && b3.top > b3.bottom
      && b4 == Box(128, 128, 256, 100) && !Done(g, b4)
      && b5 == Box(256, 128, 300, 100) && Done(g, b5)
  {
  }

  /**
   * A tile wider than the image but shorter, as written: on a 100 x 300
   * image with 128 x 128 tiles every row crops a box at column 0 past the
   * right edge and then a box whose left 128 lies right of its right 100.
   */
  lemma OversizeWidthInvertsColumn()
    ensures var g := Geometry(100, 300, 128, 128);
      var b1 := Advance(g, Start(g));
      var b2 := Advance(g, b1);
      var b3 := Advance(g, b2);
      var b4 := Advance(g, b3);
      var b5 := Advance(g, b4);
      && Start(g) == Box(0, 0, 128, 128) && !Done(g, Start(g))
      && b1 == Box(128, 0, 100, 128) && !Done(g, b1) && b1.left > b1.right
      && b2 == Box(0, 128, 128, 256) && !Done(g, b2)
      && b3 == Box(128, 128, 100, 256) && !Done(g, b3) && b3.left > b3.right
      && b4 == Box(0, 256, 128, 300) && !Done(g, b4)
      && b5 == Box(128, 256, 100, 300) && Done(g, b5)
  {
  }

  /** Clipping the tile to the image: the one-line correction of the oversize case. */
  function ClampTile(g: Geometry): (t: Geometry)
    requires g.Positive()
    ensures t.Positive() && t.TileFits()
    ensures Grid(t) == Grid(g)
  {
    var t := Geometry(g.width, g.height, Min(g.tileX, g.width), Min(g.tileY, g.height));
    ClampKeepsGrid(g, t);
    t
  }

  lemma {:induction false} ClampKeepsGrid(g: Geometry, t: Geometry)
    requires g.Positive() && t.Positive()
    requires t == Geometry(g.width, g.height, Min(g.tileX, g.width), Min(g.tileY, g.height))
    ensures Grid(t) == Grid(g)
  {
    ClampKeepsCount(g.width, g.tileX);
    ClampKeepsCount(g.height, g.tileY);
    forall i | 0 <= i < |Grid(g)|
      ensures Grid(t)[i] == Grid(g)[i]
    {
      var r, c := Locate(g, i);
      ClampKeepsBox(g, t, r, c);
    }
  }

  /** Clamping changes no box of the grid: an oversize tile has only row 0 or column 0. */
  lemma {:induction false} ClampKeepsBox(g: Geometry, t: Geometry, r: nat, c: nat)
    requires g.Positive() && t.Positive()
    requires t == Geometry(g.width, g.height, Min(g.tileX, g.width), Min(g.tileY, g.height))
    requires r < Rows(g) && c < Cols(g)
    ensures GridBox(t, r, c) == GridBox(g, r, c)
  {
  }

  /** A step longer than the length covers it in one cell, like a step of exactly the length. */
  lemma {:induction false} ClampKeepsCount(n: nat, d: nat)
    requires n > 0 && d > 0
    ensures CeilDiv(n, Min(d, n)) == CeilDiv(n, d)
    ensures d >= n ==> CeilDiv(n, d) == 1
  {
  }

  /**
   * The planner with the oversize case corrected: for every positive image
   * and tile size it terminates with the closed-form grid, and a tile at
   * least as large as the image yields the whole image as a single tile.
   */
  method PlanTiles(g: Geometry) returns (boxes: seq<Box>)
    requires g.Positive()
    ensures boxes == Grid(g)
    ensures |boxes| == Times(CeilDiv(g.height, g.tileY), CeilDiv(g.width, g.tileX))
    ensures g.tileX >= g.width && g.tileY >= g.height ==> boxes == [Box(0, 0, g.width, g.height)]
  {
    boxes := PlanTilesAsWritten(ClampTile(g));
    if g.tileX >= g.width && g.tileY >= g.height {
      ClampKeepsCount(g.width, g.tileX);
      ClampKeepsCount(g.height, g.tileY);
      GridIndex(g, 0, 0);
    }
  }

  /**
   * The 300 x 200 image with 128 x 128 tiles: six boxes at (left, top) =
   * (0,0), (128,0), (256,0), (0,128), (128,128), (256,128); the last column
   * is 44 wide and the last row 72 high.
   */
  lemma Example300x200()
    ensures Grid(Geometry(300, 200, 128, 128)) == [
      Box(0, 0, 128, 128), Box(128, 0, 256, 128), Box(256, 0, 300, 128),
      Box(0, 128, 128, 200), Box(128, 128, 256, 200), Box(256, 128, 300, 200)]
  {
  }
}
