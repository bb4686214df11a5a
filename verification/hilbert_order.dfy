/** The order in which the Hilbert curve of level k visits the cells of the
    2^k x 2^k grid, in both directions: `IndexAt` (cell to step) and
    `CellOf` (step to cell). The curve of level k is four copies of the
    curve of level k - 1, one per quarter of the grid, visited top left,
    top right, bottom right, bottom left; the quarters are oriented so that
    the curve enters the grid in the top-left corner and leaves it in the
    bottom-left corner. The grid generator of `HilbertCurve` is proved to
    lay out exactly this order. */
module HilbertOrder {
  import opened Arith
  import opened Grids

  // ---------------------------------------------------------------------
  // The quarter structure
  // ---------------------------------------------------------------------

  /** Which quarter of the curve (s steps each) holds step v:
      0 top left, 1 top right, 2 bottom right, 3 bottom left. */
  function Quadrant(v: int, s: int): int {
    if v < s then 0 else if v < 2 * s then 1 else if v < 3 * s then 2 else 3
  }

  /** The first step of quarter q. */
  function Offset(q: int, s: int): int {
    if q == 0 then 0 else if q == 1 then s else if q == 2 then 2 * s else 3 * s
  }

  /** Which quarter of the grid of side 2m the cell c lies in. */
  function QuadrantOf(c: Cell, m: int): int {
    if c.row < m then (if c.col < m then 0 else 1) else (if c.col < m then 3 else 2)
  }

  /** Where a cell p of the half-size curve lands in quarter q of the full
      one: transposed top left, shifted right top right, shifted right and
      down bottom right, reflected in the anti-diagonal bottom left. */
  function Place(q: int, p: Cell, m: int): Cell {
    if q == 0 then Cell(p.col, p.row)
    else if q == 1 then Cell(p.row, p.col + m)
    else if q == 2 then Cell(p.row + m, p.col + m)
    else Cell(2 * m - 1 - p.col, m - 1 - p.row)
  }

  /** The cell of the half-size curve that quarter q shows at cell c. */
  function Unplace(q: int, c: Cell, m: int): Cell {
    if q == 0 then Cell(c.col, c.row)
    else if q == 1 then Cell(c.row, c.col - m)
    else if q == 2 then Cell(c.row - m, c.col - m)
    else Cell(m - 1 - c.col, 2 * m - 1 - c.row)
  }

  /** Placing a cell and reading it back are inverse, in both orders. */
  lemma PlaceUnplace(q: int, p: Cell, c: Cell, m: int)
    requires 0 <= q < 4 && InGrid(p, m) && InGrid(c, 2 * m)
    ensures InGrid(Place(q, p, m), 2 * m) && QuadrantOf(Place(q, p, m), m) == q
    ensures Unplace(q, Place(q, p, m), m) == p
    ensures InGrid(Unplace(QuadrantOf(c, m), c, m), m)
    ensures Place(QuadrantOf(c, m), Unplace(QuadrantOf(c, m), c, m), m) == c
  {
  }

  lemma QuadrantOffset(q: int, w: int, s: int)
    requires 0 <= q < 4 && 0 <= w < s
    ensures Quadrant(Offset(q, s) + w, s) == q
  {
  }

  /** Placing into one quarter keeps neighbours neighbours. */
  lemma PlaceAdjacent(q: int, p: Cell, p': Cell, m: int)
    requires Adjacent(p, p')
    ensures Adjacent(Place(q, p, m), Place(q, p', m))
  {
  }

  /** The exit of each quarter touches the entry of the next. */
  lemma PlaceBoundary(q: int, m: int)
    requires 0 <= q < 3
    ensures Adjacent(Place(q, Cell(m - 1, 0), m), Place(q + 1, Cell(0, 0), m))
  {
  }

  // ---------------------------------------------------------------------
  // The two directions of the curve
  // ---------------------------------------------------------------------

  /** The step at which the curve of level k visits cell c. */
  function IndexAt(k: nat, c: Cell): (v: int)
    requires InGrid(c, Pow2(k))
    ensures 0 <= v < Pow4(k)
  {
    if k == 0 then 0
    else
      var m := Pow2(k - 1);
      var q := QuadrantOf(c, m);
      PlaceUnplace(q, Cell(0, 0), c, m);
      Offset(q, Pow4(k - 1)) + IndexAt(k - 1, Unplace(q, c, m))
  }

  /** The cell the curve of level k visits at step v. */
  function CellOf(k: nat, v: int): (p: Cell)
    requires 0 <= v < Pow4(k)
    ensures InGrid(p, Pow2(k))
  {
    if k == 0 then Cell(0, 0)
    else
      var s := Pow4(k - 1);
      var q := Quadrant(v, s);
      Place(q, CellOf(k - 1, v - Offset(q, s)), Pow2(k - 1))
  }

  /** One level of `IndexAt`, from level k to level j = k - 1: cell c lies in
      quarter q of the grid, where it shows cell u of the half-size curve. */
  lemma IndexAtStep(k: nat, j: nat, c: Cell, q: int, u: Cell)
    requires k == j + 1 && InGrid(c, Pow2(k))
    requires q == QuadrantOf(c, Pow2(j)) && u == Unplace(q, c, Pow2(j))
    ensures InGrid(u, Pow2(j))
    ensures IndexAt(k, c) == Offset(q, Pow4(j)) + IndexAt(j, u)
  {
    PlaceUnplace(q, Cell(0, 0), c, Pow2(j));
  }

  /** Reading back the step at the cell of step v gives v. */
  lemma {:induction false} IndexAtCellOf(k: nat, v: int)
    requires 0 <= v < Pow4(k)
    ensures IndexAt(k, CellOf(k, v)) == v
  {
    if k > 0 {
      var m := Pow2(k - 1);
      var s := Pow4(k - 1);
      var q := Quadrant(v, s);
      var w := v - Offset(q, s);
      var p := CellOf(k - 1, w);
      CellOfStep(k, v, q, w);
      PlaceUnplace(q, p, Cell(0, 0), m);
      var c := Place(q, p, m);
      assert CellOf(k, v) == c;
      IndexAtStep(k, k - 1, c, q, p);
      IndexAtCellOf(k - 1, w);
    }
  }

  /** Locating the step at which cell c is visited gives back c. */
  lemma {:induction false} CellOfIndexAt(k: nat, c: Cell)
    requires InGrid(c, Pow2(k))
    ensures CellOf(k, IndexAt(k, c)) == c
  {
    if k > 0 {
      var m := Pow2(k - 1);
      var q := QuadrantOf(c, m);
      var u := Unplace(q, c, m);
      IndexAtStep(k, k - 1, c, q, u);
      var w := IndexAt(k - 1, u);
      CellOfIndexAt(k - 1, u);
      CellOfStep(k, IndexAt(k, c), q, w);
      PlaceUnplace(q, Cell(0, 0), c, m);
    }
  }

  /** One level of `CellOf`: step v lies in quarter q at position w of the
      half-size curve. */
  lemma CellOfStep(k: nat, v: int, q: int, w: int)
    requires k > 0 && 0 <= q < 4 && 0 <= w < Pow4(k - 1) && v == Offset(q, Pow4(k - 1)) + w
    ensures 0 <= v < Pow4(k)
    ensures CellOf(k, v) == Place(q, CellOf(k - 1, w), Pow2(k - 1))
  {
    QuadrantOffset(q, w, Pow4(k - 1));
  }

  /** The curve starts in the top-left corner and ends in the bottom-left one:
      with n = 2^k the side and last = 4^k - 1 the last step. */
  lemma {:induction false} CellOfEnds(k: nat, n: int, last: int)
    requires n == Pow2(k) && last == Pow4(k) - 1
    ensures CellOf(k, 0) == Cell(0, 0)
    ensures CellOf(k, last) == Cell(n - 1, 0)
  {
    if k > 0 {
      var m := Pow2(k - 1);
      var s := Pow4(k - 1);
      CellOfEnds(k - 1, m, s - 1);
      CellOfStep(k, 0, 0, 0);
      CellOfStep(k, last, 3, s - 1);
    }
  }

  /** Two consecutive steps inside one quarter: the half-size curve's
      neighbours stay neighbours once placed. */
  lemma CellOfNextInside(k: nat, v: int, q: int, w: int, a: Cell, b: Cell)
    requires k > 0 && 0 <= q < 4 && 0 <= w && w + 1 < Pow4(k - 1)
    requires v == Offset(q, Pow4(k - 1)) + w
    requires a == CellOf(k - 1, w) && b == CellOf(k - 1, w + 1) && Adjacent(a, b)
    ensures 0 <= v && v + 1 < Pow4(k)
    ensures CellOf(k, v) == Place(q, a, Pow2(k - 1))
    ensures CellOf(k, v + 1) == Place(q, b, Pow2(k - 1))
    ensures Adjacent(Place(q, a, Pow2(k - 1)), Place(q, b, Pow2(k - 1)))
  {
    PlaceAdjacent(q, a, b, Pow2(k - 1));
    CellOfStep(k, v, q, w);
    CellOfStep(k, v + 1, q, w + 1);
  }

  /** The last step of quarter q and the first step of quarter q + 1. */
  lemma CellOfNextAcross(k: nat, v: int, q: int)
    requires k > 0 && 0 <= q < 3
    requires v == Offset(q, Pow4(k - 1)) + Pow4(k - 1) - 1
    ensures 0 <= v && v + 1 < Pow4(k)
    ensures Adjacent(CellOf(k, v), CellOf(k, v + 1))
  {
    var m := Pow2(k - 1);
    var s := Pow4(k - 1);
    CellOfEnds(k - 1, m, s - 1);
    CellOfStep(k, v, q, s - 1);
    assert v + 1 == Offset(q + 1, s) + 0;
    CellOfStep(k, v + 1, q + 1, 0);
    PlaceBoundary(q, m);
  }

  /** Consecutive steps of the curve visit adjacent cells. */
  lemma {:induction false} CellOfContinuous(k: nat, v: int)
    requires 0 <= v && v + 1 < Pow4(k)
    ensures Adjacent(CellOf(k, v), CellOf(k, v + 1))
  {
    if k > 0 {
      var s := Pow4(k - 1);
      var q := Quadrant(v, s);
      var w := v - Offset(q, s);
      assert 0 <= q < 4 && 0 <= w < s;
      if w + 1 < s {
        CellOfContinuous(k - 1, w);
        CellOfNextInside(k, v, q, w, CellOf(k - 1, w), CellOf(k - 1, w + 1));
      } else {
        CellOfNextAcross(k, v, q);
      }
    }
  }

  /** Cells visited at consecutive steps are neighbours. */
  lemma IndexAtNeighbours(k: nat, p: Cell, p': Cell)
    requires InGrid(p, Pow2(k)) && InGrid(p', Pow2(k))
    requires IndexAt(k, p') == IndexAt(k, p) + 1
    ensures Adjacent(p, p')
  {
    CellOfIndexAt(k, p);
    CellOfIndexAt(k, p');
    CellOfContinuous(k, IndexAt(k, p));
  }

  // ---------------------------------------------------------------------
  // Coarsening
  // ---------------------------------------------------------------------

  /** Halving the coordinates of a cell of the grid of side 2h keeps its
      quarter and halves the cell of the half-size curve it shows. */
  lemma QuadrantHalve(c: Cell, h: int)
    requires h > 0 && InGrid(c, 4 * h)
    ensures QuadrantOf(Cell(c.row / 2, c.col / 2), h) == QuadrantOf(c, 2 * h)
    ensures var u := Unplace(QuadrantOf(c, 2 * h), c, 2 * h);
      Unplace(QuadrantOf(c, 2 * h), Cell(c.row / 2, c.col / 2), h) == Cell(u.row / 2, u.col / 2)
  {
  }

  /** The inductive step of `IndexAtCoarsen`: cell c lies in quarter q,
      where it shows cell u, and the claim holds for u one level down. */
  lemma IndexAtCoarsenStep(k: nat, j: nat, c: Cell, q: int, u: Cell)
    requires k == j + 1 && j > 0 && InGrid(c, Pow2(k))
    requires q == QuadrantOf(c, Pow2(j)) && u == Unplace(q, c, Pow2(j))
    requires InGrid(u, Pow2(j)) && InGrid(Cell(u.row / 2, u.col / 2), Pow2(j - 1))
    requires IndexAt(j, u) / 4 == IndexAt(j - 1, Cell(u.row / 2, u.col / 2))
    ensures InGrid(Cell(c.row / 2, c.col / 2), Pow2(j))
    ensures IndexAt(k, c) / 4 == IndexAt(j, Cell(c.row / 2, c.col / 2))
  {
    var h := Pow2(j - 1);
    var s := Pow4(j - 1);
    assert Pow2(j) == 2 * h && Pow4(j) == 4 * s;
    var o := Offset(q, s);
    assert Offset(q, Pow4(j)) == 4 * o;
    IndexAtStep(k, j, c, q, u);
    var y := IndexAt(j, u);
    assert IndexAt(k, c) == 4 * o + y;
    var c2 := Cell(c.row / 2, c.col / 2);
    var u2 := Cell(u.row / 2, u.col / 2);
    QuadrantHalve(c, h);
    IndexAtStep(j, j - 1, c2, q, u2);
    assert IndexAt(j, c2) == o + y / 4;
    DivAddMultiple(o, y, 4);
  }

  /** Coarsening by two, from level k to level j = k - 1: the 2 x 2 block
      containing cell c of the curve of level k holds the four steps
      4w .. 4w+3, w being the step at which the curve of level j visits the
      block's position. */
  lemma {:induction false} IndexAtCoarsen(k: nat, j: nat, c: Cell)
    requires k == j + 1 && InGrid(c, Pow2(k))
    ensures InGrid(Cell(c.row / 2, c.col / 2), Pow2(j))
    ensures IndexAt(k, c) / 4 == IndexAt(j, Cell(c.row / 2, c.col / 2))
  {
    var m := Pow2(j);
    var q := QuadrantOf(c, m);
    var u := Unplace(q, c, m);
    IndexAtStep(k, j, c, q, u);
    if j == 0 {
      assert Pow4(j) == 1 && m == 1;
      assert Cell(c.row / 2, c.col / 2) == Cell(0, 0);
    } else {
      IndexAtCoarsen(j, j - 1, u);
      IndexAtCoarsenStep(k, j, c, q, u);
    }
  }

  /** Upsampling by 2^s, from level t = k + s to level k: the 2^s x 2^s
      block containing cell c of the curve of level t holds the 4^s steps
      that divided by 4^s give the step at which the curve of level k visits
      the block's position. */
  lemma {:induction false} IndexAtUpsample(k: nat, s: nat, t: nat, c: Cell)
    requires t == k + s && InGrid(c, Pow2(t))
    ensures InGrid(Cell(c.row / Pow2(s), c.col / Pow2(s)), Pow2(k))
    ensures IndexAt(t, c) / Pow4(s) == IndexAt(k, Cell(c.row / Pow2(s), c.col / Pow2(s)))
  {
    var d := Pow2(s);
    var b := Cell(c.row / d, c.col / d);
    var x := IndexAt(t, c);
    if s == 0 {
      assert d == 1 && Pow4(s) == 1;
      assert b == c;
      assert x / 1 == x;
    } else {
      var p := Pow2(s - 1);
      assert d == 2 * p && Pow4(s) == 4 * Pow4(s - 1);
      var c2 := Cell(c.row / 2, c.col / 2);
      IndexAtCoarsen(t, t - 1, c);
      assert x / 4 == IndexAt(t - 1, c2);
      IndexAtUpsample(k, s - 1, t - 1, c2);
      DivDiv(x, 4, Pow4(s - 1));
      DivDiv(c.row, 2, p);
      DivDiv(c.col, 2, p);
      assert b == Cell(c2.row / p, c2.col / p);
    }
  }
}
