/** The Hilbert index generator `__hilbertCurve`: a 2^k x 2^k grid whose entry
    at (i, j) is the step at which the Hilbert curve visits that cell. The
    grid of level k is assembled from four copies of the grid of level k - 1
    with numpy's flipud, rot90, scalar addition, hstack and vstack. The
    lemmas show that the grid lays out exactly the order of `HilbertOrder`,
    and from that: it is a permutation of 0 .. n*n - 1, it is continuous, it
    starts in the top-left corner and ends in the bottom-left corner, and the
    grid of level k + s is the grid of level k blown up by 2^s. */
module HilbertCurve {
  import opened Arith
  import opened Grids
  import opened HilbertOrder

  // ---------------------------------------------------------------------
  // One level of the generator
  // ---------------------------------------------------------------------

  /** One step of `__hilbertCurve`: from the grid t of side m, with size
      standing for t.size, it assembles the blocks
      [[flipud(rot90(t)), t + size], [flipud(rot90(t, -1)) + 3*size, t + 2*size]]. */
  function Assemble(t: Grid, m: nat, size: int): Grid
    requires IsSquare(t, m)
  {
    var a := FlipUd(Rot90(t, m));
    var b := AddScalar(t, size);
    var c := AddScalar(t, 2 * size);
    var d := AddScalar(FlipUd(Rot90Cw(t, m)), 3 * size);
    VStack(HStack(a, b), HStack(d, c))
  }

  lemma AssembleShape(t: Grid, m: nat, size: int)
    requires IsSquare(t, m)
    ensures IsSquare(Assemble(t, m, size), 2 * m)
  {
    FlipRot90IsTranspose(t, m);
    FlipRot90CwIsAntiTranspose(t, m);
    var d := AddScalar(FlipUd(Rot90Cw(t, m)), 3 * size);
    assert IsSquare(d, m);
    BlockShape(FlipUd(Rot90(t, m)), AddScalar(t, size), d, AddScalar(t, 2 * size), m);
  }

  /** Entry (i, j) of an assembled grid, block by block: the transpose of t
      top left, t + size top right, t + 2*size bottom right and the
      anti-transpose of t plus 3*size bottom left. */
  lemma AssembleAt(g: Grid, t: Grid, m: nat, size: int, i: int, j: int)
    requires IsSquare(t, m) && g == Assemble(t, m, size) && 0 <= i < 2 * m && 0 <= j < 2 * m
    ensures IsSquare(g, 2 * m)
    ensures g[i][j] ==
      if i < m then (if j < m then t[j][i] else t[i][j - m] + size)
      else (if j < m then t[m - 1 - j][2 * m - 1 - i] + 3 * size else t[i - m][j - m] + 2 * size)
  {
    var a := FlipUd(Rot90(t, m));
    var b := AddScalar(t, size);
    var c := AddScalar(t, 2 * size);
    var d := AddScalar(FlipUd(Rot90Cw(t, m)), 3 * size);
    FlipRot90IsTranspose(t, m);
    FlipRot90CwIsAntiTranspose(t, m);
    assert IsSquare(d, m);
    BlockAt(a, b, d, c, m, i, j);
  }

  /** The same entry in terms of quarters: the entry of t at the cell u that
      quarter q shows at c, plus the quarter's offset. */
  lemma AssembleAtQuarter(g: Grid, t: Grid, m: nat, size: int, c: Cell, q: int, u: Cell)
    requires IsSquare(t, m) && g == Assemble(t, m, size) && InGrid(c, 2 * m)
    requires q == QuadrantOf(c, m) && u == Unplace(q, c, m)
    ensures IsSquare(g, 2 * m) && InGrid(u, m)
    ensures g[c.row][c.col] == t[u.row][u.col] + Offset(q, size)
  {
    AssembleAt(g, t, m, size, c.row, c.col);
  }

  // ---------------------------------------------------------------------
  // The generator
  // ---------------------------------------------------------------------

  /** `__hilbertCurve(2^k)`: the 1 x 1 grid of zeros at level 0; above it,
      four copies of the grid t of level k - 1, whose t.size is m * m for its
      side m. */
  function Curve(k: nat): (g: Grid)
    ensures IsSquare(g, Pow2(k))
  {
    if k == 0 then [[0]]
    else
      var t := Curve(k - 1);
      var m := Pow2(k - 1);
      AssembleShape(t, m, m * m);
      Assemble(t, m, m * m)
  }

  /** `__hilbertCurve(n)` for the sizes it is documented for, the powers of
      two. Other sizes are outside its contract: a size that is not a power
      of two gives the grid of the largest power of two below it, and size 0
      never reaches the base case. */
  function HilbertCurve(n: nat): (g: Grid)
    requires IsPow2(n)
    ensures IsSquare(g, n)
  {
    Curve(Log2(n))
  }

  /** One level of the generator, unfolded. */
  lemma CurveStep(k: nat)
    requires k > 0
    ensures Curve(k) == Assemble(Curve(k - 1), Pow2(k - 1), Pow2(k - 1) * Pow2(k - 1))
  {
  }

  /** Entry c of the grid g of level k, in terms of quarters: the entry of
      the grid t of level k - 1 at the cell u that quarter q shows at c,
      plus the quarter's offset. */
  lemma CurveStepAt(k: nat, g: Grid, t: Grid, c: Cell, q: int, u: Cell)
    requires k > 0 && g == Curve(k) && t == Curve(k - 1) && InGrid(c, Pow2(k))
    requires q == QuadrantOf(c, Pow2(k - 1)) && u == Unplace(q, c, Pow2(k - 1))
    ensures InGrid(u, Pow2(k - 1)) && IsSquare(g, Pow2(k)) && IsSquare(t, Pow2(k - 1))
    ensures g[c.row][c.col] == t[u.row][u.col] + Offset(q, Pow4(k - 1))
  {
    var m := Pow2(k - 1);
    Pow4IsSquare(k - 1);
    CurveStep(k);
    AssembleAtQuarter(g, t, m, m * m, c, q, u);
  }

  /** Every cell c of the grid g of level k holds the step at which the
      curve of `HilbertOrder` visits c. */
  lemma {:induction false} CurveMatches(k: nat, g: Grid, c: Cell)
    requires g == Curve(k) && InGrid(c, Pow2(k))
    ensures IsSquare(g, Pow2(k))
    ensures g[c.row][c.col] == IndexAt(k, c)
  {
    if k > 0 {
      var q := QuadrantOf(c, Pow2(k - 1));
      var u := Unplace(q, c, Pow2(k - 1));
      var t := Curve(k - 1);
      IndexAtStep(k, k - 1, c, q, u);
      CurveMatches(k - 1, t, u);
      CurveStepAt(k, g, t, c, q, u);
    }
  }

  // ---------------------------------------------------------------------
  // Properties of the grid
  // ---------------------------------------------------------------------

  /** Quarter q of the grid g of side n = 2m (0 top left, 1 top right,
      2 bottom right, 3 bottom left) holds only the steps from q*m*m
      (`Offset(q, m*m)`) up to (q+1)*m*m - 1. */
  lemma CurveQuarterRange(k: nat, g: Grid, i: int, l: int)
    requires k > 0 && g == Curve(k) && 0 <= i < Pow2(k) && 0 <= l < Pow2(k)
    ensures IsSquare(g, Pow2(k))
    ensures var m := Pow2(k - 1); var s := m * m; var q := QuadrantOf(Cell(i, l), m);
      Offset(q, s) <= g[i][l] < Offset(q, s) + s
  {
    var m := Pow2(k - 1);
    var c := Cell(i, l);
    var q := QuadrantOf(c, m);
    var u := Unplace(q, c, m);
    IndexAtStep(k, k - 1, c, q, u);
    Pow4IsSquare(k - 1);
    CurveMatches(k, g, c);
  }

  /** Conversely, every step v from q*m*m up to (q+1)*m*m - 1 lies in
      quarter q: the cell `CellOf(k, v)`, which holds v, is in that
      quarter. */
  lemma CurveQuarterHoldsAll(k: nat, g: Grid, q: int, v: int)
    requires k > 0 && g == Curve(k) && 0 <= q < 4
    requires var m := Pow2(k - 1); Offset(q, m * m) <= v < Offset(q, m * m) + m * m
    ensures IsSquare(g, Pow2(k)) && 0 <= v < Pow4(k)
    ensures var c := CellOf(k, v);
      InGrid(c, Pow2(k)) && g[c.row][c.col] == v && QuadrantOf(c, Pow2(k - 1)) == q
  {
    var m := Pow2(k - 1);
    Pow4IsSquare(k - 1);
    var w := v - Offset(q, m * m);
    CellOfStep(k, v, q, w);
    PlaceUnplace(q, CellOf(k - 1, w), Cell(0, 0), m);
    IndexAtCellOf(k, v);
    CurveMatches(k, g, CellOf(k, v));
  }

  /** The grid g of side n = 2^k holds every step 0 .. n*n - 1 exactly
      once: every entry is a step, the cell `CellOf(k, v)` holds v, and no
      two cells hold the same step. */
  lemma CurveIsPermutation(k: nat, n: int, g: Grid)
    requires n == Pow2(k) && g == Curve(k)
    ensures IsSquare(g, n) && Pow4(k) == n * n
    ensures forall i, j :: 0 <= i < n && 0 <= j < n ==> 0 <= g[i][j] < n * n
    ensures forall v :: 0 <= v < n * n ==>
      InGrid(CellOf(k, v), n) && g[CellOf(k, v).row][CellOf(k, v).col] == v
    ensures forall i, j, i', j' :: 0 <= i < n && 0 <= j < n && 0 <= i' < n && 0 <= j' < n ==>
      g[i][j] == g[i'][j'] ==> i == i' && j == j'
  {
    Pow4IsSquare(k);
    forall i, j | 0 <= i < n && 0 <= j < n
      ensures 0 <= g[i][j] < n * n
    {
      CurveMatches(k, g, Cell(i, j));
    }
    forall v | 0 <= v < n * n
      ensures InGrid(CellOf(k, v), n) && g[CellOf(k, v).row][CellOf(k, v).col] == v
    {
      IndexAtCellOf(k, v);
      CurveMatches(k, g, CellOf(k, v));
    }
    forall i, j, i', j' | 0 <= i < n && 0 <= j < n && 0 <= i' < n && 0 <= j' < n && g[i][j] == g[i'][j']
      ensures i == i' && j == j'
    {
      CellOfIndexAt(k, Cell(i, j));
      CellOfIndexAt(k, Cell(i', j'));
      CurveMatches(k, g, Cell(i, j));
      CurveMatches(k, g, Cell(i', j'));
    }
  }

  /** The curve starts with step 0 in the top-left corner and ends with step
      n*n - 1 in the bottom-left corner. */
  lemma CurveEnds(k: nat, n: int, g: Grid)
    requires n == Pow2(k) && g == Curve(k)
    ensures IsSquare(g, n)
    ensures g[0][0] == 0 && g[n - 1][0] == n * n - 1
  {
    var last := Pow4(k) - 1;
    Pow4IsSquare(k);
    assert IndexAt(k, Cell(0, 0)) == 0 && IndexAt(k, Cell(n - 1, 0)) == last by {
      CellOfEnds(k, n, last);
      IndexAtCellOf(k, 0);
      IndexAtCellOf(k, last);
    }
    CurveMatches(k, g, Cell(0, 0));
    CurveMatches(k, g, Cell(n - 1, 0));
  }

  /** The curve is continuous: the cells holding consecutive steps are
      neighbours. */
  lemma CurveIsContinuous(k: nat, n: int, g: Grid)
    requires n == Pow2(k) && g == Curve(k)
    ensures IsSquare(g, n)
    ensures forall i, j, i', j' :: 0 <= i < n && 0 <= j < n && 0 <= i' < n && 0 <= j' < n ==>
      g[i'][j'] == g[i][j] + 1 ==> Adjacent(Cell(i, j), Cell(i', j'))
  {
    forall i, j, i', j' | 0 <= i < n && 0 <= j < n && 0 <= i' < n && 0 <= j' < n && g[i'][j'] == g[i][j] + 1
      ensures Adjacent(Cell(i, j), Cell(i', j'))
    {
      CurveMatches(k, g, Cell(i, j));
      CurveMatches(k, g, Cell(i', j'));
      IndexAtNeighbours(k, Cell(i, j), Cell(i', j'));
    }
  }

  /** The grid g of level t = k + s is the grid h of level k blown up by
      d = 2^s: its entry at (i, j) divided by 4^s is the entry of h at
      (i / d, j / d). */
  lemma CurveUpsample(k: nat, s: nat, t: nat, g: Grid, h: Grid, i: int, j: int)
    requires t == k + s && g == Curve(t) && h == Curve(k) && 0 <= i < Pow2(t) && 0 <= j < Pow2(t)
    ensures IsSquare(g, Pow2(t)) && IsSquare(h, Pow2(k))
    ensures 0 <= i / Pow2(s) < Pow2(k) && 0 <= j / Pow2(s) < Pow2(k)
    ensures g[i][j] / Pow4(s) == h[i / Pow2(s)][j / Pow2(s)]
  {
    var d := Pow2(s);
    IndexAtUpsample(k, s, t, Cell(i, j));
    CurveMatches(t, g, Cell(i, j));
    CurveMatches(k, h, Cell(i / d, j / d));
  }
}
