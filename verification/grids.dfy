/** Two-dimensional arrays as sequences of rows, with the numpy operations the
    curve generator is built from: `flipud`, `rot90` in both directions,
    adding a scalar, `hstack` and `vstack`. Entry (i, j) is row i, column j. */
module Grids {

  type Grid = seq<seq<int>>

  /** g has n rows, each of n entries */
  predicate IsSquare<T>(g: seq<seq<T>>, n: nat) {
    |g| == n && forall i :: 0 <= i < n ==> |g[i]| == n
  }

  /** A grid position. */
  datatype Cell = Cell(row: int, col: int)

  /** c lies in the n x n grid */
  predicate InGrid(c: Cell, n: int) {
    0 <= c.row < n && 0 <= c.col < n
  }

  function Dist(a: int, b: int): nat {
    if a <= b then b - a else a - b
  }

  /** Two positions differ by exactly one in exactly one coordinate. */
  predicate Adjacent(p: Cell, q: Cell) {
    (p.row == q.row && Dist(p.col, q.col) == 1) || (p.col == q.col && Dist(p.row, q.row) == 1)
  }

  /** np.flipud: the rows in reverse order */
  function FlipUd<T>(g: seq<seq<T>>): seq<seq<T>> {
    seq(|g|, i requires 0 <= i < |g| => g[|g| - 1 - i])
  }

  /** np.rot90(g): a quarter turn counter-clockwise; entry (i, j) comes from (j, n-1-i) */
  function Rot90<T>(g: seq<seq<T>>, n: nat): seq<seq<T>>
    requires IsSquare(g, n)
  {
    seq(n, i requires 0 <= i < n => seq(n, j requires 0 <= j < n => g[j][n - 1 - i]))
  }

  /** np.rot90(g, -1): a quarter turn clockwise; entry (i, j) comes from (n-1-j, i) */
  function Rot90Cw<T>(g: seq<seq<T>>, n: nat): seq<seq<T>>
    requires IsSquare(g, n)
  {
    seq(n, i requires 0 <= i < n => seq(n, j requires 0 <= j < n => g[n - 1 - j][i]))
  }

  /** g + c: the scalar added to every entry */
  function AddScalar(g: Grid, c: int): Grid {
    seq(|g|, i requires 0 <= i < |g| => seq(|g[i]|, j requires 0 <= j < |g[i]| => g[i][j] + c))
  }

  /** np.hstack: each row of a followed by the same row of b */
  function HStack<T>(a: seq<seq<T>>, b: seq<seq<T>>): seq<seq<T>>
    requires |a| == |b|
  {
    seq(|a|, i requires 0 <= i < |a| => a[i] + b[i])
  }

  /** np.vstack: the rows of a followed by the rows of b */
  function VStack<T>(a: seq<seq<T>>, b: seq<seq<T>>): seq<seq<T>> {
    a + b
  }

  /** The quadrant transform of the top-left block: flipping the
      counter-clockwise quarter turn upside down is the transpose. */
  lemma FlipRot90IsTranspose<T>(t: seq<seq<T>>, m: nat)
    requires IsSquare(t, m)
    ensures IsSquare(FlipUd(Rot90(t, m)), m)
    ensures forall i, j :: 0 <= i < m && 0 <= j < m ==> FlipUd(Rot90(t, m))[i][j] == t[j][i]
  {
  }

  /** The quadrant transform of the bottom-left block: flipping the clockwise
      quarter turn upside down is the reflection in the anti-diagonal. */
  lemma FlipRot90CwIsAntiTranspose<T>(t: seq<seq<T>>, m: nat)
    requires IsSquare(t, m)
    ensures IsSquare(FlipUd(Rot90Cw(t, m)), m)
    ensures forall i, j :: 0 <= i < m && 0 <= j < m ==> FlipUd(Rot90Cw(t, m))[i][j] == t[m - 1 - j][m - 1 - i]
  {
  }

  /** Shape of the 2 x 2 block matrix [[a, b], [d, c]] of m x m blocks. */
  lemma BlockShape<T>(a: seq<seq<T>>, b: seq<seq<T>>, d: seq<seq<T>>, c: seq<seq<T>>, m: nat)
    requires IsSquare(a, m) && IsSquare(b, m) && IsSquare(c, m) && IsSquare(d, m)
    ensures IsSquare(VStack(HStack(a, b), HStack(d, c)), 2 * m)
  {
  }

  /** Entry (i, j) of the 2 x 2 block matrix [[a, b], [d, c]] of m x m blocks. */
  lemma BlockAt<T>(a: seq<seq<T>>, b: seq<seq<T>>, d: seq<seq<T>>, c: seq<seq<T>>, m: nat, i: int, j: int)
    requires IsSquare(a, m) && IsSquare(b, m) && IsSquare(c, m) && IsSquare(d, m)
    requires 0 <= i < 2 * m && 0 <= j < 2 * m
    ensures IsSquare(VStack(HStack(a, b), HStack(d, c)), 2 * m)
    ensures VStack(HStack(a, b), HStack(d, c))[i][j] ==
      if i < m then (if j < m then a[i][j] else b[i][j - m])
      else (if j < m then d[i - m][j] else c[i - m][j - m])
  {
    var g := VStack(HStack(a, b), HStack(d, c));
    if i < m {
      assert g[i] == a[i] + b[i];
    } else {
      assert g[i] == d[i - m] + c[i - m];
    }
  }
}
