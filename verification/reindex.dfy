/** `__vectorToHilbert`: the vector is laid out on the Hilbert curve of side
    n = int(sqrt(len(vector))), the cell holding step v receiving entry v of
    the vector. The indices pass through `np.digitize` against the bins
    0 .. len(vector) - 1, which gives every index back unchanged. Entries of
    the vector are of any type T, which covers both plain values and the
    colour triples of the image export. */
module Reindex {
  import opened Arith
  import opened Grids
  import opened HilbertOrder
  import opened HilbertCurve

  /** `list(range(len))` */
  function Range(len: nat): (r: seq<int>)
    ensures |r| == len && forall i :: 0 <= i < len ==> r[i] == i
  {
    seq(len, i requires 0 <= i < len => i)
  }

  predicate Increasing(bins: seq<int>) {
    forall i, j :: 0 <= i < j < |bins| ==> bins[i] <= bins[j]
  }

  /** `np.digitize(x, bins, right=True)` for increasing bins: the index of
      the first bin not below x, or len(bins) when x is above them all. */
  function Digitize(x: int, bins: seq<int>): (r: nat)
    requires Increasing(bins)
    ensures r <= |bins|
    ensures forall i :: 0 <= i < r ==> bins[i] < x
    ensures forall i :: r <= i < |bins| ==> x <= bins[i]
  {
    if |bins| == 0 then 0
    else if x <= bins[0] then 0
    else 1 + Digitize(x, bins[1..])
  }

  /** Against the bins 0 .. len - 1, digitising a valid index gives it back. */
  lemma DigitizeIdentity(x: int, len: nat)
    requires 0 <= x < len
    ensures Increasing(Range(len)) && Digitize(x, Range(len)) == x
  {
    var bins := Range(len);
    var r := Digitize(x, bins);
    assert bins[x] == x;
    assert r < len ==> x <= bins[r];
  }

  /** The bin of index x among 0 .. len - 1. */
  function Bin(x: int, len: nat): (r: int)
    requires 0 <= x < len
    ensures r == x
  {
    DigitizeIdentity(x, len);
    Digitize(x, Range(len))
  }

  /** `__vectorToHilbert(vector)` for a vector whose square root side is a
      power of two, as the curve generator requires: entry (i, j) is the
      vector's entry at the step the curve takes at cell (i, j). Entries past
      side * side are not used. */
  function VectorToHilbert<T>(vec: seq<T>): (h: seq<seq<T>>)
    requires IsPow2(ISqrt(|vec|))
    ensures IsSquare(h, ISqrt(|vec|))
  {
    var n := ISqrt(|vec|);
    var k := Log2(n);
    var g := Curve(k);
    CurveIsPermutation(k, n, g);
    seq(n, i requires 0 <= i < n =>
      seq(n, j requires 0 <= j < n => vec[Bin(g[i][j], |vec|)]))
  }

  /** Each cell of the re-indexed grid holds the vector entry at the step
      the curve g of side n = 2^k takes there. */
  lemma VectorToHilbertAt<T>(vec: seq<T>, k: nat, g: Grid, i: int, j: int)
    requires IsPow2(ISqrt(|vec|)) && k == Log2(ISqrt(|vec|)) && g == Curve(k)
    requires 0 <= i < Pow2(k) && 0 <= j < Pow2(k)
    ensures IsSquare(g, Pow2(k)) && 0 <= g[i][j] < |vec|
    ensures VectorToHilbert(vec)[i][j] == vec[g[i][j]]
  {
    CurveIsPermutation(k, Pow2(k), g);
  }

  /** Reading a grid of side 2^k back along the curve: entry v of the vector
      comes from the cell of step v. */
  function HilbertToVector<T>(h: seq<seq<T>>, k: nat): (vec: seq<T>)
    requires IsSquare(h, Pow2(k))
    ensures |vec| == Pow4(k)
  {
    seq(Pow4(k), v requires 0 <= v < Pow4(k) => var c := CellOf(k, v); h[c.row][c.col])
  }

  /** A vector of length 4^k laid out on the curve and read back along it is
      unchanged. */
  lemma HilbertRoundTrip<T>(vec: seq<T>, k: nat)
    requires |vec| == Pow4(k)
    ensures IsPow2(ISqrt(|vec|)) && ISqrt(|vec|) == Pow2(k)
    ensures HilbertToVector(VectorToHilbert(vec), k) == vec
  {
    Pow4IsSquare(k);
    ISqrtOfSquare(Pow2(k));
    Log2OfPow2(k, Pow2(k));
    var g := Curve(k);
    var h := VectorToHilbert(vec);
    var back := HilbertToVector(h, k);
    forall v | 0 <= v < Pow4(k)
      ensures back[v] == vec[v]
    {
      var c := CellOf(k, v);
      IndexAtCellOf(k, v);
      CurveMatches(k, g, c);
      VectorToHilbertAt(vec, k, g, c.row, c.col);
    }
  }

  /** A grid of side 2^k read along the curve and laid out again is
      unchanged. */
  lemma VectorRoundTrip<T>(h: seq<seq<T>>, k: nat)
    requires IsSquare(h, Pow2(k))
    ensures var vec := HilbertToVector(h, k);
      IsPow2(ISqrt(|vec|)) && VectorToHilbert(vec) == h
  {
    Pow4IsSquare(k);
    ISqrtOfSquare(Pow2(k));
    Log2OfPow2(k, Pow2(k));
    var g := Curve(k);
    var vec := HilbertToVector(h, k);
    var h' := VectorToHilbert(vec);
    forall i | 0 <= i < Pow2(k)
      ensures h'[i] == h[i]
    {
      forall j | 0 <= j < Pow2(k)
        ensures h'[i][j] == h[i][j]
      {
        var c := Cell(i, j);
        CellOfIndexAt(k, c);
        CurveMatches(k, g, c);
        VectorToHilbertAt(vec, k, g, i, j);
      }
    }
  }
}
