/** The two exporters' per-entry logic. The image export colours every
    vector entry, repeats each colour 4^s times (s is the scale factor) and
    lays the result out on the Hilbert curve, which blows every cell up to a
    2^s x 2^s block. The markup export walks the curve grid row by row and
    gives each cell a colour, a hover label and the popover delay flag. */
module Export {
  import opened Arith
  import opened Grids
  import opened HilbertOrder
  import opened HilbertCurve
  import opened Colors
  import opened Reindex
  import opened Labels

  function Min(a: nat, b: nat): nat {
    if a < b then a else b
  }

  // ---------------------------------------------------------------------
  // Image export
  // ---------------------------------------------------------------------

  /** `list(map(self.__mapColor, vector, colors))`: the colour of every
      entry, as far as both sequences reach. */
  function ColorVector(vector: seq<real>, colors: seq<Rgb>, white: Rgb): (cv: seq<Rgb>)
    ensures |cv| == Min(|vector|, |colors|)
    ensures forall i :: 0 <= i < |cv| ==> cv[i] == MapColor(vector[i], colors[i], white)
  {
    if |vector| == 0 || |colors| == 0 then []
    else [MapColor(vector[0], colors[0], white)] + ColorVector(vector[1..], colors[1..], white)
  }

  /** `[e] * c` */
  function Copies<T>(e: T, c: nat): (r: seq<T>)
    ensures |r| == c
    ensures forall i :: 0 <= i < c ==> r[i] == e
  {
    if c == 0 then [] else [e] + Copies(e, c - 1)
  }

  /** `sum(([e] * c for e in xs), [])`: every entry repeated c times in
      place. */
  function Scale<T>(xs: seq<T>, c: nat): (r: seq<T>)
    ensures |r| == |xs| * c
  {
    if |xs| == 0 then [] else Copies(xs[0], c) + Scale(xs[1..], c)
  }

  /** Entry i of the repeated sequence is entry i / c of the original. */
  lemma {:induction false} ScaleAt<T>(xs: seq<T>, c: nat, i: int)
    requires 0 <= i < |xs| * c
    ensures Scale(xs, c)[i] == xs[i / c]
  {
    assert |xs| > 0 && c > 0;
    var rest := xs[1..];
    var head := Copies(xs[0], c);
    var tail := Scale(rest, c);
    assert Scale(xs, c) == head + tail;
    if i < c {
      DivUnique(i, c, 0, i);
      assert (head + tail)[i] == head[i];
    } else {
      assert |xs| * c == c + |rest| * c;
      assert (head + tail)[i] == tail[i - c];
      ScaleAt(rest, c, i - c);
      DivBelow(i - c, c, |rest|);
      DivAddMultiple(1, i - c, c);
      assert c * 1 + (i - c) == i;
    }
  }

  /** The image of `exportPng` before the cast to bytes: the coloured
      vector repeated 4^s times per entry and laid out on the curve. The
      side of the image must be a power of two, as the curve generator
      requires. */
  function PngImage(vector: seq<real>, colors: seq<Rgb>, white: Rgb, s: nat): (img: seq<seq<Rgb>>)
    requires IsPow2(ISqrt(Min(|vector|, |colors|) * Pow4(s)))
    ensures IsSquare(img, ISqrt(Min(|vector|, |colors|) * Pow4(s)))
  {
    var colored := ColorVector(vector, colors, white);
    VectorToHilbert(Scale(colored, Pow4(s)))
  }

  /** When 4^k entries are coloured, the repeated vector has 4^(k+s)
      entries and the image has side 2^k * 2^s, again a power of two. */
  lemma PngSide(len: nat, k: nat, s: nat)
    requires len == Pow4(k)
    ensures len * Pow4(s) == Pow4(k + s)
    ensures var n := ISqrt(len * Pow4(s));
      n == Pow2(k + s) && n == Pow2(k) * Pow2(s) && IsPow2(n) && Log2(n) == k + s
  {
    Pow4Add(k, s);
    Pow4IsSquare(k + s);
    ISqrtOfSquare(Pow2(k + s));
    Log2OfPow2(k + s, Pow2(k + s));
    Pow2Add(k, s);
  }

  /** For 4^k coloured entries, pixel (i, j) of the image is cell
      (i / 2^s, j / 2^s) of the coloured vector laid out on the curve of
      side 2^k: the image is that grid with each cell blown up to a
      2^s x 2^s block. */
  lemma PngIsUpscaled(vector: seq<real>, colors: seq<Rgb>, white: Rgb, k: nat, s: nat, i: int, j: int)
    requires Min(|vector|, |colors|) == Pow4(k)
    requires 0 <= i < Pow2(k + s) && 0 <= j < Pow2(k + s)
    ensures ISqrt(Min(|vector|, |colors|) * Pow4(s)) == Pow2(k + s)
    ensures IsPow2(ISqrt(Min(|vector|, |colors|) * Pow4(s)))
    ensures var colored := ColorVector(vector, colors, white);
      IsPow2(ISqrt(|colored|)) && ISqrt(|colored|) == Pow2(k) &&
      0 <= i / Pow2(s) < Pow2(k) && 0 <= j / Pow2(s) < Pow2(k) &&
      PngImage(vector, colors, white, s)[i][j] == VectorToHilbert(colored)[i / Pow2(s)][j / Pow2(s)]
  {
    var colored := ColorVector(vector, colors, white);
    var c := Pow4(s);
    var scaled := Scale(colored, c);
    var t := k + s;
    var d := Pow2(s);
    PngSide(|colored|, k, s);
    assert ISqrt(|colored|) == Pow2(k) && Log2(Pow2(k)) == k by {
      Pow4IsSquare(k);
      ISqrtOfSquare(Pow2(k));
      Log2OfPow2(k, Pow2(k));
    }
    var g := Curve(t);
    var h := Curve(k);
    CurveUpsample(k, s, t, g, h, i, j);
    VectorToHilbertAt(scaled, t, g, i, j);
    ScaleAt(colored, c, g[i][j]);
    VectorToHilbertAt(colored, k, h, i / d, j / d);
  }

  /** Pixel (i, j) of the image has the colour of the vector entry whose
      step the curve of side 2^k takes at the block (i / 2^s, j / 2^s). */
  lemma PngPixel(vector: seq<real>, colors: seq<Rgb>, white: Rgb, k: nat, s: nat, i: int, j: int)
    requires Min(|vector|, |colors|) == Pow4(k)
    requires 0 <= i < Pow2(k + s) && 0 <= j < Pow2(k + s)
    ensures ISqrt(Min(|vector|, |colors|) * Pow4(s)) == Pow2(k + s)
    ensures IsPow2(ISqrt(Min(|vector|, |colors|) * Pow4(s)))
    ensures var g := Curve(k); var bi := i / Pow2(s); var bj := j / Pow2(s);
      IsSquare(g, Pow2(k)) && 0 <= bi < Pow2(k) && 0 <= bj < Pow2(k) &&
      0 <= g[bi][bj] < Pow4(k) &&
      PngImage(vector, colors, white, s)[i][j] == MapColor(vector[g[bi][bj]], colors[g[bi][bj]], white)
  {
    var colored := ColorVector(vector, colors, white);
    var g := Curve(k);
    var d := Pow2(s);
    PngIsUpscaled(vector, colors, white, k, s, i, j);
    Log2OfPow2(k, Pow2(k));
    VectorToHilbertAt(colored, k, g, i / d, j / d);
  }

  // ---------------------------------------------------------------------
  // Markup export
  // ---------------------------------------------------------------------

  /** The data of one table cell of `exportHtml`: its background colour,
      its popover text, and whether it carries the popover delay. */
  datatype HtmlCell = HtmlCell(color: Rgb, text: string, delayed: bool)

  /** The cell of the API with vector value `value`, base colour `raw` and
      name parts `api`. An entry whose mapped colour is the white sentinel
      is drawn in the dim colour of value 0.2 and gets the delay; any other
      entry is drawn at its value rescaled into [0.4, 1]. */
  function MarkupCell(value: real, raw: Rgb, white: Rgb, api: seq<string>): (cell: HtmlCell)
  {
    var color := MapColor(value, raw, white);
    var text := Join(api, ':');
    if color == white then HtmlCell(MapColor(0.2, raw, white), text, true)
    else HtmlCell(MapColor(0.4 + value * (1.0 - 0.4), raw, white), text, false)
  }

  /** An absent entry (value 0) is drawn, with the delay, in the 0.2 shade
      of its base colour. */
  lemma MarkupCellAbsent(raw: Rgb, white: Rgb, api: seq<string>)
    requires IsRgb(raw)
    ensures var cell := MarkupCell(0.0, raw, white, api);
      cell.delayed &&
      cell.color == Rgb(Shade(0.2, raw.r), Shade(0.2, raw.g), Shade(0.2, raw.b))
  {
    MapColorIsShade(0.2, raw, white);
  }

  /** With the pure-white sentinel, an entry with a positive value and a
      base colour other than white never takes the absent branch: it is
      drawn at its rescaled value, without the delay. */
  lemma MarkupCellPresentNotDim(value: real, raw: Rgb, api: seq<string>)
    requires 0.0 < value && IsRgb(raw) && raw != FullWhite
    ensures !MarkupCell(value, raw, FullWhite, api).delayed
  {
    if value > 1.0 {
      MapColorSaturates(value, raw, FullWhite);
    } else if value < 1.0 {
      MapColorIsShade(value, raw, FullWhite);
      if raw.r < 255 {
        ShadeBelowWhite(value, raw.r);
      } else if raw.g < 255 {
        ShadeBelowWhite(value, raw.g);
      } else {
        ShadeBelowWhite(value, raw.b);
      }
    }
  }

  /** Every cell's label is the API's name parts joined by ':', and it
      gives the parts back when split, as long as there is at least one and
      none contains ':'. */
  lemma MarkupCellLabel(value: real, raw: Rgb, white: Rgb, api: seq<string>)
    requires |api| >= 1 && forall i :: 0 <= i < |api| ==> ':' !in api[i]
    ensures Split(MarkupCell(value, raw, white, api).text, ':') == api
  {
    SplitJoin(api, ':');
  }

  /** A present entry (value above 0) that is not drawn as absent is drawn
      at least as dark as the 0.4 shade of its base colour, and the 0.2
      shade used for absent entries is at least as light as that 0.4 shade
      in every channel. */
  lemma MarkupCellPresent(value: real, raw: Rgb, white: Rgb, api: seq<string>)
    requires 0.0 < value && IsRgb(raw)
    ensures var cell := MarkupCell(value, raw, white, api);
      !cell.delayed ==>
        cell.color.r <= Shade(0.4, raw.r) && cell.color.g <= Shade(0.4, raw.g) &&
        cell.color.b <= Shade(0.4, raw.b)
    ensures Shade(0.4, raw.r) <= Shade(0.2, raw.r) && Shade(0.4, raw.g) <= Shade(0.2, raw.g) &&
      Shade(0.4, raw.b) <= Shade(0.2, raw.b)
  {
    var shown := 0.4 + value * (1.0 - 0.4);
    assert 0.4 < shown;
    MapColorMonotone(0.4, shown, raw, white);
    MapColorIsShade(0.4, raw, white);
    MapColorMonotone(0.2, 0.4, raw, white);
    MapColorIsShade(0.2, raw, white);
  }

  /** The table of `exportHtml`: rows of the curve grid of side
      n = int(sqrt(len(vector))), each cell showing the entry whose step
      the curve takes there. The colours and names must cover the n * n
      entries shown. */
  function HtmlTable(vector: seq<real>, colors: seq<Rgb>, apis: seq<seq<string>>, white: Rgb)
    : (rows: seq<seq<HtmlCell>>)
    requires IsPow2(ISqrt(|vector|))
    requires ISqrt(|vector|) * ISqrt(|vector|) <= |colors|
    requires ISqrt(|vector|) * ISqrt(|vector|) <= |apis|
    ensures IsSquare(rows, ISqrt(|vector|))
  {
    var n := ISqrt(|vector|);
    var k := Log2(n);
    var g := Curve(k);
    CurveIsPermutation(k, n, g);
    seq(n, i requires 0 <= i < n =>
      seq(n, j requires 0 <= j < n =>
        var index := g[i][j];
        MarkupCell(vector[index], colors[index], white, apis[index])))
  }

  /** The cells of entries 0 .. len - 1 in vector order. */
  function EntryCells(vector: seq<real>, colors: seq<Rgb>, apis: seq<seq<string>>, white: Rgb, len: nat)
    : (cells: seq<HtmlCell>)
    requires len <= |vector| && len <= |colors| && len <= |apis|
    ensures |cells| == len
  {
    seq(len, v requires 0 <= v < len => MarkupCell(vector[v], colors[v], white, apis[v]))
  }

  /** The table is the vector of entry cells laid out on the curve, the
      same re-indexing the image export uses: each entry gets exactly the
      one cell the curve visits at its step. */
  lemma HtmlTableIsHilbert(vector: seq<real>, colors: seq<Rgb>, apis: seq<seq<string>>, white: Rgb, k: nat)
    requires ISqrt(|vector|) == Pow2(k)
    requires Pow4(k) <= |colors| && Pow4(k) <= |apis|
    ensures Pow4(k) == Pow2(k) * Pow2(k) && Pow4(k) <= |vector|
    ensures IsPow2(ISqrt(|vector|)) && ISqrt(Pow4(k)) == Pow2(k) && IsPow2(ISqrt(Pow4(k)))
    ensures HtmlTable(vector, colors, apis, white) == VectorToHilbert(EntryCells(vector, colors, apis, white, Pow4(k)))
  {
    var n := Pow2(k);
    Pow4IsSquare(k);
    ISqrtOfSquare(n);
    Log2OfPow2(k, n);
    var g := Curve(k);
    var cells := EntryCells(vector, colors, apis, white, Pow4(k));
    var table := HtmlTable(vector, colors, apis, white);
    var laid := VectorToHilbert(cells);
    forall i | 0 <= i < n
      ensures table[i] == laid[i]
    {
      forall j | 0 <= j < n
        ensures table[i][j] == laid[i][j]
      {
        VectorToHilbertAt(cells, k, g, i, j);
      }
    }
  }

  /** Entry v of the vector is shown exactly at the cell where the curve
      takes step v, and at no other cell. */
  lemma HtmlTableVisits(vector: seq<real>, colors: seq<Rgb>, apis: seq<seq<string>>, white: Rgb, k: nat, v: int)
    requires ISqrt(|vector|) == Pow2(k)
    requires Pow4(k) <= |colors| && Pow4(k) <= |apis|
    requires 0 <= v < Pow4(k)
    ensures Pow4(k) == Pow2(k) * Pow2(k) && IsPow2(ISqrt(|vector|))
    ensures var c := CellOf(k, v);
      InGrid(c, Pow2(k)) &&
      HtmlTable(vector, colors, apis, white)[c.row][c.col] == MarkupCell(vector[v], colors[v], white, apis[v])
    ensures forall i, j :: 0 <= i < Pow2(k) && 0 <= j < Pow2(k) && Curve(k)[i][j] == v ==>
      Cell(i, j) == CellOf(k, v)
  {
    var n := Pow2(k);
    Pow4IsSquare(k);
    Log2OfPow2(k, n);
    CurveIsPermutation(k, n, Curve(k));
  }
}
