# Hilbert-curve rendering of API vectors (apiscout `ApiQR`)

apiscout turns a vector of API weights into a picture. The vector has one
weight per API of a fixed list. `ApiQR` lays the vector out along a
Hilbert curve, so that APIs that are neighbours in the list stay
neighbours in the picture. It then colours every cell from the API's
base colour.

This project models the pure core of `ApiQR` in Dafny and proves what
that core promises. The modules follow the code:

- `HilbertCurve` is the grid generator `__hilbertCurve`, built with
  numpy's `flipud`, `rot90`, `hstack` and `vstack`. Those numpy
  operations live in `Grids`.
- `HilbertOrder` is an independent definition of the same curve, cell by
  cell. It is given in both directions: from a cell to its step, and from
  a step to its cell. The generator's grid is proved equal to it, and the
  curve's properties are proved there: it is a permutation, it is
  continuous, it has fixed end points, and it behaves well under
  upscaling.
- `Colors` is the colour mapper `__mapColor`.
- `Reindex` is `__vectorToHilbert`. This includes `np.digitize(...,
  right=True)` against the bins `0 .. len - 1`.
- `Labels` is the `":".join` of an API's name parts, with `str.split` as
  its inverse.
- `Export` covers the two exporters' per-entry logic:
  - `exportPng`'s colouring and 4^s-fold repetition;
  - `exportHtml`'s choice of colour, label and delay for each cell, row
    by row over the curve.
- `Arith` holds powers of two and four, the integer square root, and
  division facts.

Sizes follow the code. The grid side is `int(len(vector) ** 0.5)`,
modelled as the exact integer square root `ISqrt`. The generator is
documented for powers of two only, so that is a precondition
(`IsPow2`). The curve of side `2^k` is `Curve(k)`, and
`HilbertCurve(n)` is `Curve(Log2(n))`.

## Model

| member | source | states |
|---|---|---|
| HilbertCurve.HilbertCurve | apiscout/ApiQR.py:123-134 | for a power-of-two n, the generator returns an n x n grid |
| HilbertCurve.AssembleAt | apiscout/ApiQR.py:130-134 | one level of the generator places the transpose of t top left, t + size top right, t + 2*size bottom right and the anti-transpose plus 3*size bottom left |
| HilbertCurve.CurveMatches | apiscout/ApiQR.py:123-134 | each cell of the generated grid holds the step at which the independently defined Hilbert order visits that cell |
| HilbertCurve.CurveQuarterRange | apiscout/ApiQR.py:130-134 | quarter q of the grid (top left, top right, bottom right, bottom left) holds only steps from q*m*m up to (q+1)*m*m - 1 |
| HilbertCurve.CurveQuarterHoldsAll | apiscout/ApiQR.py:130-134 | every step from q*m*m up to (q+1)*m*m - 1 is held by a cell of quarter q |
| HilbertCurve.CurveIsPermutation | apiscout/ApiQR.py:123-134 | the grid of side n holds every number 0 .. n*n - 1 exactly once: each entry is in range, each step has a cell, and no two cells share a step |
| HilbertCurve.CurveEnds | apiscout/ApiQR.py:128-134 | step 0 is in the top-left corner and step n*n - 1 is in the bottom-left corner |
| HilbertCurve.CurveIsContinuous | apiscout/ApiQR.py:123-134 | cells holding consecutive steps share an edge |
| HilbertCurve.CurveUpsample | apiscout/ApiQR.py:123-134 | the grid of side 2^(k+s) divided by 4^s is the grid of side 2^k with each cell blown up to a 2^s x 2^s block |
| HilbertOrder.IndexAtCellOf | apiscout/ApiQR.py:123-134 | the step of the cell visited at step v is v |
| HilbertOrder.CellOfIndexAt | apiscout/ApiQR.py:123-134 | the cell visited at the step of cell c is c |
| HilbertOrder.CellOfEnds | apiscout/ApiQR.py:128-134 | the curve enters at the top-left corner and leaves at the bottom-left corner |
| HilbertOrder.CellOfContinuous | apiscout/ApiQR.py:123-134 | consecutive steps visit adjacent cells |
| HilbertOrder.IndexAtNeighbours | apiscout/ApiQR.py:123-134 | cells whose steps differ by one are adjacent |
| HilbertOrder.IndexAtCoarsen | apiscout/ApiQR.py:129-134 | halving a cell's coordinates divides its step by four |
| HilbertOrder.IndexAtUpsample | apiscout/ApiQR.py:129-134 | dividing a cell's coordinates by 2^s divides its step by 4^s |
| Grids.FlipRot90IsTranspose | apiscout/ApiQR.py:130 | `flipud(rot90(t))` is the transpose of t |
| Grids.FlipRot90CwIsAntiTranspose | apiscout/ApiQR.py:133 | `flipud(rot90(t, -1))` is the reflection of t in its anti-diagonal |
| Grids.BlockAt | apiscout/ApiQR.py:134 | an entry of `vstack(map(hstack, [[a, b], [d, c]]))` comes from the block its row and column fall in |
| Colors.MapColor | apiscout/ApiQR.py:102-104 | value 1 gives the base colour and value 0 gives the white sentinel |
| Colors.MapColorSaturates | apiscout/ApiQR.py:105-110 | values above 1 give the base colour and values below 0 give pure white (255, 255, 255) |
| Colors.MapColorIsShade | apiscout/ApiQR.py:105-110 | for any value other than 0, each channel is 255 lowered by the clamped value times the channel's distance to white, rounded down; it lies between the base channel and 255 |
| Colors.ChannelIsShade | apiscout/ApiQR.py:107-109 | `__mapColor`'s blend `int((1 - a) * 255 + a * c)` equals the shade of c at opacity a and lies in [c, 255] |
| Colors.ChannelMonotone | apiscout/ApiQR.py:107-109 | a higher opacity never gives a lighter channel |
| Colors.MapColorMonotone | apiscout/ApiQR.py:105-110 | between 0 and 1, a larger value gives a colour at least as dark in every channel |
| Colors.Clamp | apiscout/ApiQR.py:105 | `max(min(v, 1), 0)` lies in [0, 1], keeps values already in it, and saturates the rest |
| Colors.Trunc | apiscout/ApiQR.py:107-109 | Python's `int()` of a float truncates toward zero |
| Reindex.Digitize | apiscout/ApiQR.py:120 | `np.digitize(x, bins, right=True)` gives the index of the first bin not below x |
| Reindex.DigitizeIdentity | apiscout/ApiQR.py:120 | against the bins 0 .. len - 1, a valid index is digitised to itself |
| Reindex.VectorToHilbertAt | apiscout/ApiQR.py:116-121 | cell (i, j) of the re-indexed grid holds the vector entry at the curve's step at (i, j) |
| Reindex.HilbertRoundTrip | apiscout/ApiQR.py:116-121 | a vector of length 4^k, laid out on the curve and read back along it, is unchanged |
| Reindex.VectorRoundTrip | apiscout/ApiQR.py:116-121 | a grid of side 2^k, read along the curve and laid out again, is unchanged |
| Labels.SplitJoin | apiscout/ApiQR.py:83 | splitting the joined label at ':' gives back the API's name parts, if there is at least one part and none contains ':' |
| Labels.JoinSplit | apiscout/ApiQR.py:83 | joining the pieces of any string at ':' gives back the string |
| Labels.JoinLength | apiscout/ApiQR.py:86 | a label is as long as its parts plus one separator between each two of them |
| Export.ColorVector | apiscout/ApiQR.py:57 | the coloured vector is as long as the shorter of the vector and the colour list, and entry i is entry i's value mapped with colour i |
| Export.ScaleAt | apiscout/ApiQR.py:58 | entry i of the repeated vector is entry i / c of the coloured vector |
| Export.PngSide | apiscout/ApiQR.py:58-59 | repeating 4^k entries 4^s times gives 4^(k+s) entries, so the image side is 2^k * 2^s, again a power of two |
| Export.PngIsUpscaled | apiscout/ApiQR.py:57-59 | pixel (i, j) of the image is cell (i / 2^s, j / 2^s) of the coloured vector laid out on the curve of side 2^k |
| Export.PngPixel | apiscout/ApiQR.py:57-59 | pixel (i, j) has the mapped colour of the entry whose step the curve of side 2^k takes at block (i / 2^s, j / 2^s) |
| Export.MarkupCellAbsent | apiscout/ApiQR.py:79-84 | an entry with value 0 gets the delay and the 0.2 shade of its base colour |
| Export.MarkupCellPresent | apiscout/ApiQR.py:85-90 | a positive entry not drawn as absent is at least as dark as the 0.4 shade of its base colour, and the 0.2 shade used for absent entries is at least as light as the 0.4 shade in every channel |
| Export.MarkupCellPresentNotDim | apiscout/ApiQR.py:79-90 | with the pure-white sentinel, an entry with a positive value and a non-white base colour is never drawn as absent: it takes the branch that rescales its value into [0.4, 1] |
| Export.MarkupCellLabel | apiscout/ApiQR.py:83-86 | a cell's label splits back into the API's name parts |
| Export.HtmlTableIsHilbert | apiscout/ApiQR.py:75-90 | the table, row by row over the curve grid, is the per-entry cells laid out on the curve |
| Export.HtmlTableVisits | apiscout/ApiQR.py:75-90 | entry v appears exactly once in the table, at the cell where the curve takes step v |

## Left out

- File and image output. `Image.fromarray`, the PNG writer, the HTML
  string templating, the `<style>` and `<script>` text, reading the HTML
  frame and CSS files, and writing the result are all I/O. The model
  stops at the grid of colours and at the per-cell (colour, label,
  delay) data.
- The `np.int8` cast in `exportPng`, which wraps channel values above
  127. It is a storage detail of the image library.
  `Export.PngImage` is the image before the cast.
- `ApiVector` (compress and decompress) and `ApiQRContext` are not part
  of this model. The colours, labels and white sentinel are immutable
  parameters. `setVector`, `__init__` and the full-page branch of
  `exportHtml` depend on them.
- The operators `__add__`, `__mul__` and `__div__` (apiscout/ApiQR.py
  lines 136-154). They are element-wise maps, and as written they cannot
  run: they pass a `context` argument to the constructor, which takes
  none.
- `__str__` and `__repr__`, which only format text.
- The `vector_hilbert` property, which only calls `__vectorToHilbert`.
- Floating point. Vector values and colour opacities are exact reals.
  `int(len(vector) ** 0.5)` is the exact integer square root `ISqrt`,
  which agrees with the float computation only while the float square
  root is exact enough.
- Values given as Python booleans. `__mapColor` treats `True` and
  `False` like 1 and 0, and reals cover that.
- HilbertCurve.HilbertCurve: covers only powers of two, the sizes the
  docstring allows. For other positive n the generator returns the grid
  of the largest power of two below n. For n <= 0 the recursion never
  reaches the base case (`0 // 2 == 0` and `-1 // 2 == -1`), and Python
  raises `RecursionError`.
- HilbertCurve.Curve: ignores the grid's numpy dtype. The base grid is
  `np.int32`, and the offsets `t.size*2` and `t.size*3` exceed that
  width from n = 2^16 on; depending on the numpy version the result is
  then promoted or an `OverflowError` is raised. The model uses
  unbounded integers. It also follows the numpy versions that accept the
  `map` iterator passed to `np.vstack` on line 134; numpy 1.16 deprecated
  that, and later versions raise `TypeError` there for every n >= 2.
- The `element_size` reshape in `__vectorToHilbert`. The model keeps
  each entry whole, of any type, instead of splitting it into a trailing
  numpy axis.
- Export.HtmlTable: requires the colour and name lists to cover the
  n * n entries shown. `exportHtml` raises `IndexError` otherwise.
- Export.PngIsUpscaled: stated for coloured vectors of length 4^k, the
  only lengths whose repeated vector has a power-of-two side for every
  scale factor. `Export.PngImage` itself takes any length that gives a
  power-of-two side.
- Negative scale factors. The scale factor is a natural number here,
  whereas Python's `4 ** -1` is a float that cannot repeat a list.

## Notes

- `__vectorToHilbert` and `exportHtml` never check that the vector
  length is a perfect square. The side is `int(len(vector) ** 0.5)`, and
  entries past side * side are not shown.
- `__mapColor` truncates each channel with `int()`. It does not round.
- The markup export picks the dim colour when the mapped colour equals
  the white sentinel. A base colour equal to the sentinel is therefore
  drawn dim at value 0 and at every value of 1 or more. When the sentinel
  is pure white (255, 255, 255), such a base colour is drawn dim at every
  value. Any other value whose blend happens to equal the sentinel is
  also drawn dim.
