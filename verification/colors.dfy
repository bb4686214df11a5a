/** The colour mapper `__mapColor`: a vector value in [0, 1] shades an API's
    base colour between white (value 0) and the base colour itself
    (value 1). Colours are RGB triples of integers; the context's white
    sentinel is a parameter. Values are idealised from Python floats to
    exact reals. */
module Colors {

  datatype Rgb = Rgb(r: int, g: int, b: int)

  /** A channel value an 8-bit image can hold. */
  predicate IsChannel(c: int) {
    0 <= c <= 255
  }

  predicate IsRgb(c: Rgb) {
    IsChannel(c.r) && IsChannel(c.g) && IsChannel(c.b)
  }

  /** Pure white, which every value below 0 maps to. */
  const FullWhite := Rgb(255, 255, 255)

  /** `max(min(value, 1), 0)` */
  function Clamp(v: real): (a: real)
    ensures 0.0 <= a <= 1.0
    ensures 0.0 <= v <= 1.0 ==> a == v
    ensures v > 1.0 ==> a == 1.0
    ensures v < 0.0 ==> a == 0.0
  {
    var lo := if v < 1.0 then v else 1.0;
    if lo > 0.0 then lo else 0.0
  }

  /** Python's `int()` on a float: truncation toward zero. */
  function Trunc(x: real): (r: int)
    ensures 0.0 <= x ==> 0 <= r && r as real <= x < r as real + 1.0
    ensures x < 0.0 ==> r <= 0 && r as real - 1.0 < x <= r as real
  {
    if x >= 0.0 then x.Floor else -((-x).Floor)
  }

  /** One channel of the blend: `int((1 - alpha) * 255 + alpha * c)`. */
  function Channel(alpha: real, c: int): int {
    Trunc((1.0 - alpha) * 255.0 + alpha * (c as real))
  }

  /** The shade of channel c at opacity alpha, stated independently of
      `__mapColor`'s formula: 255 lowered by alpha times the distance from c to
      white, rounded down. */
  function Shade(alpha: real, c: int): int {
    (255.0 - alpha * ((255 - c) as real)).Floor
  }

  /** Scaling by a non-negative factor keeps the order. */
  lemma MulMonotone(a: real, b: real, d: real)
    requires a <= b && 0.0 <= d
    ensures a * d <= b * d
  {
    assert b * d - a * d == (b - a) * d;
  }

  lemma FloorMonotone(x: real, y: real)
    requires x <= y
    ensures x.Floor <= y.Floor
  {
  }

  /** `__mapColor`'s blend of channel c at opacity alpha is 255 lowered by
      alpha times the distance d from c to white. */
  lemma BlendIsShade(alpha: real, cr: real, d: real)
    requires d == 255.0 - cr
    ensures (1.0 - alpha) * 255.0 + alpha * cr == 255.0 - alpha * d
  {
    assert alpha * d == alpha * 255.0 - alpha * cr;
  }

  /** At an opacity in [0, 1] the shade of a channel value lies between the
      channel value and 255. */
  lemma ShadeBounds(alpha: real, c: int)
    requires 0.0 <= alpha <= 1.0 && IsChannel(c)
    ensures c <= Shade(alpha, c) <= 255
  {
    var d := (255 - c) as real;
    var p := alpha * d;
    MulMonotone(0.0, alpha, d);
    MulMonotone(alpha, 1.0, d);
    FloorMonotone(c as real, 255.0 - p);
    FloorMonotone(255.0 - p, 255.0);
  }

  /** A channel below 255 stays below 255 at any positive opacity. */
  lemma ShadeBelowWhite(alpha: real, c: int)
    requires 0.0 < alpha && IsChannel(c) && c < 255
    ensures Shade(alpha, c) < 255
  {
    var d := (255 - c) as real;
    assert alpha * d > 0.0;
  }

  /** For a channel value and an opacity in [0, 1] `__mapColor`'s blend is the
      shade, and it lies between the base channel and 255. */
  lemma ChannelIsShade(alpha: real, c: int)
    requires 0.0 <= alpha <= 1.0 && IsChannel(c)
    ensures Channel(alpha, c) == Shade(alpha, c)
    ensures c <= Channel(alpha, c) <= 255
  {
    var d := (255 - c) as real;
    var x := 255.0 - alpha * d;
    ShadeBounds(alpha, c);
    assert Channel(alpha, c) == Trunc(x) by {
      BlendIsShade(alpha, c as real, d);
    }
  }

  /** Raising the opacity darkens no channel: the blend is non-increasing in
      alpha. */
  lemma ChannelMonotone(a1: real, a2: real, c: int)
    requires 0.0 <= a1 <= a2 <= 1.0 && IsChannel(c)
    ensures Channel(a2, c) <= Channel(a1, c)
  {
    var d := (255 - c) as real;
    var p1 := a1 * d;
    var p2 := a2 * d;
    MulMonotone(a1, a2, d);
    assert p1 <= p2;
    FloorMonotone(255.0 - p2, 255.0 - p1);
    ChannelIsShade(a1, c);
    ChannelIsShade(a2, c);
  }

  /** `__mapColor(value, color)` with the context's white sentinel `white`:
      1 gives the base colour, 0 gives the sentinel, and any other value is
      clamped to [0, 1] and blended channel by channel. */
  function MapColor(value: real, color: Rgb, white: Rgb): (c: Rgb)
    ensures value == 1.0 ==> c == color
    ensures value == 0.0 ==> c == white
  {
    if value == 1.0 then color
    else if value == 0.0 then white
    else
      var alpha := Clamp(value);
      Rgb(Channel(alpha, color.r), Channel(alpha, color.g), Channel(alpha, color.b))
  }

  /** Values above 1 saturate to the base colour, values below 0 to pure
      white (which need not be the sentinel). */
  lemma MapColorSaturates(value: real, color: Rgb, white: Rgb)
    ensures value > 1.0 ==> MapColor(value, color, white) == color
    ensures value < 0.0 ==> MapColor(value, color, white) == FullWhite
  {
    if value > 1.0 {
      assert Channel(1.0, color.r) == color.r;
      assert Channel(1.0, color.g) == color.g;
      assert Channel(1.0, color.b) == color.b;
    } else if value < 0.0 {
      assert Channel(0.0, color.r) == 255;
      assert Channel(0.0, color.g) == 255;
      assert Channel(0.0, color.b) == 255;
    }
  }

  /** Apart from the value 0, each channel of the result lies between the
      base colour's channel and 255, and equals the shade at the clamped
      value. */
  lemma MapColorIsShade(value: real, color: Rgb, white: Rgb)
    requires value != 0.0 && IsRgb(color)
    ensures var c := MapColor(value, color, white); var a := Clamp(value);
      c == Rgb(Shade(a, color.r), Shade(a, color.g), Shade(a, color.b)) &&
      IsRgb(c) && color.r <= c.r && color.g <= c.g && color.b <= c.b
  {
    var a := Clamp(value);
    ChannelIsShade(a, color.r);
    ChannelIsShade(a, color.g);
    ChannelIsShade(a, color.b);
    if value == 1.0 {
      assert a == 1.0;
    }
  }

  /** Between 0 and 1, a larger value gives a darker (or equal) colour in
      every channel. */
  lemma MapColorMonotone(v1: real, v2: real, color: Rgb, white: Rgb)
    requires 0.0 < v1 <= v2 && IsRgb(color)
    ensures var c1 := MapColor(v1, color, white); var c2 := MapColor(v2, color, white);
      c2.r <= c1.r && c2.g <= c1.g && c2.b <= c1.b
  {
    MapColorIsShade(v1, color, white);
    MapColorIsShade(v2, color, white);
    var a1 := Clamp(v1);
    var a2 := Clamp(v2);
    assert a1 <= a2;
    ChannelMonotone(a1, a2, color.r);
    ChannelMonotone(a1, a2, color.g);
    ChannelMonotone(a1, a2, color.b);
    ChannelIsShade(a1, color.r);
    ChannelIsShade(a1, color.g);
    ChannelIsShade(a1, color.b);
    ChannelIsShade(a2, color.r);
    ChannelIsShade(a2, color.g);
    ChannelIsShade(a2, color.b);
  }
}
