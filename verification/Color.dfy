/** The HSV and HSL units of extensions/DataspaceLib/ColorDataspace.cpp:13-26, 70-159, 189-278,
    over exact reals.  The neutral unit is RGB. */
module Color {
  import opened Reals

  datatype Rgb = Rgb(r: real, g: real, b: real)
  datatype Hsv = Hsv(h: real, s: real, v: real)
  datatype Hsl = Hsl(h: real, s: real, l: real)

  function Largest(c: Rgb): (m: real)
    ensures m >= c.r && m >= c.g && m >= c.b && (m == c.r || m == c.g || m == c.b)
  {
    var m := c.r;
    var m := if m < c.g then c.g else m;
    if m < c.b then c.b else m
  }

  function Smallest(c: Rgb): (m: real)
    ensures m <= c.r && m <= c.g && m <= c.b && (m == c.r || m == c.g || m == c.b)
  {
    var m := c.r;
    var m := if m > c.g then c.g else m;
    if m > c.b then c.b else m
  }

  /** The hue in degrees, from the component that is largest. */
  function Hue(c: Rgb): (h: real)
    requires Largest(c) != Smallest(c)
  {
    var delta := Largest(c) - Smallest(c);
    var h := (
      if c.r == Largest(c) then (c.g - c.b) / delta
      else if c.g == Largest(c) then 2.0 + (c.b - c.r) / delta
      else 4.0 + (c.r - c.g) / delta) * 60.0;
    if h < 0.0 then h + 360.0 else h
  }

  // ---- HSV ----

  function HsvToNeutral(c: Hsv): Rgb {
    var h, s, v := c.h / 360.0, c.s / 100.0, c.v / 100.0;
    if s == 0.0 then Rgb(v, v, v)
    else
      var sixth := h * 6.0;
      var i := sixth.Floor;
      var f := sixth - i as real;
      HsvShades(i, f, s, v)
  }

  function HsvShades(i: int, f: real, s: real, v: real): Rgb {
    HsvSector(i, v, v * (1.0 - s), v * (1.0 - s * f), v * (1.0 - s * (1.0 - f)))
  }

  /** The ladder over the six sectors. */
  function HsvSector(i: int, v: real, v1: real, v2: real, v3: real): Rgb {
    if i == 0 then Rgb(v, v3, v1)
    else if i == 1 then Rgb(v2, v, v1)
    else if i == 2 then Rgb(v1, v, v3)
    else if i == 3 then Rgb(v1, v2, v)
    else if i == 4 then Rgb(v3, v1, v)
    else Rgb(v, v1, v2)
  }

  /** The hue of a grey other than black is 0/0 in the program: here it is whatever
      the caller names. */
  function HsvFromNeutral(c: Rgb, greyHue: real): Hsv {
    var max := Largest(c);
    var delta := max - Smallest(c);
    if max == 0.0 then Hsv(0.0, 0.0, max * 100.0)
    else Hsv(if delta == 0.0 then greyHue else Hue(c), delta / max * 100.0, max * 100.0)
  }

  // ---- HSL ----

  function HlsValue(n1: real, n2: real, hue: real): real {
    var hue := if hue > 360.0 then hue - 360.0 else hue;
    var hue := if hue < 0.0 then hue + 360.0 else hue;
    if hue < 60.0 then n1 + (n2 - n1) * hue / 60.0
    else if hue < 180.0 then n2
    else if hue < 240.0 then n1 + (n2 - n1) * (240.0 - hue) / 60.0
    else n1
  }

  function HslToNeutral(c: Hsl): Rgb {
    var s, l := c.s / 100.0, c.l / 100.0;
    var m2 := Upper(s, l);
    if s == 0.0 then Rgb(l, l, l) else Chromatic(2.0 * l - m2, m2, c.h)
  }

  /** The larger of the two extremes of a colour with this saturation and lightness. */
  function Upper(s: real, l: real): real {
    if l <= 0.5 then l * (1.0 + s) else l + s - l * s
  }

  function Chromatic(m1: real, m2: real, hue: real): Rgb {
    Rgb(HlsValue(m1, m2, hue + 120.0), HlsValue(m1, m2, hue), HlsValue(m1, m2, hue - 120.0))
  }

  /** The program divides by this to get the saturation. */
  function Divisor(c: Rgb): real {
    var sum := Largest(c) + Smallest(c);
    if sum / 2.0 < 0.5 then sum else 2.0 - Largest(c) - Smallest(c)
  }

  function HslFromNeutral(c: Rgb): Hsl
    requires Largest(c) == Smallest(c) || Divisor(c) != 0.0
  {
    var max, min := Largest(c), Smallest(c);
    var l := (max + min) / 2.0;
    if max == min then Hsl(0.0, 0.0, l * 100.0)
    else Hsl(Hue(c), (max - min) / Divisor(c) * 100.0, l * 100.0)
  }

  // ---- the colour wheel ----

  /** A chromatic colour on the colour wheel, in sector i: one component is lo, one is hi,
      and one is the distance x from the extreme the sector starts with. */
  function WheelAt(i: int, x: real, lo: real, hi: real): Rgb {
    if i == 0 then Rgb(hi, lo + x, lo)
    else if i == 1 then Rgb(hi - x, hi, lo)
    else if i == 2 then Rgb(lo, hi, lo + x)
    else if i == 3 then Rgb(lo, hi - x, hi)
    else if i == 4 then Rgb(lo + x, lo, hi)
    else Rgb(hi, lo, hi - x)
  }

  /** The same with the position f within the sector. */
  function Wheel(i: int, f: real, lo: real, hi: real): Rgb {
    WheelAt(i, (hi - lo) * f, lo, hi)
  }

  function Ratio(x: real, d: real): (q: real)
    requires d != 0.0
    ensures q == x / d && d * q == x && (q == 0.0 <==> x == 0.0)
  {
    Divided(x, d);
    x / d
  }

  lemma HueRed(c: Rgb, d: real, q: real)
    requires d == Largest(c) - Smallest(c) > 0.0 && c.r == Largest(c) && c.g - c.b == d * q
    ensures Hue(c) == if q < 0.0 then q * 60.0 + 360.0 else q * 60.0
  {
    hide Largest, Smallest;
    Quotient(c.g - c.b, d, q);
  }

  lemma HueGreen(c: Rgb, d: real, q: real)
    requires d == Largest(c) - Smallest(c) > 0.0 && c.r != Largest(c) && c.g == Largest(c) && q >= -1.0
    requires c.b - c.r == d * q
    ensures Hue(c) == (2.0 + q) * 60.0
  {
    hide Largest, Smallest;
    Quotient(c.b - c.r, d, q);
  }

  lemma HueBlue(c: Rgb, d: real, q: real)
    requires d == Largest(c) - Smallest(c) > 0.0 && c.r != Largest(c) && c.g != Largest(c) && q >= -1.0
    requires c.r - c.g == d * q
    ensures Hue(c) == (4.0 + q) * 60.0
  {
    hide Largest, Smallest;
    Quotient(c.r - c.g, d, q);
  }

  lemma WheelBounds(i: int, x: real, lo: real, hi: real)
    requires 0 <= i < 6 && 0.0 <= x < hi - lo
    ensures Largest(WheelAt(i, x, lo, hi)) == hi && Smallest(WheelAt(i, x, lo, hi)) == lo
  {
  }

  /** The hue of a colour on the wheel is its position. */
  lemma HueAt(i: int, x: real, f: real, d: real, lo: real, hi: real)
    requires 0 <= i < 6 && 0.0 <= f < 1.0 && d == hi - lo > 0.0 && x == d * f
    ensures Largest(WheelAt(i, x, lo, hi)) == hi && Smallest(WheelAt(i, x, lo, hi)) == lo
    ensures Hue(WheelAt(i, x, lo, hi)) == (i as real + f) * 60.0
  {
    hide Largest, Smallest, Hue;
    Fraction(x, d, f);
    WheelBounds(i, x, lo, hi);
    var c := WheelAt(i, x, lo, hi);
    if i == 0 {
      HueRed(c, d, f);
    } else if i == 1 {
      if f == 0.0 { HueRed(c, d, 1.0); } else { HueGreen(c, d, f - 1.0); }
    } else if i == 2 {
      HueGreen(c, d, f);
    } else if i == 3 {
      if f == 0.0 { HueGreen(c, d, 1.0); } else { HueBlue(c, d, f - 1.0); }
    } else if i == 4 {
      HueBlue(c, d, f);
    } else {
      HueRed(c, d, f - 1.0);
    }
  }

  lemma HueOfWheel(i: int, f: real, lo: real, hi: real)
    requires 0 <= i < 6 && 0.0 <= f < 1.0 && lo < hi
    ensures Largest(Wheel(i, f, lo, hi)) == hi && Smallest(Wheel(i, f, lo, hi)) == lo
    ensures Hue(Wheel(i, f, lo, hi)) == (i as real + f) * 60.0
  {
    hide Largest, Smallest, Hue, WheelAt;
    HueAt(i, (hi - lo) * f, f, hi - lo, lo, hi);
  }

  lemma SectorFound(c: Rgb) returns (i: int, x: real)
    requires Largest(c) != Smallest(c)
    ensures 0 <= i < 6 && 0.0 <= x < Largest(c) - Smallest(c) && c == WheelAt(i, x, Smallest(c), Largest(c))
  {
    var lo, hi := Smallest(c), Largest(c);
    if c.r == hi {
      if c.g == hi {
        i, x := 1, 0.0;
      } else if c.g >= c.b {
        i, x := 0, c.g - lo;
      } else {
        i, x := 5, hi - c.b;
      }
    } else if c.g == hi {
      if c.b == hi {
        i, x := 3, 0.0;
      } else if c.b >= c.r {
        i, x := 2, c.b - lo;
      } else {
        i, x := 1, hi - c.r;
      }
    } else if c.r >= c.g {
      i, x := 4, c.r - lo;
    } else {
      i, x := 3, hi - c.g;
    }
  }

  /** Every chromatic colour is on the wheel. */
  lemma OnWheel(c: Rgb) returns (i: int, f: real)
    requires Largest(c) != Smallest(c)
    ensures 0 <= i < 6 && 0.0 <= f < 1.0 && c == Wheel(i, f, Smallest(c), Largest(c))
    ensures Hue(c) == (i as real + f) * 60.0
  {
    hide Largest, Smallest, Hue, Ratio, Wheel, WheelAt;
    var lo, hi, x := Smallest(c), Largest(c), 0.0;
    i, x := SectorFound(c);
    var d := hi - lo;
    f := Ratio(x, d);
    Fraction(x, d, f);
    HueAt(i, x, f, d, lo, hi);
    WheelIs(i, x, f, d, lo, hi);
  }

  /** The largest and the smallest component. */
  ghost predicate Extremes(c: Rgb, max: real, min: real) {
    && max >= c.r >= min && max >= c.g >= min && max >= c.b >= min
    && max in {c.r, c.g, c.b} && min in {c.r, c.g, c.b}
  }

  /** A hue in degrees, times the distance of the extremes: red at 0, green at 120, blue at 240,
      and in between by the distance of the middle component from the others. */
  ghost predicate HueFits(c: Rgb, max: real, min: real, hue: real) {
    var d := max - min;
    && (c.r == max ==> hue == 60.0 * (c.g - c.b) + if c.g < c.b then 360.0 * d else 0.0)
    && (c.g == max ==> hue == 60.0 * (c.b - c.r) + 120.0 * d)
    && (c.b == max ==> hue == 60.0 * (c.r - c.g) + 240.0 * d)
  }

  lemma HueMeans(c: Rgb, max: real, min: real, d: real, hue: real)
    requires max == Largest(c) && min == Smallest(c) && d == max - min != 0.0 && hue == Hue(c) * d
    ensures 0.0 <= Hue(c) < 360.0 && HueFits(c, max, min, hue)
  {
    hide Largest, Smallest, Hue, Wheel, WheelAt, HueFits;
    var i, x, f := OnWheelAt(c, d);
    HueTimes(i, f, d, x, Hue(c));
    HueOnWheel(c, i, x, min, max, hue);
  }

  lemma OnWheelAt(c: Rgb, d: real) returns (i: int, x: real, f: real)
    requires d == Largest(c) - Smallest(c) != 0.0
    ensures 0 <= i < 6 && 0.0 <= f < 1.0 && x == d * f && Hue(c) == (i as real + f) * 60.0
    ensures 0.0 <= x < d && c == WheelAt(i, x, Smallest(c), Largest(c))
  {
    hide Largest, Smallest, Hue, Wheel, WheelAt;
    i, f := OnWheel(c);
    x := d * f;
    Fraction(x, d, f);
    WheelIs(i, x, f, d, Smallest(c), Largest(c));
  }

  lemma HueTimes(i: int, f: real, d: real, x: real, h: real)
    requires 0 <= i < 6 && h == (i as real + f) * 60.0 && x == d * f
    ensures h * d == 60.0 * x + [0.0, 60.0 * d, 120.0 * d, 180.0 * d, 240.0 * d, 300.0 * d][i]
  {
    var k := i as real;
    assert h == 60.0 * k + 60.0 * f;
    Distribute(d, 60.0 * k, 60.0 * f);
    assert d * (60.0 * f) == 60.0 * x;
  }

  lemma HueOnWheel(c: Rgb, i: int, x: real, lo: real, hi: real, hue: real)
    requires 0 <= i < 6 && 0.0 <= x < hi - lo && c == WheelAt(i, x, lo, hi)
    requires var d := hi - lo; hue == 60.0 * x + [0.0, 60.0 * d, 120.0 * d, 180.0 * d, 240.0 * d, 300.0 * d][i]
    ensures HueFits(c, hi, lo, hue)
  {
  }

  lemma WheelIs(i: int, x: real, f: real, d: real, lo: real, hi: real)
    requires d == hi - lo && x == d * f
    ensures Wheel(i, f, lo, hi) == WheelAt(i, x, lo, hi)
  {
    hide WheelAt;
    assert (hi - lo) * f == x;
  }

  lemma SectorOf(i: int, f: real, h: real)
    requires 0.0 <= f < 1.0 && h == (i as real + f) * 60.0
    ensures (h / 360.0 * 6.0).Floor == i && h / 360.0 * 6.0 - i as real == f
  {
    assert h / 360.0 * 6.0 == i as real + f;
  }

  /** The HSV unit's output is on the wheel. */
  lemma HsvOnWheel(c: Hsv, i: int, f: real, lo: real, hi: real)
    requires i == (c.h / 360.0 * 6.0).Floor && f == c.h / 360.0 * 6.0 - i as real
    requires hi == c.v / 100.0 && lo == hi - hi * (c.s / 100.0)
    ensures HsvToNeutral(c) == Wheel(i, f, lo, hi)
  {
    hide HsvShades, Wheel;
    var s := c.s / 100.0;
    if s == 0.0 {
      GreyWheel(i, f, hi);
    } else {
      ShadesOnWheel(i, f, s, hi, lo);
    }
  }

  lemma ShadesOnWheel(i: int, f: real, s: real, v: real, lo: real)
    requires lo == v - v * s
    ensures HsvShades(i, f, s, v) == Wheel(i, f, lo, v)
  {
    hide HsvSector, Wheel, WheelAt;
    var d := v - lo;
    WheelIs(i, d * f, f, d, lo, v);
    Shades(s, v, f, lo, d);
    SectorIs(i, d * f, lo, v);
  }

  lemma SectorIs(i: int, x: real, lo: real, hi: real)
    ensures HsvSector(i, hi, lo, hi - x, lo + x) == WheelAt(i, x, lo, hi)
  {
  }

  lemma GreyWheel(i: int, f: real, v: real)
    ensures Wheel(i, f, v, v) == Rgb(v, v, v)
  {
    assert v - v == 0.0;
  }

  lemma Shades(s: real, v: real, f: real, lo: real, d: real)
    requires lo == v - v * s && d == v - lo
    ensures v * (1.0 - s) == lo
    ensures v * (1.0 - s * f) == v - d * f
    ensures v * (1.0 - s * (1.0 - f)) == lo + d * f
  {
    Distribute(v, 1.0, s);
    Distribute(v, 1.0, s * f);
    Distribute(v, 1.0, s * (1.0 - f));
    Associate(v, s, f);
    Associate(v, s, 1.0 - f);
    Distribute(d, 1.0, f);
    assert d == v * s;
  }

  /** RGB to HSV and back gives the colour again, whatever the hue of a grey, unless
      the largest component is 0 and another is negative. */
  lemma RgbHsvRgb(c: Rgb, greyHue: real)
    ensures HsvToNeutral(HsvFromNeutral(c, greyHue)) == c <==> Largest(c) != 0.0 || Smallest(c) == 0.0
  {
    hide Largest, Smallest, Hue;
    if Largest(c) == Smallest(c) {
      assert c == Rgb(Largest(c), Largest(c), Largest(c));
    } else if Largest(c) != 0.0 {
      ChromaticHsv(c, greyHue);
    }
  }

  lemma ChromaticHsv(c: Rgb, greyHue: real)
    requires Largest(c) != Smallest(c) && Largest(c) != 0.0
    ensures HsvToNeutral(HsvFromNeutral(c, greyHue)) == c
  {
    hide Largest, Smallest, Hue, Wheel, HsvToNeutral;
    var max, min := Largest(c), Smallest(c);
    var x := HsvFromNeutral(c, greyHue);
    var s := Ratio(max - min, max);
    assert x.s / 100.0 == s && x.v / 100.0 == max;
    var i, f := OnWheel(c);
    SectorOf(i, f, x.h);
    assert x.v / 100.0 - x.v / 100.0 * (x.s / 100.0) == max - max * s == min;
    HsvOnWheel(x, i, f, min, max);
  }

  /** HSV to RGB and back gives the same hue, saturation and value exactly when the
      colour is chromatic; black comes back with hue and saturation 0, and a grey
      with the arbitrary hue. */
  lemma HsvRgbHsv(c: Hsv, greyHue: real)
    requires 0.0 <= c.h < 360.0 && 0.0 <= c.s <= 100.0 && 0.0 <= c.v <= 100.0
    ensures HsvFromNeutral(HsvToNeutral(c), greyHue) == c <==>
      if c.v == 0.0 then c.h == 0.0 && c.s == 0.0
      else if c.s == 0.0 then c.h == greyHue
      else true
  {
    hide Wheel, Hue, Largest, Smallest;
    var sixth, s, v := c.h / 360.0 * 6.0, c.s / 100.0, c.v / 100.0;
    var i := sixth.Floor;
    var f, lo := sixth - i as real, v - v * s;
    HsvOnWheel(c, i, f, lo, v);
    if c.s != 0.0 && c.v != 0.0 {
      Positive(v, s);
      HueOfWheel(i, f, lo, v);
      Quotient(v - lo, v, s);
      assert (i as real + f) * 60.0 == c.h;
    }
  }

  /** A whole turn does not matter, 360 degrees included. */
  lemma HlsTurn(n1: real, n2: real, hue: real)
    ensures 360.0 <= hue < 720.0 ==> HlsValue(n1, n2, hue) == HlsValue(n1, n2, hue - 360.0)
    ensures -360.0 < hue < 0.0 ==> HlsValue(n1, n2, hue) == HlsValue(n1, n2, hue + 360.0)
  {
    if hue == 360.0 {
      assert (n2 - n1) * 0.0 / 60.0 == 0.0;
    }
  }

  function HlsSector(n1: real, n2: real, i: int, f: real): real {
    if i == 0 then n1 + (n2 - n1) * f
    else if i == 1 || i == 2 then n2
    else if i == 3 then n2 - (n2 - n1) * f
    else n1
  }

  lemma HlsBySector(n1: real, n2: real, i: int, f: real)
    requires 0 <= i < 6 && 0.0 <= f < 1.0
    ensures HlsValue(n1, n2, (i as real + f) * 60.0) == HlsSector(n1, n2, i, f)
  {
    var d, hue := n2 - n1, (i as real + f) * 60.0;
    assert i == 0 ==> d * hue / 60.0 == d * f by {
      assert d * (f * 60.0) / 60.0 == d * f;
    }
    assert i == 3 ==> d * (240.0 - hue) / 60.0 == d - d * f by {
      assert d * ((1.0 - f) * 60.0) / 60.0 == d * (1.0 - f) == d - d * f;
    }
  }

  /** The HSL unit's three calls of hls_value are the three components of the wheel. */
  lemma HslOnWheel(n1: real, n2: real, i: int, f: real, hue: real)
    requires 0 <= i < 6 && 0.0 <= f < 1.0 && hue == (i as real + f) * 60.0
    ensures Chromatic(n1, n2, hue) == Wheel(i, f, n1, n2)
  {
    hide HlsValue;
    var red, blue := if i < 4 then i + 2 else i - 4, if i < 2 then i + 4 else i - 2;
    HlsTurn(n1, n2, hue + 120.0);
    HlsTurn(n1, n2, hue - 120.0);
    HlsBySector(n1, n2, red, f);
    HlsBySector(n1, n2, i, f);
    HlsBySector(n1, n2, blue, f);
    assert (red as real + f) * 60.0 == if i < 4 then hue + 120.0 else hue + 120.0 - 360.0;
    assert (blue as real + f) * 60.0 == if i < 2 then hue - 120.0 + 360.0 else hue - 120.0;
  }

  /** The saturation and lightness that belong to the extremes, and back. */
  lemma SaturationOf(lo: real, hi: real, s: real, l: real)
    requires l == (lo + hi) / 2.0
    requires hi - lo == (if l < 0.5 then lo + hi else 2.0 - hi - lo) * s
    ensures hi == Upper(s, l)
  {
    if l < 0.5 {
      assert 2.0 * l * s == hi - lo;
      assert l * (1.0 + s) == l + l * s;
    } else {
      assert (2.0 - 2.0 * l) * s == hi - lo;
      assert (2.0 - 2.0 * l) * s == 2.0 * (s - l * s);
      if l == 0.5 {
        assert l * s == 0.5 * s;
      }
    }
  }

  lemma ExtremesOf(lo: real, hi: real, s: real, l: real)
    requires hi == Upper(s, l)
    requires lo == 2.0 * l - hi
    ensures l == (lo + hi) / 2.0
    ensures hi - lo == (if l < 0.5 then lo + hi else 2.0 - hi - lo) * s
  {
    assert l <= 0.5 ==> hi - l == l * s;
    assert l > 0.5 ==> hi - l == s - l * s;
    assert (2.0 - 2.0 * l) * s == 2.0 * (s - l * s);
    if l == 0.5 {
      assert l * s == 0.5 * s;
    }
  }

  lemma HslToNeutralIs(c: Hsl, s: real, l: real, lo: real, hi: real, i: int, f: real)
    requires s == c.s / 100.0 && l == c.l / 100.0 && s != 0.0 && lo == 2.0 * l - hi
    requires hi == Upper(s, l)
    requires 0 <= i < 6 && 0.0 <= f < 1.0 && c.h == (i as real + f) * 60.0
    ensures HslToNeutral(c) == Wheel(i, f, lo, hi)
  {
    hide Chromatic, Wheel, Upper;
    HslOnWheel(lo, hi, i, f, c.h);
  }

  /** RGB to HSL and back gives the colour again, wherever the program does not
      divide by zero; in particular for components from 0 to 1. */
  lemma RgbHslRgb(c: Rgb)
    requires Largest(c) == Smallest(c) || Divisor(c) != 0.0
    ensures HslToNeutral(HslFromNeutral(c)) == c
  {
    hide Largest, Smallest, Hue, HlsValue;
    if Largest(c) != Smallest(c) {
      ChromaticHsl(c);
    }
  }

  lemma ChromaticHsl(c: Rgb)
    requires Largest(c) != Smallest(c) && Divisor(c) != 0.0
    ensures HslToNeutral(HslFromNeutral(c)) == c
  {
    hide Largest, Smallest, Hue, Wheel, HslToNeutral, Upper;
    var lo, hi := Smallest(c), Largest(c);
    var x := HslFromNeutral(c);
    var s, l := Ratio(hi - lo, Divisor(c)), (hi + lo) / 2.0;
    assert x.s / 100.0 == s && x.l / 100.0 == l && s != 0.0;
    SaturationOf(lo, hi, s, l);
    var i, f := OnWheel(c);
    HslToNeutralIs(x, s, l, lo, hi, i, f);
  }

  lemma ExtremesAre(c: Rgb, max: real, min: real)
    requires Extremes(c, max, min)
    ensures Largest(c) == max && Smallest(c) == min
  {
  }

  /** Written out: the HSV unit's hue, saturation and value of a chromatic colour. */
  lemma HsvMeans(c: Rgb, max: real, min: real, d: real, greyHue: real)
    requires Extremes(c, max, min) && d == max - min != 0.0 && max != 0.0
    ensures var x := HsvFromNeutral(c, greyHue);
      && x.v == 100.0 * max && x.s * max == 100.0 * d
      && 0.0 <= x.h < 360.0 && HueFits(c, max, min, x.h * d)
  {
    hide Largest, Smallest, Hue, HueFits;
    ExtremesAre(c, max, min);
    SameFactor(HsvFromNeutral(c, greyHue).h, Hue(c), d);
    HueMeans(c, max, min, d, HsvFromNeutral(c, greyHue).h * d);
    Divided(d, max);
  }

  /** Written out: the HSL unit's hue, saturation and lightness of a chromatic colour. */
  lemma HslMeans(c: Rgb, max: real, min: real, d: real, divisor: real)
    requires Extremes(c, max, min) && d == max - min != 0.0
    requires divisor == (if max + min < 1.0 then max + min else 2.0 - max - min) != 0.0
    ensures Divisor(c) != 0.0
    ensures var x := HslFromNeutral(c);
      && x.l == 50.0 * (max + min) && x.s * divisor == 100.0 * d
      && 0.0 <= x.h < 360.0 && HueFits(c, max, min, x.h * d)
  {
    hide Largest, Smallest, Hue, HueFits;
    ExtremesAre(c, max, min);
    SameFactor(HslFromNeutral(c).h, Hue(c), d);
    HueMeans(c, max, min, d, HslFromNeutral(c).h * d);
    Divided(d, divisor);
  }

  /** Written out: a colour without saturation is grey, whatever its hue, and one without value
      is black. */
  lemma HsvGrey(c: Hsv)
    ensures c.s == 0.0 ==> HsvToNeutral(c) == Rgb(c.v / 100.0, c.v / 100.0, c.v / 100.0)
    ensures c.v == 0.0 ==> HsvToNeutral(c) == Rgb(0.0, 0.0, 0.0)
  {
  }

  /** A colour without saturation is grey, whatever its hue; without lightness any colour is
      black, and with all of it white. */
  lemma HslGrey(c: Hsl)
    ensures c.s == 0.0 ==> HslToNeutral(c) == Rgb(c.l / 100.0, c.l / 100.0, c.l / 100.0)
    ensures c.l == 0.0 ==> HslToNeutral(c) == Rgb(0.0, 0.0, 0.0)
    ensures c.l == 100.0 ==> HslToNeutral(c) == Rgb(1.0, 1.0, 1.0)
  {
    hide HlsValue;
    FlatHls(0.0, c.h);
    FlatHls(1.0, c.h);
    var s := c.s / 100.0;
    assert Upper(s, 0.0) == 0.0 && Upper(s, 1.0) == 1.0;
  }

  lemma FlatHls(n: real, hue: real)
    ensures Chromatic(n, n, hue) == Rgb(n, n, n)
  {
  }

  lemma UnitDivides(c: Rgb)
    requires 0.0 <= Smallest(c) && Largest(c) <= 1.0
    ensures Largest(c) == Smallest(c) || Divisor(c) > 0.0
  {
  }

  lemma Spread(s: real, l: real, lo: real, hi: real)
    requires 0.0 < s <= 1.0 && 0.0 <= l <= 1.0 && lo == 2.0 * l - hi
    requires hi == Upper(s, l)
    ensures l == (lo + hi) / 2.0
    ensures 0.0 < l < 1.0 ==> lo < hi
    ensures l == 0.0 || l == 1.0 ==> lo == hi == l
    ensures var d := if l < 0.5 then lo + hi else 2.0 - hi - lo;
      hi - lo == d * s && (0.0 < l < 1.0 ==> d > 0.0)
  {
    ExtremesOf(lo, hi, s, l);
    var d := if l < 0.5 then lo + hi else 2.0 - hi - lo;
    if 0.0 < l < 1.0 {
      Positive(d, s);
    }
  }

  /** HSL to RGB and back gives the same colour exactly when it is chromatic, or was
      a grey with hue and saturation 0 already. */
  lemma HslRgbHsl(c: Hsl)
    requires 0.0 <= c.h < 360.0 && 0.0 <= c.s <= 100.0 && 0.0 <= c.l <= 100.0
    ensures var x := HslToNeutral(c); Largest(x) == Smallest(x) || Divisor(x) != 0.0
    ensures HslFromNeutral(HslToNeutral(c)) == c <==>
      (c.s > 0.0 && 0.0 < c.l < 100.0) || (c.s == 0.0 && c.h == 0.0)
  {
    hide Hue, HlsValue, Wheel;
    if c.s != 0.0 {
      SaturatedHsl(c);
    }
  }

  lemma SaturatedHsl(c: Hsl)
    requires 0.0 <= c.h < 360.0 && 0.0 < c.s <= 100.0 && 0.0 <= c.l <= 100.0
    ensures var x := HslToNeutral(c); Largest(x) == Smallest(x) || Divisor(x) != 0.0
    ensures HslFromNeutral(HslToNeutral(c)) == c <==> 0.0 < c.l < 100.0
  {
    hide Largest, Smallest, Hue, Wheel, HslToNeutral, Upper;
    var s, l := c.s / 100.0, c.l / 100.0;
    var hi := Upper(s, l);
    var lo := 2.0 * l - hi;
    var i := (c.h / 60.0).Floor;
    var f := c.h / 60.0 - i as real;
    HslToNeutralIs(c, s, l, lo, hi, i, f);
    Spread(s, l, lo, hi);
    if 0.0 < l < 1.0 {
      HueOfWheel(i, f, lo, hi);
      Quotient(hi - lo, if l < 0.5 then lo + hi else 2.0 - hi - lo, s);
    } else {
      GreyWheel(i, f, l);
    }
  }
}
