/** TTInfWrap and TTFold of library/includes/TTLimits.h:142-175 over exact reals; fmod and
    remainder as in sections 7.12.10.1 and 7.12.10.2 of ISO/IEC 9899:1999. */
module Limits {
  import opened Reals

  function Abs(x: real): real {
    if x < 0.0 then 0.0 - x else x
  }

  function Times(k: int, range: real): real {
    k as real * range
  }

  lemma TimesMeans(k: int, range: real)
    requires range > 0.0
    ensures k >= 1 ==> Times(k, range) >= range
    ensures k <= -1 ==> Times(k, range) <= 0.0 - range
    ensures Times(0, range) == 0.0 && Times(1, range) == range
    ensures k >= 2 ==> Times(k, range) >= 2.0 * range
    ensures k <= -2 ==> Times(k, range) <= 0.0 - 2.0 * range
  {
    var r := k as real;
    SameSign(range, r - 1.0);
    SameSign(range, r - 2.0);
    SameSign(range, r + 1.0);
    SameSign(range, r + 2.0);
    assert (r - 1.0) * range == Times(k, range) - range && (r - 2.0) * range == Times(k, range) - 2.0 * range;
    assert (r + 1.0) * range == Times(k, range) + range && (r + 2.0) * range == Times(k, range) + 2.0 * range;
  }

  lemma TimesAdd(i: int, j: int, range: real)
    ensures Times(i + j, range) == Times(i, range) + Times(j, range)
    ensures Times(i - j, range) == Times(i, range) - Times(j, range)
    ensures Times(-i, range) == 0.0 - Times(i, range)
  {
    assert (i + j) as real == i as real + j as real && (i - j) as real == i as real - j as real;
    assert (-i) as real == 0.0 - i as real;
  }

  /** The rest of x after a whole number of y, with the sign of x. */
  function Fmod(x: real, y: real): real
    requires y > 0.0
  {
    if x >= 0.0 then x - Times((x / y).Floor, y)
    else 0.0 - (0.0 - x - Times(((0.0 - x) / y).Floor, y))
  }

  /** The nearest integer, and the even one of two that are equally near. */
  function RoundHalfEven(q: real): (n: int)
    ensures Abs(q - n as real) <= 0.5
  {
    var n := q.Floor;
    var rest := q - n as real;
    if rest < 0.5 || (rest == 0.5 && n % 2 == 0) then n else n + 1
  }

  function Remainder(x: real, y: real): real
    requires y > 0.0
  {
    x - Times(RoundHalfEven(x / y), y)
  }

  // ---- wrapping ----

  function TTInfWrap(value: real, low: real, high: real): real
    requires low < high
  {
    if value >= low && value < high then value
    else if value - low >= 0.0 then Fmod(value - low, Abs(low - high)) + low
    else -1.0 * Fmod(-1.0 * (value - low), Abs(low - high)) + high
  }

  lemma FloorPart(x: real, y: real) returns (n: int)
    requires x >= 0.0 && y > 0.0
    ensures Fmod(x, y) == x - Times(n, y) && 0.0 <= x - Times(n, y) < y
  {
    hide Times;
    n := (x / y).Floor;
    WholeAndRest(x, y);
  }

  lemma WholeAndRest(x: real, y: real)
    requires y > 0.0
    ensures 0.0 <= x - Times((x / y).Floor, y) < y
  {
    var n := (x / y).Floor as real;
    var f := x / y - n;
    Divided(x, y);
    Distribute(y, n, f);
    Scaled(f, y);
    assert (n + f) * y == x;
    assert Times((x / y).Floor, y) == n * y;
  }

  lemma Scaled(f: real, y: real)
    requires 0.0 <= f < 1.0 && y > 0.0
    ensures 0.0 <= f * y < y
  {
    var g := 1.0 - f;
    assert g * y > 0.0 && g * y == y - f * y;
  }

  /** A whole number of ranges. */
  ghost predicate WholeRanges(x: real, range: real) {
    exists k :: x == Times(k, range)
  }

  /** Only one point of a half-open range is congruent to a value. */
  lemma SameClass(a: real, b: real, range: real)
    requires range > 0.0 && WholeRanges(a - b, range) && 0.0 - range < a - b < range
    ensures a == b
  {
    var k :| a - b == Times(k, range);
    TimesMeans(k, range);
  }

  /** The wrapped value lies in the range, a whole number of ranges from the value; the
      upper bound appears only for values below the range by a whole number of ranges. */
  lemma WrapMeans(value: real, low: real, high: real)
    requires low < high
    ensures low <= TTInfWrap(value, low, high) <= high
    ensures WholeRanges(value - TTInfWrap(value, low, high), high - low)
    ensures TTInfWrap(value, low, high) == high <==> value < low && WholeRanges(low - value, high - low)
  {
    hide Times, Fmod;
    var range, r := high - low, TTInfWrap(value, low, high);
    TimesMeans(0, range);
    if value >= low && value < high {
      assert value - r == Times(0, range);
    } else if value >= low {
      var n := FloorPart(value - low, range);
      assert value - r == Times(n, range);
    } else {
      var n := FloorPart(low - value, range);
      assert r == high - (low - value - Times(n, range));
      TimesAdd(-n, 1, range);
      TimesAdd(n, 0, range);
      assert value - r == Times(-n - 1, range);
      if WholeRanges(low - value, range) {
        var k :| low - value == Times(k, range);
        TimesAdd(k, n, range);
        TimesMeans(k - n, range);
      }
    }
  }

  /** Below the upper bound, wrapping depends on the class of the value only: its period is the range. */
  lemma WrapDetermined(value: real, other: real, low: real, high: real)
    requires low < high && WholeRanges(value - other, high - low)
    requires TTInfWrap(value, low, high) < high && TTInfWrap(other, low, high) < high
    ensures TTInfWrap(value, low, high) == TTInfWrap(other, low, high)
  {
    hide Times, TTInfWrap;
    var range, a, b := high - low, TTInfWrap(value, low, high), TTInfWrap(other, low, high);
    WrapMeans(value, low, high);
    WrapMeans(other, low, high);
    var i :| value - a == Times(i, range);
    var j :| other - b == Times(j, range);
    var k :| value - other == Times(k, range);
    TimesAdd(k, i, range);
    TimesAdd(k - i, j, range);
    assert a - b == Times(k - i + j, range);
    SameClass(a, b, range);
  }

  // ---- folding ----

  function TTFold(value: real, low: real, high: real): real
    requires low < high
  {
    if value >= low && value <= high then value
    else
      var foldRange := 2.0 * Abs(low - high);
      Abs(Remainder(value - low, foldRange)) + low
  }

  /** How far a value is from the middle of the range, in whole half ranges. */
  function Halves(value: real, low: real, high: real): nat
    requires low < high
  {
    var d, half := Abs(value - (low + high) / 2.0), (high - low) / 2.0;
    Ratio(d, half);
    (d / half).Floor
  }

  lemma Ratio(d: real, half: real)
    requires d >= 0.0 && half > 0.0
    ensures d / half >= 0.0
    ensures d > half ==> d / half > 1.0
    ensures d < half ==> d / half < 1.0
    ensures (d - 2.0 * half) / half == d / half - 2.0
  {
    var q := d / half;
    Divided(d, half);
    Divided(d - 2.0 * half, half);
    SameSign(half, q);
    SameSign(half, q - 1.0);
    SameSign(half, (d - 2.0 * half) / half - (q - 2.0));
    assert (q - 1.0) * half == d - half;
    assert ((d - 2.0 * half) / half - (q - 2.0)) * half == 0.0;
  }

  lemma Closer(value: real, low: real, high: real)
    requires low < high
    ensures value < low ==> Halves(2.0 * low - value, low, high) < Halves(value, low, high)
    ensures value > high ==> Halves(2.0 * high - value, low, high) < Halves(value, low, high)
  {
    var d, half := Abs(value - (low + high) / 2.0), (high - low) / 2.0;
    if value < low || value > high {
      var next := if value < low then 2.0 * low - value else 2.0 * high - value;
      var e := Abs(next - (low + high) / 2.0);
      Ratio(d, half);
      Ratio(e, half);
      assert e == if d >= 2.0 * half then d - 2.0 * half else 2.0 * half - d;
    }
  }

  /** Repeatedly reflecting at the bound that is violated. */
  function Reflected(value: real, low: real, high: real): real
    requires low < high
    decreases Halves(value, low, high)
  {
    Closer(value, low, high);
    if value < low then Reflected(2.0 * low - value, low, high)
    else if value > high then Reflected(2.0 * high - value, low, high)
    else value
  }

  /** The distance to a nearest multiple of the period does not depend on which one it is. */
  lemma NearestUnique(x: real, half: real, m: int, n: int)
    requires half > 0.0
    requires Abs(x - Times(m, 2.0 * half)) <= half && Abs(x - Times(n, 2.0 * half)) <= half
    ensures Abs(x - Times(m, 2.0 * half)) == Abs(x - Times(n, 2.0 * half))
  {
    hide Times;
    TimesAdd(m, n, 2.0 * half);
    TimesMeans(m - n, 2.0 * half);
  }

  lemma RemainderIsNearest(x: real, half: real) returns (n: int)
    requires half > 0.0
    ensures Remainder(x, 2.0 * half) == x - Times(n, 2.0 * half) && Abs(Remainder(x, 2.0 * half)) <= half
  {
    var y := 2.0 * half;
    n := RoundHalfEven(x / y);
    var f := x / y - n as real;
    Divided(x, y);
    Distribute(y, n as real, f);
    assert f * y == x - Times(n, y);
    HalfBound(f, half);
  }

  lemma HalfBound(f: real, half: real)
    requires Abs(f) <= 0.5 && half > 0.0
    ensures Abs(f * (2.0 * half)) <= half
  {
    SameSign(2.0 * half, 0.5 - f);
    SameSign(2.0 * half, 0.5 + f);
    assert (0.5 - f) * (2.0 * half) == half - f * (2.0 * half);
    assert (0.5 + f) * (2.0 * half) == half + f * (2.0 * half);
  }

  /** Any multiple of the period within half a period of x gives the size of the remainder. */
  lemma RemainderSize(x: real, half: real, n: int)
    requires half > 0.0 && Abs(x - Times(n, 2.0 * half)) <= half
    ensures Abs(Remainder(x, 2.0 * half)) == Abs(x - Times(n, 2.0 * half))
  {
    hide Times, Remainder;
    var m := RemainderIsNearest(x, half);
    NearestUnique(x, half, m, n);
  }

  /** The closed form, which TTFold agrees with inside the range too. */
  lemma FoldIsRemainder(value: real, low: real, high: real)
    requires low < high
    ensures TTFold(value, low, high) == Abs(Remainder(value - low, 2.0 * (high - low))) + low
  {
    hide Remainder;
    if value >= low && value <= high {
      TimesMeans(0, 2.0 * (high - low));
      RemainderSize(value - low, high - low, 0);
    }
  }

  lemma FoldInRange(value: real, low: real, high: real)
    requires low < high
    ensures low <= value <= high ==> TTFold(value, low, high) == value
  {
  }

  lemma FoldSymmetric(value: real, low: real, high: real)
    requires low < high
    ensures low <= TTFold(value, low, high) <= high
    ensures low <= value <= high ==> TTFold(value, low, high) == value
    ensures TTFold(2.0 * low - value, low, high) == TTFold(value, low, high)
    ensures TTFold(2.0 * high - value, low, high) == TTFold(value, low, high)
    ensures TTFold(value + 2.0 * (high - low), low, high) == TTFold(value, low, high)
  {
    hide Times, Remainder, TTFold;
    var half, x := high - low, value - low;
    var n := RemainderIsNearest(x, half);
    FoldInRange(value, low, high);
    FoldIsRemainder(value, low, high);
    FoldIsRemainder(2.0 * low - value, low, high);
    FoldIsRemainder(2.0 * high - value, low, high);
    FoldIsRemainder(value + 2.0 * half, low, high);
    TimesAdd(n, 1, 2.0 * half);
    TimesAdd(1, n, 2.0 * half);
    TimesMeans(1, 2.0 * half);
    RemainderSize(0.0 - x, half, -n);
    RemainderSize(2.0 * half - x, half, 1 - n);
    RemainderSize(x + 2.0 * half, half, n + 1);
    assert 2.0 * low - value - low == 0.0 - x;
    assert 2.0 * high - value - low == 2.0 * half - x;
    assert value + 2.0 * half - low == x + 2.0 * half;
  }

  /** Folding is reflecting until the value is in range. */
  lemma {:induction false} FoldIsReflection(value: real, low: real, high: real)
    requires low < high
    ensures TTFold(value, low, high) == Reflected(value, low, high)
    decreases Halves(value, low, high)
  {
    Closer(value, low, high);
    FoldSymmetric(value, low, high);
    if value < low {
      FoldIsReflection(2.0 * low - value, low, high);
    } else if value > high {
      FoldIsReflection(2.0 * high - value, low, high);
    }
  }
}
