/** The integer printer of library/boost/boost/lexical_cast.hpp:334-347, 486-561, 837-849.
    It writes backwards into a character buffer, in the groups the locale asks for.
    A grouping is a string of signed 8-bit numbers. */
module LexicalCast {
  import opened Text

  const CHAR_MAX: nat := 127

  /** How many digits the k-th group from the right takes.  The last size repeats; a size
      that is not positive stands for no limit, as does an empty grouping. */
  function GroupSize(grouping: seq<int>, k: nat): (size: nat)
    ensures size > 0
  {
    var size := if grouping == [] then 0 else if k < |grouping| then grouping[k] else grouping[|grouping| - 1];
    if size <= 0 then CHAR_MAX else size
  }

  /** Digits in groups, the rightmost being group k. */
  function Grouped(digits: string, grouping: seq<int>, k: nat, separator: char): (s: string)
    decreases |digits|
  {
    var size := GroupSize(grouping, k);
    if |digits| <= size then digits
    else
      var cut := |digits| - size;
      Grouped(digits[..cut], grouping, k + 1, separator) + [separator] + digits[cut..]
  }

  lemma {:induction false} GroupedLength(digits: string, grouping: seq<int>, k: nat, separator: char)
    ensures |digits| <= |Grouped(digits, grouping, k, separator)|
    ensures digits != [] ==> |Grouped(digits, grouping, k, separator)| < 2 * |digits|
    ensures digits != [] ==>
      Grouped(digits, grouping, k, separator) != [] && Grouped(digits, grouping, k, separator)[0] == digits[0]
    decreases |digits|
  {
    var size := GroupSize(grouping, k);
    if |digits| > size {
      GroupedLength(digits[..|digits| - size], grouping, k + 1, separator);
    }
  }

  /** No separator in at most CHAR_MAX digits when the grouping sets no limit. */
  lemma FewDigitsPlain(digits: string, grouping: seq<int>, separator: char)
    requires grouping == [] || grouping[0] <= 0
    requires |digits| <= 127
    ensures Grouped(digits, grouping, 0, separator) == digits
  {
  }

  lemma GroupFull(rest: string, group: string, grouping: seq<int>, k: nat, separator: char)
    requires rest != [] && |group| == GroupSize(grouping, k)
    ensures Grouped(rest + group, grouping, k, separator)
      == Grouped(rest, grouping, k + 1, separator) + [separator] + group
  {
    assert (rest + group)[..|rest|] == rest && (rest + group)[|rest|..] == group;
  }

  lemma GroupStarted(digits: string, grouping: seq<int>, k: nat, separator: char)
    requires |digits| <= GroupSize(grouping, k)
    ensures Grouped(digits, grouping, k, separator) == digits
  {
  }

  /** What is still to be written, once a full group has its separator. */
  lemma NextGroup(
      full: string, rest: string, current: string, tail: string, grouping: seq<int>, k: nat, separator: char)
    requires rest != [] && |current| == GroupSize(grouping, k)
    requires full == Grouped(rest + current, grouping, k, separator) + tail
    ensures full == Grouped(rest + [], grouping, k + 1, separator) + ([separator] + (current + tail))
  {
    GroupFull(rest, current, grouping, k, separator);
    var g := Grouped(rest, grouping, k + 1, separator);
    assert rest + [] == rest && g + [separator] + current + tail == g + ([separator] + (current + tail));
  }

  lemma NextDigit(m: nat, current: string)
    ensures m >= 10 ==> Decimal(m) + current == Decimal(m / 10) + ([DigitChar(m % 10)] + current)
    ensures m < 10 ==> Decimal(m) + current == [DigitChar(m % 10)] + current
  {
    if m >= 10 {
      assert Decimal(m) + current == Decimal(m / 10) + ([DigitChar(m % 10)] + current);
    }
  }

  lemma NextSize(grouping: seq<int>, k: nat)
    ensures GroupSize(grouping, k + 1) ==
      if k + 1 < |grouping| then (if grouping[k + 1] <= 0 then CHAR_MAX else grouping[k + 1])
      else GroupSize(grouping, k)
  {
  }

  /** One character written in front of the others. */
  method PutBefore(buffer: array<char>, at: nat, c: char, ghost finish: nat) returns (start: nat)
    requires 0 < at <= finish <= buffer.Length
    modifies buffer
    ensures start == at - 1 && buffer[start..finish] == [c] + old(buffer[at..finish])
    ensures buffer[..start] == old(buffer[..start]) && buffer[finish..] == old(buffer[finish..])
  {
    start := at - 1;
    buffer[start] := c;
  }

  /** The digits still to be written, in front of the current group and what is complete. */
  ghost predicate Writing(
      full: string, digits: string, current: string, tail: string, grouping: seq<int>, k: nat, separator: char)
  {
    && |current| <= GroupSize(grouping, k)
    && full == if digits == [] then current + tail else Grouped(digits + current, grouping, k, separator) + tail
  }

  lemma WritingStarts(n: nat, grouping: seq<int>, separator: char)
    ensures Writing(Grouped(Decimal(n), grouping, 0, separator), Decimal(n), [], [], grouping, 0, separator)
  {
    hide Grouped, Decimal;
    assert Decimal(n) + [] == Decimal(n);
    assert Grouped(Decimal(n), grouping, 0, separator) + [] == Grouped(Decimal(n), grouping, 0, separator);
  }

  lemma RoomInFront(
      full: string, digits: string, current: string, tail: string, grouping: seq<int>, k: nat, separator: char)
    requires Writing(full, digits, current, tail, grouping, k, separator)
    ensures |digits| + |current + tail| <= |full|
  {
    hide Grouped;
    GroupedLength(digits + current, grouping, k, separator);
  }

  lemma GroupDone(
      full: string, digits: string, current: string, tail: string, grouping: seq<int>, k: nat, separator: char)
    requires Writing(full, digits, current, tail, grouping, k, separator)
    requires digits != [] && |current| == GroupSize(grouping, k)
    ensures Writing(full, digits, [], [separator] + (current + tail), grouping, k + 1, separator)
  {
    hide Grouped;
    NextGroup(full, digits, current, tail, grouping, k, separator);
  }

  lemma DigitDone(full: string, m: nat, current: string, tail: string, grouping: seq<int>, k: nat, separator: char)
    requires Writing(full, Decimal(m), current, tail, grouping, k, separator) && |current| < GroupSize(grouping, k)
    ensures Writing(
      full, if m < 10 then [] else Decimal(m / 10), [DigitChar(m % 10)] + current, tail, grouping, k, separator)
  {
    hide Grouped;
    NextDigit(m, current);
    GroupStarted([DigitChar(m % 10)] + current, grouping, k, separator);
  }

  /** lcast_put_unsigned: writes the digits from the last to the first, ending before finish. */
  method PutUnsigned(n: nat, buffer: array<char>, finish: nat, grouping: seq<int>, separator: char)
    returns (start: nat)
    requires |Grouped(Decimal(n), grouping, 0, separator)| <= finish <= buffer.Length
    modifies buffer
    ensures start <= finish && buffer[start..finish] == Grouped(Decimal(n), grouping, 0, separator)
    ensures buffer[..start] == old(buffer[..start]) && buffer[finish..] == old(buffer[finish..])
  {
    hide Grouped, Decimal, GroupSize, Writing;
    ghost var full := Grouped(Decimal(n), grouping, 0, separator);
    ghost var digits, current, tail: string := Decimal(n), [], [];
    var group: nat := 0;
    var lastSize := if |grouping| == 0 || grouping[0] <= 0 then CHAR_MAX else grouping[0];
    FirstSize(grouping);
    var left: nat := lastSize;
    var m := n;
    start := finish;
    var more := true;
    WritingStarts(n, grouping, separator);
    while more
      invariant start <= finish && buffer[start..finish] == current + tail
      invariant buffer[..start] == old(buffer[..start]) && buffer[finish..] == old(buffer[finish..])
      invariant lastSize == GroupSize(grouping, group) && left + |current| == lastSize
      invariant digits == (if more then Decimal(m) else [])
      invariant Writing(full, digits, current, tail, grouping, group, separator)
      decreases more, m
    {
      if left == 0 {
        GroupDone(full, digits, current, tail, grouping, group, separator);
        NextSize(grouping, group);
        group := group + 1;
        if group < |grouping| {
          lastSize := if grouping[group] <= 0 then CHAR_MAX else grouping[group];
        }
        left := lastSize;
        current, tail := [], [separator] + (current + tail);
        RoomInFront(full, digits, current, tail, grouping, group, separator);
        start := PutBefore(buffer, start, separator, finish);
        assert current + tail == tail;
      }
      RoomInFront(full, digits, current, tail, grouping, group, separator);
      DigitDone(full, m, current, tail, grouping, group, separator);
      left := left - 1;
      start := PutBefore(buffer, start, DigitChar(m % 10), finish);
      InFront(DigitChar(m % 10), current, tail);
      current := [DigitChar(m % 10)] + current;
      m := m / 10;
      more := m != 0;
      digits := if more then Decimal(m) else [];
    }
    WritingEnds(full, current, tail, grouping, group, separator);
  }

  lemma WritingEnds(full: string, current: string, tail: string, grouping: seq<int>, k: nat, separator: char)
    requires Writing(full, [], current, tail, grouping, k, separator)
    ensures full == current + tail
  {
  }

  lemma InFront(c: char, a: string, b: string)
    ensures [c] + (a + b) == [c] + a + b
  {
  }

  lemma FirstSize(grouping: seq<int>)
    ensures GroupSize(grouping, 0) == if |grouping| == 0 || grouping[0] <= 0 then CHAR_MAX else grouping[0]
  {
  }

  // ---- signed and unsigned integers ----

  /** The values of an integer type of this many bits. */
  predicate Representable(value: int, bits: nat, signed: bool)
    requires bits > 0
  {
    if signed then -(Pow2(bits - 1) as int) <= value < Pow2(bits - 1) else 0 <= value < Pow2(bits)
  }

  /** lcast_to_unsigned, in arithmetic modulo 2^bits: the magnitude, even of the
      most negative value, which has no positive counterpart of its own type. */
  function ToUnsigned(value: int, bits: nat): (magnitude: nat)
    requires bits > 0 && Representable(value, bits, true)
    ensures magnitude == Magnitude(value)
  {
    var range := Pow2(bits);
    var unsigned := value % range;
    Wraps(value, range);
    if value < 0 then (range - unsigned) % range else unsigned
  }

  lemma Wraps(value: int, range: nat)
    requires range > 0 && 0 - range < value < range
    ensures value % range == if value < 0 then value + range else value
    ensures value < 0 ==> (range - value % range) % range == -value
  {
    Remainder(value, range, if value < 0 then -1 else 0);
    if value < 0 {
      Remainder(-value, range, 0);
    }
  }

  lemma Remainder(x: int, m: nat, q: int)
    requires m > 0 && 0 <= x - q * m < m
    ensures x % m == x - q * m
  {
    assert (x / m - q) * m == (x - q * m) - x % m;
    Multiples(x / m - q, m);
  }

  lemma Multiples(d: int, m: nat)
    requires m > 0
    ensures d > 0 ==> d * m >= m
    ensures d < 0 ==> d * m <= 0 - m
  {
  }

  function Magnitude(value: int): nat {
    if value < 0 then -value else value
  }

  /** The text of an integer in a locale. */
  function Written(value: int, grouping: seq<int>, separator: char): string {
    var magnitude := Grouped(Decimal(Magnitude(value)), grouping, 0, separator);
    if value < 0 then "-" + magnitude else magnitude
  }

  /** digits10: all numbers of this many digits are representable, and no more. */
  predicate IsDigits10(digits10: nat, bits: nat, signed: bool)
    requires bits > 0
  {
    Pow10(digits10) <= (if signed then Pow2(bits - 1) else Pow2(bits)) < Pow10(digits10 + 1)
  }

  /** lcast_src_length_integral */
  function SrcLength(digits10: nat, signed: bool): nat {
    (if signed then 1 else 0) + 1 + digits10 * 2
  }

  lemma MagnitudeDigits(value: int, bits: nat, signed: bool, digits10: nat)
    requires bits > 0 && Representable(value, bits, signed) && IsDigits10(digits10, bits, signed)
    ensures |Decimal(Magnitude(value))| <= digits10 + 1
  {
    hide Decimal;
    DecimalLength(Magnitude(value), digits10 + 1);
  }

  /** No integer of the type is longer than the buffer computed at compile time. */
  lemma WrittenFits(value: int, bits: nat, signed: bool, digits10: nat, grouping: seq<int>, separator: char)
    requires bits > 0 && Representable(value, bits, signed) && IsDigits10(digits10, bits, signed)
    ensures |Written(value, grouping, separator)| <= SrcLength(digits10, signed)
    ensures SrcLength(digits10, signed) == (if signed then 1 else 0) + 1 + 2 * digits10
  {
    hide Decimal, Grouped;
    MagnitudeDigits(value, bits, signed, digits10);
    GroupedLength(Decimal(Magnitude(value)), grouping, 0, separator);
  }

  /** A grouping that sets no limit separates nothing in any integer of the type: they all
      have at most 127 digits, which the program asserts at compile time. */
  lemma UngroupedIsPlain(
      value: int, bits: nat, signed: bool, digits10: nat, grouping: seq<int>, separator: char)
    requires bits > 0 && Representable(value, bits, signed) && IsDigits10(digits10, bits, signed)
    requires digits10 < 127 && (grouping == [] || grouping[0] <= 0)
    ensures Written(value, grouping, separator) == (if value < 0 then "-" else "") + Decimal(Magnitude(value))
  {
    hide Decimal, Grouped;
    MagnitudeDigits(value, bits, signed, digits10);
    FewDigitsPlain(Decimal(Magnitude(value)), grouping, separator);
  }

  /** What there is room for: the digits of the magnitude, and the sign in front of them. */
  lemma RoomForSign(value: int, bits: nat, signed: bool, digits10: nat, grouping: seq<int>, separator: char)
    requires bits > 0 && Representable(value, bits, signed) && IsDigits10(digits10, bits, signed)
    ensures var digits := Grouped(Decimal(Magnitude(value)), grouping, 0, separator);
      && |digits| + (if value < 0 then 1 else 0) <= SrcLength(digits10, signed)
      && Written(value, grouping, separator) == if value < 0 then ['-'] + digits else digits
    ensures value < 0 ==> signed
  {
    hide Decimal, Grouped, SrcLength;
    WrittenFits(value, bits, signed, digits10, grouping, separator);
  }

  /** operator<< of the signed and the unsigned integers: the number ends where the buffer does. */
  method Insert(
      value: int, bits: nat, signed: bool, digits10: nat, buffer: array<char>, grouping: seq<int>, separator: char)
    returns (start: nat)
    requires bits > 0 && Representable(value, bits, signed) && IsDigits10(digits10, bits, signed)
    requires buffer.Length == SrcLength(digits10, signed)
    modifies buffer
    ensures start <= buffer.Length && buffer[start..] == Written(value, grouping, separator)
    ensures buffer[..start] == old(buffer[..start])
  {
    hide Decimal, Grouped, Representable, IsDigits10, SrcLength, ToUnsigned, Written;
    RoomForSign(value, bits, signed, digits10, grouping, separator);
    var n := if signed then ToUnsigned(value, bits) else value;
    start := PutUnsigned(n, buffer, buffer.Length, grouping, separator);
    if value < 0 {
      start := PutBefore(buffer, start, '-', buffer.Length);
    }
    assert buffer[start..] == buffer[start..buffer.Length];
  }

  // ---- the groups ----

  /** A text cut at every separator, the rightmost group first. */
  function Groups(s: string, separator: char): (groups: seq<string>)
    ensures |groups| > 0
    decreases |s|
  {
    var k := LastIndex(s, separator);
    if k < 0 then [s] else [s[k + 1..]] + Groups(s[..k], separator)
  }

  lemma GroupsCut(a: string, b: string, separator: char)
    requires separator !in b
    ensures Groups(a + [separator] + b, separator) == [b] + Groups(a, separator)
  {
    hide LastIndex;
    var s := a + [separator] + b;
    LastIndexAt(a, separator, b);
    assert s[|a| + 1..] == b && s[..|a|] == a;
  }

  lemma GroupsWhole(s: string, separator: char)
    requires separator !in s
    ensures Groups(s, separator) == [s]
  {
    hide LastIndex;
  }

  lemma {:induction false} GroupsOfGrouped(digits: string, grouping: seq<int>, k: nat, separator: char)
    requires digits != [] && separator !in digits
    ensures var groups := Groups(Grouped(digits, grouping, k, separator), separator);
      && (forall i | 0 <= i < |groups| - 1 :: |groups[i]| == GroupSize(grouping, k + i))
      && 0 < |groups[|groups| - 1]| <= GroupSize(grouping, k + |groups| - 1)
    decreases |digits|
  {
    hide Groups, GroupSize;
    var size := GroupSize(grouping, k);
    if |digits| <= size {
      GroupsWhole(digits, separator);
    } else {
      var cut := |digits| - size;
      var front := Grouped(digits[..cut], grouping, k + 1, separator);
      GroupsOfGrouped(digits[..cut], grouping, k + 1, separator);
      GroupsCut(front, digits[cut..], separator);
    }
  }

  /** Written out: from the right the groups have the sizes that the locale names, of which
      the last repeats and one that is not positive is 127; only the leftmost may be smaller. */
  lemma GroupsMean(n: nat, grouping: seq<int>, separator: char)
    requires !('0' <= separator <= '9')
    ensures var groups := Groups(Grouped(Decimal(n), grouping, 0, separator), separator);
      forall i | 0 <= i < |groups| ::
        var named := if grouping == [] then 0 else if i < |grouping| then grouping[i] else grouping[|grouping| - 1];
        var size := if named <= 0 then 127 else named;
        if i < |groups| - 1 then |groups[i]| == size else 0 < |groups[i]| <= size
  {
    hide Groups, Grouped, Decimal;
    GroupsOfGrouped(Decimal(n), grouping, 0, separator);
  }

  // ---- reading back ----

  function Drop(s: string, c: char): string {
    if s == [] then []
    else if s[0] == c then Drop(s[1..], c)
    else [s[0]] + Drop(s[1..], c)
  }

  lemma {:induction false} DropAppend(a: string, b: string, c: char)
    ensures Drop(a + b, c) == Drop(a, c) + Drop(b, c)
  {
    if a == [] {
      assert a + b == b;
    } else {
      DropAppend(a[1..], b, c);
      assert (a + b)[1..] == a[1..] + b;
      InFront(a[0], Drop(a[1..], c), Drop(b, c));
    }
  }

  lemma DropOne(c: char)
    ensures Drop([c], c) == []
  {
  }

  lemma {:induction false} DropNothing(s: string, c: char)
    requires c !in s
    ensures Drop(s, c) == s
  {
    if s != [] {
      DropNothing(s[1..], c);
    }
  }

  /** The digits are all there, in order. */
  lemma {:induction false} DropGrouped(digits: string, grouping: seq<int>, k: nat, separator: char)
    requires separator !in digits
    ensures Drop(Grouped(digits, grouping, k, separator), separator) == digits
    decreases |digits|
  {
    var size := GroupSize(grouping, k);
    if |digits| <= size {
      DropNothing(digits, separator);
    } else {
      var cut := |digits| - size;
      DropGrouped(digits[..cut], grouping, k + 1, separator);
      DropMiddle(Grouped(digits[..cut], grouping, k + 1, separator), digits[cut..], separator);
      assert digits == digits[..cut] + digits[cut..];
    }
  }

  lemma DropMiddle(a: string, b: string, c: char)
    requires c !in b
    ensures Drop(a + [c] + b, c) == Drop(a, c) + b
  {
    hide Drop;
    DropNothing(b, c);
    DropAppend(a + [c], b, c);
    DropAppend(a, [c], c);
    DropOne(c);
    assert Drop(a, c) + [] == Drop(a, c);
  }

  predicate AllDigits(s: string) {
    forall i :: 0 <= i < |s| ==> '0' <= s[i] <= '9'
  }

  /** The integer a text denotes, its separators dropped. */
  function Read(text: string, separator: char): (value: int)
    requires var s := Drop(text, separator); AllDigits(if s != [] && s[0] == '-' then s[1..] else s)
  {
    var s := Drop(text, separator);
    if s != [] && s[0] == '-' then -(ParseDecimal(s[1..]) as int) else ParseDecimal(s)
  }

  lemma WrittenDropped(value: int, grouping: seq<int>, separator: char)
    requires separator != '-' && !('0' <= separator <= '9')
    ensures Drop(Written(value, grouping, separator), separator) ==
      if value < 0 then "-" + Decimal(Magnitude(value)) else Decimal(Magnitude(value))
  {
    hide Decimal, Grouped, Drop;
    var digits := Decimal(Magnitude(value));
    DropGrouped(digits, grouping, 0, separator);
    DropAppend("-", Grouped(digits, grouping, 0, separator), separator);
    DropNothing("-", separator);
  }

  /** What is written reads back as the integer, for every grouping and every separator
      that is neither a digit nor the minus sign. */
  lemma ReadBack(value: int, grouping: seq<int>, separator: char)
    requires separator != '-' && !('0' <= separator <= '9')
    ensures var s := Drop(Written(value, grouping, separator), separator);
      AllDigits(if s != [] && s[0] == '-' then s[1..] else s)
    ensures Read(Written(value, grouping, separator), separator) == value
  {
    hide Decimal, Written, Drop, ParseDecimal;
    var digits := Decimal(Magnitude(value));
    WrittenDropped(value, grouping, separator);
    DecimalParses(Magnitude(value));
    assert ("-" + digits)[1..] == digits;
  }

  /** No superfluous leading zero: only zero itself starts with one. */
  lemma NoLeadingZero(value: int, grouping: seq<int>, separator: char)
    ensures Written(value, grouping, separator)[if value < 0 then 1 else 0] == '0' <==> value == 0
    ensures value == 0 ==> Written(value, grouping, separator) == "0"
  {
    DecimalStart(Magnitude(value));
    GroupedLength(Decimal(Magnitude(value)), grouping, 0, separator);
  }

  lemma {:induction false} DecimalStart(n: nat)
    ensures Decimal(n)[0] == '0' <==> n == 0
  {
    if n >= 10 {
      DecimalStart(n / 10);
    }
  }
}
