/** The CRC engines of library/boost/boost/crc.hpp: the bit-at-a-time reference
    crc_basic, the table-driven crc_optimal and augmented_crc.

    Values of the C++ value_type are registers of any storage width W that holds
    a byte and the CRC's own `bits`; storage bits above `bits` may hold leftovers,
    as they do in the C++ code, and are masked only where it masks them. */
module Crc {
  import opened Gf2
  import opened Text

  const CHAR_BIT: nat := 8

  type Byte = b: Bits | |b| == CHAR_BIT witness Zeros(CHAR_BIT)

  // ---- bytes as table indices ----

  function Num(b: Bits): (n: nat)
    ensures n < Pow2(|b|)
  {
    if b == [] then 0 else (if b[0] then 1 else 0) + 2 * Num(b[1..])
  }

  function ToBits(n: nat, k: nat): (b: Bits)
    ensures |b| == k
    decreases k
  {
    if k == 0 then [] else [n % 2 == 1] + ToBits(n / 2, k - 1)
  }

  lemma {:induction false} ToBitsOfNum(b: Bits)
    ensures ToBits(Num(b), |b|) == b
  {
    if b != [] {
      ToBitsOfNum(b[1..]);
    }
  }

  lemma {:induction false} NumOfToBits(n: nat, k: nat)
    requires n < Pow2(k)
    ensures Num(ToBits(n, k)) == n
    decreases k
  {
    if k > 0 {
      NumOfToBits(n / 2, k - 1);
      assert ToBits(n, k)[1..] == ToBits(n / 2, k - 1);
    }
  }

  lemma ByteIndex(x: Byte)
    ensures Num(x) < 256 && ToBits(Num(x), CHAR_BIT) == x
  {
    ToBitsOfNum(x);
    assert Pow2(CHAR_BIT) == 256;
  }

  // ---- messages as bit streams ----

  /** The bits of a byte in the order the register meets them: from the highest
      down, or reflected. */
  function Order(b: Byte, reflectIn: bool): (u: Bits)
    ensures |u| == CHAR_BIT
  {
    if reflectIn then b else Reverse(b)
  }

  function MessageBits(msg: seq<Byte>, reflectIn: bool): (u: Bits)
    ensures |u| == CHAR_BIT * |msg|
  {
    if msg == [] then [] else Order(msg[0], reflectIn) + MessageBits(msg[1..], reflectIn)
  }

  lemma {:induction false} MessageAppend(m: seq<Byte>, b: seq<Byte>, reflectIn: bool)
    ensures MessageBits(m + b, reflectIn) == MessageBits(m, reflectIn) + MessageBits(b, reflectIn)
  {
    if m == [] {
      assert m + b == b;
    } else {
      assert (m + b)[1..] == m[1..] + b;
      MessageAppend(m[1..], b, reflectIn);
    }
  }

  lemma MessageFirst(msg: seq<Byte>, reflectIn: bool)
    requires msg != []
    ensures MessageBits(msg, reflectIn) == Order(msg[0], reflectIn) + MessageBits(msg[1..], reflectIn)
  {
  }

  lemma OrderMeans(b: Byte, reflectIn: bool, j: nat)
    requires j < 8
    ensures Order(b, reflectIn)[j] == if reflectIn then b[j] else b[7 - j]
  {
  }

  /** Written out: byte after byte, each from its lowest bit up when the input is reflected
      and from its highest bit down otherwise. */
  lemma {:induction false} MessageBitsMean(msg: seq<Byte>, reflectIn: bool, k: nat, j: nat)
    requires k < |msg| && j < 8
    ensures MessageBits(msg, reflectIn)[8 * k + j] == if reflectIn then msg[k][j] else msg[k][7 - j]
  {
    hide MessageBits, Order;
    var rest := msg[1..];
    MessageFirst(msg, reflectIn);
    if k == 0 {
      OrderMeans(msg[0], reflectIn, j);
    } else {
      MessageBitsMean(rest, reflectIn, k - 1, j);
      assert rest[k - 1] == msg[k];
      assert 8 * k + j - 8 == 8 * (k - 1) + j;
    }
  }

  lemma MessageOfOne(b: Byte, reflectIn: bool)
    ensures MessageBits([b], reflectIn) == Order(b, reflectIn)
  {
    assert MessageBits([b][1..], reflectIn) == [];
    assert Order(b, reflectIn) + [] == Order(b, reflectIn);
  }

  /** The remainder after a message, bit by bit: the meaning of both engines. */
  ghost function Remainder(r: Bits, msg: seq<Byte>, poly: Bits, reflectIn: bool): (c: Bits)
    requires |r| == |poly| > 0
    ensures |c| == |r|
  {
    Divide(r, MessageBits(msg, reflectIn), poly)
  }

  /** From zero it is the remainder of the message as a polynomial, times the power of x
      that is the width, on division by the polynomial with its leading term. */
  lemma RemainderMeans(msg: seq<Byte>, poly: Bits, reflectIn: bool) returns (q: Bits)
    requires |poly| > 0
    ensures |q| == CHAR_BIT * |msg| + |poly|
    ensures Zeros(|poly|) + MessageBits(msg, reflectIn) + Zeros(|poly|)
         == Xor(Product(q, [true] + Reverse(poly)),
                Zeros(CHAR_BIT * |msg| + |poly|) + Reverse(Remainder(Zeros(|poly|), msg, poly, reflectIn)))
  {
    hide Xor, Reverse, Zeros, Product, MessageBits;
    q := PlainDivision(MessageBits(msg, reflectIn), poly);
  }

  lemma RemainderExtends(r: Bits, msg: seq<Byte>, more: seq<Byte>, poly: Bits, reflectIn: bool)
    requires |r| == |poly| > 0
    ensures Remainder(r, msg + more, poly, reflectIn)
         == Remainder(Remainder(r, msg, poly, reflectIn), more, poly, reflectIn)
  {
    MessageAppend(msg, more, reflectIn);
    DivideAppend(r, MessageBits(msg, reflectIn), MessageBits(more, reflectIn), poly);
  }

  lemma RemainderOfByte(r: Bits, msg: seq<Byte>, b: Byte, poly: Bits, reflectIn: bool)
    requires |r| == |poly| > 0
    ensures Remainder(r, [], poly, reflectIn) == r
    ensures Remainder(r, msg + [b], poly, reflectIn)
         == Divide(Remainder(r, msg, poly, reflectIn), Order(b, reflectIn), poly)
  {
    hide Order, DivideBit;
    RemainderExtends(r, msg, [b], poly, reflectIn);
    MessageOfOne(b, reflectIn);
  }

  /** The checksum read off a remainder: optionally reflected, then complemented. */
  ghost function Output(r: Bits, final: Bits, reflectRem: bool): (c: Bits)
    requires |r| == |final|
    ensures |c| == |r|
  {
    Xor(if reflectRem then Reverse(r) else r, final)
  }

  /** Written out bit by bit, for the value whose low bits it is. */
  lemma OutputMeans(r: Bits, final: Bits, reflectRem: bool, c: Bits)
    requires |r| == |final| <= |c| && c[..|r|] == Output(r, final, reflectRem)
    ensures forall i :: 0 <= i < |r| ==> c[i] == ((if reflectRem then r[|r| - 1 - i] else r[i]) != final[i])
  {
    hide Xor, Reverse;
    forall i | 0 <= i < |r|
      ensures c[i] == ((if reflectRem then r[|r| - 1 - i] else r[i]) != final[i])
    {
      assert c[i] == c[..|r|][i];
    }
  }

  /** A value with everything above its significant bits masked off. */
  function SigBits(x: Bits, bits: nat): (y: Bits)
    requires bits <= |x|
    ensures |y| == |x| && y[..bits] == x[..bits]
    ensures forall i :: bits <= i < |y| ==> !y[i]
  {
    x[..bits] + Zeros(|x| - bits)
  }

  // ---- reflector::reflect ----

  /** The reflection with only the low i bits of the value taken over so far. */
  function Reflected(value: Bits, bits: nat, i: nat): (r: Bits)
    requires i <= bits <= |value|
    ensures |r| == |value|
    ensures forall j :: 0 <= j < |r| ==> r[j] == (bits - i <= j < bits && value[bits - 1 - j])
  {
    seq(|value|, j requires 0 <= j < |value| => bits - i <= j < bits && value[bits - 1 - j])
  }

  lemma ReflectedStep(value: Bits, bits: nat, i: nat)
    requires i < bits <= |value|
    ensures Reflected(value, bits, i + 1)
         == if value[i] then Reflected(value, bits, i)[bits - 1 - i := true] else Reflected(value, bits, i)
    ensures Shr(Shr(value, i), 1) == Shr(value, i + 1)
  {
  }

  method Reflect(value: Bits, bits: nat) returns (reflection: Bits)
    requires bits <= |value|
    ensures |reflection| == |value|
    ensures forall i :: 0 <= i < bits ==> reflection[i] == value[bits - 1 - i]
    ensures reflection[..bits] == Reverse(value[..bits])
    ensures forall i :: bits <= i < |value| ==> !reflection[i]
  {
    hide Zeros, Reverse, Shr, Reflected;
    var x := value;
    reflection := Zeros(|value|);
    for i := 0 to bits
      invariant x == Shr(value, i) && reflection == Reflected(value, bits, i)
    {
      ReflectedStep(value, bits, i);
      if x[0] {
        reflection := reflection[bits - 1 - i := true];
      }
      x := Shr(x, 1);
    }
  }

  /** How the table-driven engine keeps a remainder. */
  function Stored(r: Bits, reflect: bool): (s: Bits)
    ensures |s| == |r|
  {
    if reflect then Reverse(r) else r
  }

  lemma StoredTwice(r: Bits, reflect: bool)
    ensures Stored(Stored(r, reflect), reflect) == r
  {
    assert Reverse(Reverse(r)) == r;
  }

  /** crc_helper::reflect */
  method HelperReflect(value: Bits, bits: nat, doReflect: bool) returns (r: Bits)
    requires bits <= |value|
    ensures |r| == |value| && r[..bits] == Stored(value[..bits], doReflect)
    ensures doReflect ==> forall i :: bits <= i < |r| ==> !r[i]
    ensures !doReflect ==> r == value
  {
    r := value;
    if doReflect {
      r := Reflect(value, bits);
    }
  }

  /** One bit processed in a register that is wider than the CRC: the bit is
      compared with the CRC's top bit, the whole register shifts, and what was
      above stays above. */
  function StoreBit(rem: Bits, bit: bool, poly: Bits, bits: nat): (s: Bits)
    requires 0 < bits <= |rem| == |poly|
    ensures |s| == |rem|
  {
    var compared := Xor(rem, Gate(bit, Unit(bits - 1, |rem|)));
    Xor(Shl(compared, 1), Gate(compared[bits - 1], poly))
  }

  lemma StoreBitDivides(rem: Bits, bit: bool, poly: Bits, bits: nat)
    requires 0 < bits <= |rem| == |poly|
    ensures StoreBit(rem, bit, poly, bits)[..bits] == DivideBit(rem[..bits], bit, poly[..bits])
  {
    hide Zeros, Xor, Shl, Unit;
  }

  // ---- crc_basic ----

  class CrcBasic {
    const bits: nat
    var rem_: Bits
    var poly_: Bits
    var init_: Bits
    var final_: Bits
    var rft_in_: bool
    var rft_out_: bool

    ghost predicate Valid()
      reads this
    {
      0 < bits <= |rem_| == |poly_| == |init_| == |final_|
    }

    ghost function Rem(): Bits
      reads this
      requires Valid()
    {
      rem_[..bits]
    }

    ghost function Poly(): (p: Bits)
      reads this
      requires Valid()
      ensures |p| == bits
    {
      poly_[..bits]
    }

    constructor (bits: nat, poly: Bits, init: Bits, final: Bits, reflectInput: bool, reflectRemainder: bool)
      requires 0 < bits <= |poly| == |init| == |final|
      ensures Valid() && this.bits == bits && Rem() == init[..bits]
      ensures poly_ == poly && init_ == init && final_ == final
      ensures rft_in_ == reflectInput && rft_out_ == reflectRemainder
    {
      this.bits := bits;
      rem_, poly_, init_, final_ := init, poly, init, final;
      rft_in_, rft_out_ := reflectInput, reflectRemainder;
    }

    method Reset()
      requires Valid()
      modifies `rem_
      ensures Valid() && Rem() == init_[..bits]
    {
      rem_ := init_;
    }

    method ProcessBit(bit: bool)
      requires Valid()
      modifies `rem_
      ensures Valid() && Rem() == DivideBit(old(Rem()), bit, Poly())
    {
      hide Zeros, Xor, Shl, Unit, DivideBit;
      StoreBitDivides(rem_, bit, poly_, bits);
      rem_ := Xor(rem_, Gate(bit, Unit(bits - 1, |rem_|)));
      var doPolyDiv := rem_[bits - 1];
      rem_ := Shl(rem_, 1);
      if doPolyDiv {
        rem_ := Xor(rem_, poly_);
      }
      XorZeros(rem_);
    }

    method ProcessBits(value: Byte, bitCount: nat)
      requires Valid() && bitCount <= CHAR_BIT
      modifies `rem_
      ensures Valid() && Rem() == Divide(old(Rem()), Reverse(value[..bitCount]), Poly())
    {
      hide DivideBit, Reverse, Shl, Top;
      var b := Shl(value, CHAR_BIT - bitCount);
      var i := bitCount;
      assert Top(b, i) == Reverse(value[..bitCount]);
      while i > 0
        invariant 0 <= i <= bitCount && |b| == CHAR_BIT && Valid()
        invariant Divide(Rem(), Top(b, i), Poly())
               == Divide(old(Rem()), Reverse(value[..bitCount]), Poly())
      {
        assert Top(b, i)[1..] == Top(Shl(b, 1), i - 1);
        ProcessBit(b[CHAR_BIT - 1]);
        i := i - 1;
        b := Shl(b, 1);
      }
      assert Top(b, 0) == [];
    }

    method ProcessByte(value: Byte)
      requires Valid()
      modifies `rem_
      ensures Valid() && Rem() == Divide(old(Rem()), Order(value, rft_in_), Poly())
    {
      var b := value;
      assert value[..CHAR_BIT] == value;
      if rft_in_ {
        b := Reflect(value, CHAR_BIT);
        assert b[..CHAR_BIT] == b;
        assert Reverse(b) == value;
      }
      ProcessBits(b, CHAR_BIT);
    }

    /** process_block, and process_bytes which only forwards to it. */
    method ProcessBlock(msg: seq<Byte>)
      requires Valid()
      modifies `rem_
      ensures Valid() && Rem() == Remainder(old(Rem()), msg, Poly(), rft_in_)
    {
      hide Remainder, Divide, Order;
      var p := 0;
      RemainderOfByte(Rem(), [], Zeros(CHAR_BIT), Poly(), rft_in_);
      while p < |msg|
        invariant 0 <= p <= |msg| && Valid()
        invariant Rem() == Remainder(old(Rem()), msg[..p], Poly(), rft_in_)
      {
        ProcessByte(msg[p]);
        RemainderOfByte(old(Rem()), msg[..p], msg[p], Poly(), rft_in_);
        assert msg[..p + 1] == msg[..p] + [msg[p]];
        p := p + 1;
      }
      assert msg[..|msg|] == msg;
    }

    method InterimRemainder() returns (r: Bits)
      requires Valid()
      ensures r == SigBits(rem_, bits)
    {
      r := SigBits(rem_, bits);
    }

    method Checksum() returns (c: Bits)
      requires Valid()
      ensures |c| == |rem_| == |final_|
      ensures forall i :: 0 <= i < bits ==>
        c[i] == ((if rft_out_ then Rem()[bits - 1 - i] else Rem()[i]) != final_[i])
      ensures c[..bits] == Output(Rem(), final_[..bits], rft_out_)
      ensures forall i :: bits <= i < |c| ==> !c[i]
    {
      var r := rem_;
      if rft_out_ {
        r := Reflect(rem_, bits);
      }
      c := SigBits(Xor(r, final_), bits);
      assert Xor(r, final_)[..bits] == Xor(r[..bits], final_[..bits]);
      OutputMeans(Rem(), final_[..bits], rft_out_, c);
    }
  }

  // ---- crc_table_t ----

  /** What the table must hold at the index of byte x. */
  ghost predicate EntryFor(entry: Bits, x: Byte, bits: nat, poly: Bits, reflect: bool)
    requires 0 < bits <= |poly|
  {
    && |entry| == |poly|
    && entry[..bits] == Stored(Divide(Zeros(bits), Order(x, reflect), poly[..bits]), reflect)
    && (reflect ==> forall j :: bits <= j < |entry| ==> !entry[j])
  }

  /** The dividend written at index i is the one whose stored form has number i. */
  lemma IndexOfDividend(i: nat, dividend: nat, reflect: bool)
    requires i < 256 && Num(Stored(ToBits(i, CHAR_BIT), reflect)) == dividend
    ensures i == Num(Stored(ToBits(dividend, CHAR_BIT), reflect))
  {
    var x := ToBits(i, CHAR_BIT);
    ByteIndex(Stored(x, reflect));
    StoredTwice(x, reflect);
    assert Pow2(CHAR_BIT) == 256;
    NumOfToBits(i, CHAR_BIT);
  }

  lemma EntryOfDividend(d: Byte, x: Byte, remainder: Bits, entry: Bits, bits: nat, poly: Bits, reflect: bool)
    requires 0 < bits <= |poly| == |remainder| == |entry|
    requires remainder[..bits] == Divide(Zeros(bits), Reverse(d), poly[..bits])
    requires x[..CHAR_BIT] == Stored(d[..CHAR_BIT], reflect)
    requires entry[..bits] == Stored(remainder[..bits], reflect)
    requires reflect ==> forall i :: bits <= i < |entry| ==> !entry[i]
    ensures x == Stored(d, reflect) && EntryFor(entry, x, bits, poly, reflect)
  {
    hide Divide;
    assert d[..CHAR_BIT] == d && x[..CHAR_BIT] == x;
    assert Order(x, reflect) == Reverse(d);
  }

  /** The entries of the first n dividends are in place. */
  ghost predicate FilledTo(t: seq<Bits>, n: nat, bits: nat, poly: Bits, reflect: bool)
    requires 0 < bits <= |poly|
  {
    && |t| == 256
    && forall i :: 0 <= i < 256 && Num(Stored(ToBits(i, CHAR_BIT), reflect)) < n ==>
      EntryFor(t[i], ToBits(i, CHAR_BIT), bits, poly, reflect)
  }

  lemma FillNext(t: seq<Bits>, n: nat, entry: Bits, bits: nat, poly: Bits, reflect: bool)
    requires 0 < bits <= |poly| && FilledTo(t, n, bits, poly, reflect) && n < 256
    requires EntryFor(entry, Stored(ToBits(n, CHAR_BIT), reflect), bits, poly, reflect)
    ensures Num(Stored(ToBits(n, CHAR_BIT), reflect)) < 256
    ensures FilledTo(t[Num(Stored(ToBits(n, CHAR_BIT), reflect)) := entry], n + 1, bits, poly, reflect)
  {
    hide EntryFor, Num;
    var x := Stored(ToBits(n, CHAR_BIT), reflect);
    ByteIndex(x);
    var t' := t[Num(x) := entry];
    forall i | 0 <= i < 256 && Num(Stored(ToBits(i, CHAR_BIT), reflect)) < n + 1
      ensures EntryFor(t'[i], ToBits(i, CHAR_BIT), bits, poly, reflect)
    {
      if Num(Stored(ToBits(i, CHAR_BIT), reflect)) == n {
        IndexOfDividend(i, n, reflect);
      }
    }
  }

  lemma FilledNone(t: seq<Bits>, bits: nat, poly: Bits, reflect: bool)
    requires 0 < bits <= |poly| && |t| == 256
    ensures FilledTo(t, 0, bits, poly, reflect)
  {
  }

  lemma FilledAll(t: seq<Bits>, bits: nat, poly: Bits, reflect: bool)
    requires 0 < bits <= |poly| && FilledTo(t, 256, bits, poly, reflect)
    ensures forall i :: 0 <= i < 256 ==> EntryFor(t[i], ToBits(i, CHAR_BIT), bits, poly, reflect)
  {
    hide EntryFor;
    forall i | 0 <= i < 256
      ensures Num(Stored(ToBits(i, CHAR_BIT), reflect)) < 256
    {
      ByteIndex(Stored(ToBits(i, CHAR_BIT), reflect));
    }
  }

  class CrcTable {
    const bits: nat
    const poly: Bits
    const reflect: bool
    const table_: array<Bits>
    var did_init: bool

    ghost predicate Valid()
      reads this, table_
    {
      && 0 < bits <= |poly| && CHAR_BIT <= |poly| && table_.Length == 256
      && (did_init ==> forall i :: 0 <= i < 256 ==> EntryFor(table_[i], ToBits(i, CHAR_BIT), bits, poly, reflect))
    }

    constructor (bits: nat, poly: Bits, reflect: bool)
      requires 0 < bits <= |poly| && CHAR_BIT <= |poly|
      ensures Valid() && !did_init && fresh(table_)
      ensures this.bits == bits && this.poly == poly && this.reflect == reflect
    {
      this.bits, this.poly, this.reflect := bits, poly, reflect;
      table_ := new Bits[256](_ => Zeros(|poly|));
      did_init := false;
    }

    /** The inner loop of init_table: the remainder of one dividend. */
    method Dividend(dividend: Byte) returns (remainder: Bits)
      requires 0 < bits <= |poly|
      ensures |remainder| == |poly|
      ensures remainder[..bits] == Divide(Zeros(bits), Reverse(dividend), poly[..bits])
    {
      hide Zeros, Reverse, Xor, Shl, Unit, DivideBit;
      var k := CHAR_BIT; // the mask has its one at position k - 1
      ghost var todo, start := Reverse(dividend), Zeros(bits);
      remainder := Zeros(|poly|);
      assert remainder[..bits] == start;
      while k > 0
        invariant 0 <= k <= CHAR_BIT && |remainder| == |poly|
        invariant todo == Reverse(dividend)[CHAR_BIT - k..]
        invariant Divide(remainder[..bits], todo, poly[..bits])
               == Divide(start, Reverse(dividend), poly[..bits])
      {
        StoreBitDivides(remainder, dividend[k - 1], poly, bits);
        XorZeros(remainder);
        ghost var before := remainder;
        if dividend[k - 1] {
          remainder := Xor(remainder, Unit(bits - 1, |poly|));
        }
        if remainder[bits - 1] {
          remainder := Shl(remainder, 1);
          remainder := Xor(remainder, poly);
        } else {
          remainder := Shl(remainder, 1);
          XorZeros(remainder);
        }
        assert remainder == StoreBit(before, dividend[k - 1], poly, bits);
        todo := todo[1..];
        k := k - 1;
      }
    }

    method InitTable()
      requires Valid()
      modifies this`did_init, table_
      ensures Valid() && did_init
    {
      hide FilledTo, EntryFor, Divide, Stored, Reverse, Zeros, Pow2, Num, ToBits;
      if did_init {
        return;
      }
      var dividend := 0;
      assert FilledTo(table_[..], 0, bits, poly, reflect) by {
        FilledNone(table_[..], bits, poly, reflect);
      }
      while dividend < 256
        invariant 0 <= dividend <= 256 && !did_init
        invariant FilledTo(table_[..], dividend, bits, poly, reflect)
      {
        ghost var before := table_[..];
        var d: Byte := ToBits(dividend, CHAR_BIT);
        var remainder := Dividend(d);
        var x := HelperReflect(d, CHAR_BIT, reflect);
        var entry := HelperReflect(remainder, bits, reflect);
        EntryOfDividend(d, x, remainder, entry, bits, poly, reflect);
        FillNext(before, dividend, entry, bits, poly, reflect);
        table_[Num(x)] := entry;
        assert table_[..] == before[Num(x) := entry];
        dividend := dividend + 1;
      }
      FilledAll(table_[..], bits, poly, reflect);
      assert forall i :: 0 <= i < 256 ==> table_[i] == table_[..][i];
      did_init := true;
    }
  }

  // ---- crc_optimal ----

  /** crc_helper::index: the byte compared with the remainder's highest byte. */
  function Index(rem: Bits, x: Byte, bits: nat, reflect: bool): Byte
    requires 0 < bits <= |rem| && CHAR_BIT <= |rem|
  {
    if reflect then Xor(x, rem[..CHAR_BIT])
    else if bits > CHAR_BIT then Xor(x, Shr(rem, bits - CHAR_BIT)[..CHAR_BIT])
    else Xor(x, Shl(rem, CHAR_BIT - bits)[..CHAR_BIT])
  }

  /** crc_helper::shift: the remainder with its highest byte shifted out. */
  function Shift(rem: Bits, reflect: bool): (s: Bits)
    ensures |s| == |rem|
  {
    if reflect then Shr(rem, CHAR_BIT) else Shl(rem, CHAR_BIT)
  }

  ghost predicate Clean(rem: Bits, bits: nat, reflect: bool)
  {
    reflect ==> forall i :: bits <= i < |rem| ==> !rem[i]
  }

  lemma IndexIsTop(rem: Bits, x: Byte, bits: nat, reflect: bool)
    requires 0 < bits <= |rem| && CHAR_BIT <= |rem| && Clean(rem, bits, reflect)
    ensures Order(Index(rem, x, bits, reflect), reflect)
         == Xor(Order(x, reflect), Top(Stored(rem[..bits], reflect), CHAR_BIT))
  {
    hide Xor, Shr, Shl, Reverse, Top;
    if reflect {
      assert rem[..CHAR_BIT] == Top(Stored(rem[..bits], reflect), CHAR_BIT);
    } else {
      var top :=
        if bits > CHAR_BIT then Shr(rem, bits - CHAR_BIT)[..CHAR_BIT] else Shl(rem, CHAR_BIT - bits)[..CHAR_BIT];
      assert Reverse(top) == Top(rem[..bits], CHAR_BIT);
      ReverseXor(x, top);
    }
  }

  lemma ShiftIsShl(rem: Bits, bits: nat, reflect: bool)
    requires 0 < bits <= |rem| && Clean(rem, bits, reflect)
    ensures Stored(Shift(rem, reflect)[..bits], reflect) == Shl(Stored(rem[..bits], reflect), CHAR_BIT)
    ensures Clean(Shift(rem, reflect), bits, reflect)
  {
    hide Shr, Shl, Reverse;
  }

  lemma StoredXor(a: Bits, b: Bits, bits: nat, reflect: bool)
    requires bits <= |a| == |b| && Clean(a, bits, reflect) && Clean(b, bits, reflect)
    ensures Stored(Xor(a, b)[..bits], reflect)
         == Xor(Stored(a[..bits], reflect), Stored(b[..bits], reflect))
    ensures Clean(Xor(a, b), bits, reflect)
  {
    assert Xor(a, b)[..bits] == Xor(a[..bits], b[..bits]);
    ReverseXor(a[..bits], b[..bits]);
  }

  lemma ReverseXor(a: Bits, b: Bits)
    requires |a| == |b|
    ensures Reverse(Xor(a, b)) == Xor(Reverse(a), Reverse(b))
  {
  }

  /** One table step is eight bit steps, whatever the width and the reflection. */
  lemma TableStep(rem: Bits, x: Byte, entry: Bits, bits: nat, poly: Bits, reflect: bool)
    requires 0 < bits <= |rem| == |poly| && CHAR_BIT <= |rem| && Clean(rem, bits, reflect)
    requires EntryFor(entry, Index(rem, x, bits, reflect), bits, poly, reflect)
    ensures |entry| == |rem|
    ensures Stored(Xor(Shift(rem, reflect), entry)[..bits], reflect)
         == Divide(Stored(rem[..bits], reflect), Order(x, reflect), poly[..bits])
    ensures Clean(Xor(Shift(rem, reflect), entry), bits, reflect)
  {
    hide Divide, Order, Index, Shift, Stored, Xor;
    var r := Stored(rem[..bits], reflect);
    IndexIsTop(rem, x, bits, reflect);
    ShiftIsShl(rem, bits, reflect);
    StoredXor(Shift(rem, reflect), entry, bits, reflect);
    StoredTwice(Divide(Zeros(bits), Order(Index(rem, x, bits, reflect), reflect), poly[..bits]), reflect);
    DivideByGroup(r, Order(x, reflect), poly[..bits]);
  }

  class CrcOptimal {
    const bits: nat
    const initRem: Bits
    const finalXor: Bits
    const reflectIn: bool
    const reflectRem: bool
    const table: CrcTable
    var rem_: Bits

    ghost predicate Valid()
      reads this, table, table.table_
    {
      && table.Valid() && table.did_init && table.bits == bits && table.reflect == reflectIn
      && |rem_| == |initRem| == |finalXor| == |table.poly|
      && Clean(rem_, bits, reflectIn)
    }

    /** The interim remainder: the register with the storage reflection undone. */
    ghost function Rem(): Bits
      reads this, table, table.table_
      requires Valid()
    {
      Stored(rem_[..bits], reflectIn)
    }

    ghost function Poly(): (p: Bits)
      reads this, table, table.table_
      requires Valid()
      ensures |p| == bits
    {
      table.poly[..bits]
    }

    constructor (table: CrcTable, initRem: Bits, finalXor: Bits, reflectRem: bool)
      requires table.Valid() && |initRem| == |finalXor| == |table.poly|
      modifies table`did_init, table.table_
      ensures Valid() && this.table == table && this.initRem == initRem && this.finalXor == finalXor
      ensures bits == table.bits && reflectIn == table.reflect && this.reflectRem == reflectRem
      ensures Rem() == initRem[..bits]
    {
      this.table, bits, reflectIn, this.reflectRem := table, table.bits, table.reflect, reflectRem;
      this.initRem, this.finalXor := initRem, finalXor;
      var r := HelperReflect(initRem, table.bits, table.reflect);
      rem_ := r;
      StoredTwice(initRem[..table.bits], table.reflect);
      new;
      table.InitTable();
    }

    method Reset(newRem: Bits)
      requires Valid() && |newRem| == |initRem|
      modifies `rem_
      ensures Valid() && Rem() == newRem[..bits]
    {
      rem_ := HelperReflect(newRem, bits, reflectIn);
      StoredTwice(newRem[..bits], reflectIn);
    }

    /** process_block, process_bytes, process_byte and operator(). */
    method ProcessBlock(msg: seq<Byte>)
      requires Valid()
      modifies `rem_
      ensures Valid() && Rem() == Remainder(old(Rem()), msg, Poly(), reflectIn)
    {
      hide Remainder, Divide, Order, Index, Shift, EntryFor, Clean;
      var p := 0;
      RemainderOfByte(Rem(), [], Zeros(CHAR_BIT), Poly(), reflectIn);
      while p < |msg|
        invariant 0 <= p <= |msg| && Valid()
        invariant Rem() == Remainder(old(Rem()), msg[..p], Poly(), reflectIn)
      {
        var byteIndex := Index(rem_, msg[p], bits, reflectIn);
        ByteIndex(byteIndex);
        TableStep(rem_, msg[p], table.table_[Num(byteIndex)], bits, table.poly, reflectIn);
        rem_ := Shift(rem_, reflectIn);
        rem_ := Xor(rem_, table.table_[Num(byteIndex)]);
        RemainderOfByte(old(Rem()), msg[..p], msg[p], Poly(), reflectIn);
        assert msg[..p + 1] == msg[..p] + [msg[p]];
        p := p + 1;
      }
      assert msg[..|msg|] == msg;
    }

    method InterimRemainder() returns (r: Bits)
      requires Valid()
      ensures |r| == |rem_| && r[..bits] == Rem()
      ensures forall i :: bits <= i < |r| ==> !r[i]
    {
      r := HelperReflect(rem_, bits, reflectIn);
      r := SigBits(r, bits);
    }

    method Checksum() returns (c: Bits)
      requires Valid()
      ensures |c| == |rem_| == |finalXor|
      ensures forall i :: 0 <= i < bits ==>
        c[i] == ((if reflectRem then Rem()[bits - 1 - i] else Rem()[i]) != finalXor[i])
      ensures c[..bits] == Output(Rem(), finalXor[..bits], reflectRem)
      ensures forall i :: bits <= i < |c| ==> !c[i]
    {
      var r := HelperReflect(rem_, bits, reflectRem != reflectIn);
      assert r[..bits] == Stored(Rem(), reflectRem) by {
        StoredTwice(rem_[..bits], reflectIn);
      }
      c := SigBits(Xor(r, finalXor), bits);
      assert Xor(r, finalXor)[..bits] == Xor(r[..bits], finalXor[..bits]);
      OutputMeans(Rem(), finalXor[..bits], reflectRem, c);
    }
  }

  /** crc<>(): a fresh table-driven computer over one buffer. */
  method Crc(table: CrcTable, initRem: Bits, finalXor: Bits, reflectRem: bool, msg: seq<Byte>)
    returns (c: Bits)
    requires table.Valid() && |initRem| == |finalXor| == |table.poly|
    modifies table`did_init, table.table_
    ensures |c| == |initRem|
    ensures c[..table.bits] == Output(
        Remainder(initRem[..table.bits], msg, table.poly[..table.bits], table.reflect),
        finalXor[..table.bits], reflectRem)
    ensures forall i :: table.bits <= i < |c| ==> !c[i]
  {
    var computer := new CrcOptimal(table, initRem, finalXor, reflectRem);
    computer.ProcessBlock(msg);
    c := computer.Checksum();
  }

  /** The table-driven engine against the bit-at-a-time one, each with its own
      storage width, on parameters that agree on the significant bits. */
  method BothEngines(
      bits: nat, poly: Bits, init: Bits, final: Bits,
      fastPoly: Bits, fastInit: Bits, fastFinal: Bits,
      reflectIn: bool, reflectRem: bool, msg: seq<Byte>)
    returns (slowRem: Bits, slowSum: Bits, fastRem: Bits, fastSum: Bits)
    requires 0 < bits <= |poly| == |init| == |final|
    requires 0 < bits <= |fastPoly| == |fastInit| == |fastFinal| && CHAR_BIT <= |fastPoly|
    requires poly[..bits] == fastPoly[..bits] && init[..bits] == fastInit[..bits]
          && final[..bits] == fastFinal[..bits]
    ensures |slowRem| == |slowSum| == |poly| && |fastRem| == |fastSum| == |fastPoly|
    ensures slowRem[..bits] == fastRem[..bits] && slowSum[..bits] == fastSum[..bits]
    ensures forall i :: bits <= i < |poly| ==> !slowRem[i] && !slowSum[i]
    ensures forall i :: bits <= i < |fastPoly| ==> !fastRem[i] && !fastSum[i]
  {
    var slow := new CrcBasic(bits, poly, init, final, reflectIn, reflectRem);
    slow.ProcessBlock(msg);
    slowRem := slow.InterimRemainder();
    slowSum := slow.Checksum();
    var table := new CrcTable(bits, fastPoly, reflectIn);
    var fast := new CrcOptimal(table, fastInit, fastFinal, reflectRem);
    fast.ProcessBlock(msg);
    fastRem := fast.InterimRemainder();
    fastSum := fast.Checksum();
  }

  // ---- augmented_crc ----

  function Or(a: Bits, b: Bits): (c: Bits)
    requires |a| == |b|
    ensures |c| == |a| && forall i :: 0 <= i < |c| ==> c[i] == (a[i] || b[i])
  {
    seq(|a|, i requires 0 <= i < |a| => a[i] || b[i])
  }

  lemma AugmentedStep(rem: Bits, x: Byte, entry: Bits, bits: nat, poly: Bits)
    requires CHAR_BIT <= bits <= |rem| == |poly|
    requires EntryFor(entry, Shr(rem, bits - CHAR_BIT)[..CHAR_BIT], bits, poly, false)
    ensures |entry| == |rem|
    ensures Xor(Or(Shl(rem, CHAR_BIT), x + Zeros(|rem| - CHAR_BIT)), entry)[..bits]
         == Augment(rem[..bits], Reverse(x), poly[..bits])
  {
    hide Divide, Augment, ShiftIn, Top, Shr, Shl, Xor, Or, Zeros;
    var r := rem[..bits];
    AugmentByGroup(r, Reverse(x), poly[..bits]);
    assert Reverse(Shr(rem, bits - CHAR_BIT)[..CHAR_BIT]) == Top(r, CHAR_BIT);
    assert Or(Shl(rem, CHAR_BIT), x + Zeros(|rem| - CHAR_BIT))[..bits] == ShiftIn(r, Reverse(x));
  }

  lemma AugmentOfByte(r: Bits, msg: seq<Byte>, b: Byte, poly: Bits)
    requires |r| == |poly| > 0
    ensures Augment(r, MessageBits([], false), poly) == r
    ensures Augment(r, MessageBits(msg + [b], false), poly)
         == Augment(Augment(r, MessageBits(msg, false), poly), Reverse(b), poly)
  {
    hide Reverse, AugmentBit;
    MessageAppend(msg, [b], false);
    MessageOfOne(b, false);
    AugmentAppend(r, MessageBits(msg, false), Reverse(b), poly);
  }

  method AugmentedCrc(table: CrcTable, msg: seq<Byte>, initialRemainder: Bits) returns (c: Bits)
    requires table.Valid() && !table.reflect && CHAR_BIT <= table.bits
    requires |initialRemainder| == |table.poly|
    modifies table`did_init, table.table_
    ensures |c| == |initialRemainder|
    ensures c[..table.bits]
         == Augment(initialRemainder[..table.bits], MessageBits(msg, false), table.poly[..table.bits])
    ensures forall i :: table.bits <= i < |c| ==> !c[i]
  {
    hide Augment, MessageBits, EntryFor, Zeros;
    var rem := initialRemainder;
    var bits := table.bits;
    ghost var start, poly := rem[..bits], table.poly[..bits];
    table.InitTable();
    AugmentOfByte(start, [], Zeros(CHAR_BIT), poly);
    var p := 0;
    while p < |msg|
      invariant 0 <= p <= |msg| && |rem| == |table.poly| && table.Valid() && table.did_init
      invariant rem[..bits] == Augment(start, MessageBits(msg[..p], false), poly)
    {
      var byteIndex: Byte := Shr(rem, bits - CHAR_BIT)[..CHAR_BIT];
      ByteIndex(byteIndex);
      AugmentedStep(rem, msg[p], table.table_[Num(byteIndex)], bits, table.poly);
      AugmentOfByte(start, msg[..p], msg[p], poly);
      rem := Shl(rem, CHAR_BIT);
      rem := Or(rem, msg[p] + Zeros(|rem| - CHAR_BIT));
      rem := Xor(rem, table.table_[Num(byteIndex)]);
      assert msg[..p + 1] == msg[..p] + [msg[p]];
      p := p + 1;
    }
    assert msg[..|msg|] == msg;
    c := SigBits(rem, bits);
  }

  lemma {:induction false} ZeroBytes(n: nat)
    ensures MessageBits(seq(n, _ => Zeros(CHAR_BIT)), false) == Zeros(CHAR_BIT * n)
  {
    var zs := seq(n, _ => Zeros(CHAR_BIT));
    if n > 0 {
      ZeroBytes(n - 1);
      assert zs[1..] == seq(n - 1, _ => Zeros(CHAR_BIT));
      assert Reverse(Zeros(CHAR_BIT)) == Zeros(CHAR_BIT);
      assert Zeros(CHAR_BIT) + Zeros(CHAR_BIT * (n - 1)) == Zeros(CHAR_BIT * n);
    }
  }

  /** The plain CRC whose start is the initial remainder of the augmented form,
      pushed through as many zeros as the CRC is wide. */
  ghost function PlainCrc(r: Bits, msg: seq<Byte>, poly: Bits): (c: Bits)
    requires |r| == |poly| > 0
    ensures |c| == |r|
  {
    Remainder(Augment(r, Zeros(|r|), poly), msg, poly, false)
  }

  /** The augmented form run over a message and as many zero bytes as the CRC is
      wide is the ordinary CRC, started from the pushed initial remainder. */
  lemma AugmentedWithZeroBytes(r: Bits, msg: seq<Byte>, n: nat, poly: Bits)
    requires |r| == |poly| == CHAR_BIT * n > 0
    ensures Augment(r, MessageBits(msg + seq(n, _ => Zeros(CHAR_BIT)), false), poly)
         == PlainCrc(r, msg, poly)
  {
    var zs := seq(n, _ => Zeros(CHAR_BIT));
    MessageAppend(msg, zs, false);
    ZeroBytes(n);
    AugmentedIsPlain(r, MessageBits(msg, false), poly);
  }

  lemma AugmentedFromZero(msg: seq<Byte>, n: nat, poly: Bits)
    requires |poly| == CHAR_BIT * n > 0
    ensures Augment(Zeros(|poly|), MessageBits(msg + seq(n, _ => Zeros(CHAR_BIT)), false), poly)
         == Remainder(Zeros(|poly|), msg, poly, false)
  {
    AugmentedWithZeroBytes(Zeros(|poly|), msg, n, poly);
    AugmentZero(|poly|, poly);
  }

  /** The n bytes of a remainder, highest first. */
  function BigEndian(r: Bits, n: nat): (bs: seq<Byte>)
    requires |r| == CHAR_BIT * n
    ensures |bs| == n
    decreases n
  {
    if n == 0 then [] else [r[|r| - CHAR_BIT..]] + BigEndian(r[..|r| - CHAR_BIT], n - 1)
  }

  lemma ReverseSplit(r: Bits, k: nat)
    requires k <= |r|
    ensures Reverse(r[k..]) + Reverse(r[..k]) == Reverse(r)
  {
  }

  lemma {:induction false} BigEndianBits(r: Bits, n: nat)
    requires |r| == CHAR_BIT * n
    ensures MessageBits(BigEndian(r, n), false) == Reverse(r)
    decreases n
  {
    hide Reverse;
    if n > 0 {
      var k := |r| - CHAR_BIT;
      BigEndianBits(r[..k], n - 1);
      assert BigEndian(r, n)[1..] == BigEndian(r[..k], n - 1);
      ReverseSplit(r, k);
      assert BigEndian(r, n)[0] == r[k..];
    }
  }

  lemma {:induction false} MessageBitsInjective(a: seq<Byte>, b: seq<Byte>)
    requires |a| == |b| && MessageBits(a, false) == MessageBits(b, false)
    ensures a == b
  {
    if a != [] {
      var u, v := MessageBits(a, false), MessageBits(b, false);
      assert u[..CHAR_BIT] == Reverse(a[0]) && v[..CHAR_BIT] == Reverse(b[0]);
      assert Reverse(Reverse(a[0])) == a[0] && Reverse(Reverse(b[0])) == b[0];
      assert u[CHAR_BIT..] == MessageBits(a[1..], false) && v[CHAR_BIT..] == MessageBits(b[1..], false);
      MessageBitsInjective(a[1..], b[1..]);
    }
  }

  /** The receiver's check: the augmented CRC of a message with a trailer is zero
      exactly when the trailer is the message's CRC, highest byte first. */
  lemma TrailerCheck(r: Bits, msg: seq<Byte>, trailer: seq<Byte>, poly: Bits)
    requires |r| == |poly| == CHAR_BIT * |trailer| > 0
    ensures Augment(r, MessageBits(msg + trailer, false), poly) == Zeros(|poly|)
        <==> trailer == BigEndian(PlainCrc(r, msg, poly), |trailer|)
  {
    hide Augment, PlainCrc, Zeros, BigEndian, Reverse, MessageBits;
    TrailerCancels(r, msg, trailer, poly);
    TrailerIs(PlainCrc(r, msg, poly), trailer);
  }

  lemma TrailerIs(crc: Bits, trailer: seq<Byte>)
    requires |crc| == CHAR_BIT * |trailer|
    ensures MessageBits(trailer, false) == Reverse(crc) <==> trailer == BigEndian(crc, |trailer|)
  {
    hide BigEndian, Reverse, MessageBits;
    BigEndianBits(crc, |trailer|);
    SameMessage(trailer, BigEndian(crc, |trailer|));
  }

  lemma TrailerCancels(r: Bits, msg: seq<Byte>, trailer: seq<Byte>, poly: Bits)
    requires |r| == |poly| == CHAR_BIT * |trailer| > 0
    ensures Augment(r, MessageBits(msg + trailer, false), poly) == Zeros(|poly|)
        <==> MessageBits(trailer, false) == Reverse(PlainCrc(r, msg, poly))
  {
    hide Augment, PlainCrc, Zeros, Reverse, Xor, MessageBits;
    var crc, v := PlainCrc(r, msg, poly), MessageBits(trailer, false);
    AugmentedTrailer(r, msg, trailer, poly);
    XorIsZero(crc, Reverse(v));
    ReverseSwapped(crc, v);
  }

  lemma SameMessage(a: seq<Byte>, b: seq<Byte>)
    requires |a| == |b|
    ensures MessageBits(a, false) == MessageBits(b, false) <==> a == b
  {
    if MessageBits(a, false) == MessageBits(b, false) {
      MessageBitsInjective(a, b);
    }
  }

  lemma ReverseSwapped(a: Bits, b: Bits)
    ensures a == Reverse(b) <==> b == Reverse(a)
  {
    hide Reverse;
    ReverseTwice(a);
    ReverseTwice(b);
  }

  lemma AugmentedTrailer(r: Bits, msg: seq<Byte>, trailer: seq<Byte>, poly: Bits)
    requires |r| == |poly| == CHAR_BIT * |trailer| > 0
    ensures Augment(r, MessageBits(msg + trailer, false), poly)
         == Xor(PlainCrc(r, msg, poly), Reverse(MessageBits(trailer, false)))
  {
    hide Augment, Divide, Zeros, MessageBits, Reverse, Xor;
    MessageAppend(msg, trailer, false);
    AppendedBits(r, MessageBits(msg, false), MessageBits(trailer, false), poly);
  }

  lemma ReverseTwice(a: Bits)
    ensures Reverse(Reverse(a)) == a
  {
  }

  lemma XorIsZero(a: Bits, b: Bits)
    requires |a| == |b|
    ensures Xor(a, b) == Zeros(|a|) <==> a == b
  {
    if Xor(a, b) == Zeros(|a|) {
      forall i | 0 <= i < |a| ensures a[i] == b[i] {
        assert !Xor(a, b)[i];
      }
    }
  }
}
