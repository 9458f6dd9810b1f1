/** Bit registers and binary polynomial division, the mathematics under the CRC
    engines of library/boost/boost/crc.hpp.

    A register is a sequence of bits with index 0 the least significant one, so
    a width of the C++ templates is a length here and every result below holds
    for every width.  A bit stream is a sequence in the order of transmission. */
module Gf2 {

  type Bits = seq<bool>

  function Zeros(n: nat): (z: Bits)
    ensures |z| == n && forall i :: 0 <= i < n ==> !z[i]
  {
    seq(n, _ => false)
  }

  function Xor(a: Bits, b: Bits): (c: Bits)
    requires |a| == |b|
    ensures |c| == |a| && forall i :: 0 <= i < |c| ==> c[i] == (a[i] != b[i])
  {
    seq(|a|, i requires 0 <= i < |a| => a[i] != b[i])
  }

  function Shl(a: Bits, k: nat): (c: Bits)
    ensures |c| == |a| && forall i :: 0 <= i < |c| ==> c[i] == (k <= i && a[i - k])
  {
    seq(|a|, i requires 0 <= i < |a| => k <= i && a[i - k])
  }

  function Shr(a: Bits, k: nat): (c: Bits)
    ensures |c| == |a| && forall i :: 0 <= i < |c| ==> c[i] == (i + k < |a| && a[i + k])
  {
    seq(|a|, i requires 0 <= i < |a| => i + k < |a| && a[i + k])
  }

  function Reverse(a: Bits): (c: Bits)
    ensures |c| == |a| && forall i :: 0 <= i < |c| ==> c[i] == a[|a| - 1 - i]
  {
    seq(|a|, i requires 0 <= i < |a| => a[|a| - 1 - i])
  }

  function Gate(on: bool, p: Bits): (c: Bits)
    ensures |c| == |p|
  {
    if on then p else Zeros(|p|)
  }

  /** The top k bits of a register in order of transmission, zeros once it is exhausted. */
  function Top(r: Bits, k: nat): (t: Bits)
    ensures |t| == k && forall j :: 0 <= j < k ==> t[j] == (j < |r| && r[|r| - 1 - j])
  {
    seq(k, j requires 0 <= j < k => j < |r| && r[|r| - 1 - j])
  }

  /** One step of the division: compare the bit with the top of the register,
      shift, subtract the divisor when they differ. */
  function DivideBit(r: Bits, bit: bool, poly: Bits): (c: Bits)
    requires |r| == |poly| > 0
    ensures |c| == |r|
  {
    Xor(Shl(r, 1), Gate(r[|r| - 1] != bit, poly))
  }

  function Divide(r: Bits, u: Bits, poly: Bits): (c: Bits)
    requires |r| == |poly| > 0
    ensures |c| == |r|
    decreases |u|
  {
    if u == [] then r else Divide(DivideBit(r, u[0], poly), u[1..], poly)
  }

  function ShiftBit(a: Bits, bit: bool): (c: Bits)
    requires |a| > 0
    ensures |c| == |a| && forall i :: 0 <= i < |c| ==> c[i] == if i == 0 then bit else a[i - 1]
  {
    [bit] + a[..|a| - 1]
  }

  /** One step of long division proper: the bit enters at the bottom of the register. */
  function AugmentBit(a: Bits, bit: bool, poly: Bits): (c: Bits)
    requires |a| == |poly| > 0
    ensures |c| == |a|
  {
    Xor(ShiftBit(a, bit), Gate(a[|a| - 1], poly))
  }

  function Augment(a: Bits, u: Bits, poly: Bits): (c: Bits)
    requires |a| == |poly| > 0
    ensures |c| == |a|
    decreases |u|
  {
    if u == [] then a else Augment(AugmentBit(a, u[0], poly), u[1..], poly)
  }

  // ---- single steps ----

  lemma DivideNext(r: Bits, u: Bits, poly: Bits)
    requires |r| == |poly| > 0
    ensures if u == [] then Divide(r, u, poly) == r
      else Divide(r, u, poly) == Divide(DivideBit(r, u[0], poly), u[1..], poly)
  {
  }

  lemma AugmentNext(a: Bits, u: Bits, poly: Bits)
    requires |a| == |poly| > 0
    ensures if u == [] then Augment(a, u, poly) == a
      else Augment(a, u, poly) == Augment(AugmentBit(a, u[0], poly), u[1..], poly)
  {
  }

  lemma XorNext(u: Bits, v: Bits)
    requires |u| == |v| > 0
    ensures Xor(u, v)[1..] == Xor(u[1..], v[1..]) && Xor(u, v)[0] == (u[0] != v[0])
  {
  }

  lemma XorAssociates(a: Bits, b: Bits, c: Bits)
    requires |a| == |b| == |c|
    ensures Xor(Xor(a, b), c) == Xor(a, Xor(b, c))
  {
  }

  lemma XorExchanges(a: Bits, b: Bits, c: Bits, d: Bits)
    requires |a| == |b| == |c| == |d|
    ensures Xor(Xor(a, b), Xor(c, d)) == Xor(Xor(a, c), Xor(b, d))
  {
    forall i | 0 <= i < |a| ensures Xor(Xor(a, b), Xor(c, d))[i] == Xor(Xor(a, c), Xor(b, d))[i] {
    }
  }

  lemma ShlXor(a: Bits, b: Bits)
    requires |a| == |b|
    ensures Shl(Xor(a, b), 1) == Xor(Shl(a, 1), Shl(b, 1))
  {
  }

  lemma ShiftBitXor(a: Bits, b: Bits, x: bool, y: bool)
    requires |a| == |b| > 0
    ensures ShiftBit(Xor(a, b), x != y) == Xor(ShiftBit(a, x), ShiftBit(b, y))
  {
  }

  lemma ShiftBitZero(a: Bits)
    requires |a| > 0
    ensures ShiftBit(a, false) == Shl(a, 1)
  {
  }

  lemma GateXor(p: bool, q: bool, poly: Bits)
    ensures Gate(p != q, poly) == Xor(Gate(p, poly), Gate(q, poly))
  {
  }

  lemma DivideBitLinear(a: Bits, b: Bits, x: bool, y: bool, poly: Bits)
    requires |a| == |b| == |poly| > 0
    ensures DivideBit(Xor(a, b), x != y, poly) == Xor(DivideBit(a, x, poly), DivideBit(b, y, poly))
  {
    hide Xor, Shl, Gate;
    var p, q := a[|a| - 1] != x, b[|b| - 1] != y;
    assert (Xor(a, b)[|a| - 1] != (x != y)) == (p != q);
    ShlXor(a, b);
    GateXor(p, q, poly);
    XorExchanges(Shl(a, 1), Shl(b, 1), Gate(p, poly), Gate(q, poly));
  }

  lemma AugmentBitLinear(a: Bits, b: Bits, x: bool, y: bool, poly: Bits)
    requires |a| == |b| == |poly| > 0
    ensures AugmentBit(Xor(a, b), x != y, poly) == Xor(AugmentBit(a, x, poly), AugmentBit(b, y, poly))
  {
    hide Xor, ShiftBit, Gate;
    var p, q := a[|a| - 1], b[|b| - 1];
    assert Xor(a, b)[|a| - 1] == (p != q);
    ShiftBitXor(a, b, x, y);
    GateXor(p, q, poly);
    XorExchanges(ShiftBit(a, x), ShiftBit(b, y), Gate(p, poly), Gate(q, poly));
  }

  lemma StepsAgree(a: Bits, bit: bool, poly: Bits)
    requires |a| == |poly| > 0
    ensures Xor(AugmentBit(a, false, poly), Gate(bit, poly)) == DivideBit(a, bit, poly)
    ensures AugmentBit(a, false, poly) == DivideBit(a, false, poly)
  {
    hide Xor, Shl, Gate, ShiftBit;
    var top := a[|a| - 1];
    ShiftBitZero(a);
    GateXor(top, bit, poly);
    XorAssociates(Shl(a, 1), Gate(top, poly), Gate(bit, poly));
  }

  // ---- streams ----

  lemma {:induction false} DivideAppend(r: Bits, u: Bits, v: Bits, poly: Bits)
    requires |r| == |poly| > 0
    ensures Divide(r, u + v, poly) == Divide(Divide(r, u, poly), v, poly)
    decreases |u|
  {
    if u == [] {
      assert u + v == v;
    } else {
      assert (u + v)[1..] == u[1..] + v;
      DivideAppend(DivideBit(r, u[0], poly), u[1..], v, poly);
    }
  }

  lemma {:induction false} AugmentAppend(a: Bits, u: Bits, v: Bits, poly: Bits)
    requires |a| == |poly| > 0
    ensures Augment(a, u + v, poly) == Augment(Augment(a, u, poly), v, poly)
    decreases |u|
  {
    if u == [] {
      assert u + v == v;
    } else {
      assert (u + v)[1..] == u[1..] + v;
      AugmentAppend(AugmentBit(a, u[0], poly), u[1..], v, poly);
    }
  }

  // ---- linearity ----

  lemma {:induction false} DivideLinear(a: Bits, b: Bits, u: Bits, v: Bits, poly: Bits)
    requires |a| == |b| == |poly| > 0 && |u| == |v|
    ensures Divide(Xor(a, b), Xor(u, v), poly) == Xor(Divide(a, u, poly), Divide(b, v, poly))
    decreases |u|
  {
    hide Divide, DivideBit, Xor;
    DivideNext(a, u, poly);
    DivideNext(b, v, poly);
    DivideNext(Xor(a, b), Xor(u, v), poly);
    if u != [] {
      XorNext(u, v);
      DivideBitLinear(a, b, u[0], v[0], poly);
      DivideLinear(DivideBit(a, u[0], poly), DivideBit(b, v[0], poly), u[1..], v[1..], poly);
    }
  }

  lemma {:induction false} AugmentLinear(a: Bits, b: Bits, u: Bits, v: Bits, poly: Bits)
    requires |a| == |b| == |poly| > 0 && |u| == |v|
    ensures Augment(Xor(a, b), Xor(u, v), poly) == Xor(Augment(a, u, poly), Augment(b, v, poly))
    decreases |u|
  {
    hide Augment, AugmentBit, Xor;
    AugmentNext(a, u, poly);
    AugmentNext(b, v, poly);
    AugmentNext(Xor(a, b), Xor(u, v), poly);
    if u != [] {
      XorNext(u, v);
      AugmentBitLinear(a, b, u[0], v[0], poly);
      AugmentLinear(AugmentBit(a, u[0], poly), AugmentBit(b, v[0], poly), u[1..], v[1..], poly);
    }
  }

  lemma {:induction false} DivideZero(k: nat, poly: Bits)
    requires |poly| > 0
    ensures Divide(Zeros(|poly|), Zeros(k), poly) == Zeros(|poly|)
  {
    if k > 0 {
      assert DivideBit(Zeros(|poly|), false, poly) == Zeros(|poly|);
      assert Zeros(k)[1..] == Zeros(k - 1);
      DivideZero(k - 1, poly);
    }
  }

  lemma XorZeros(a: Bits)
    ensures Xor(a, Zeros(|a|)) == a && Xor(Zeros(|a|), a) == a
  {
  }

  lemma XorRearranged(s: Bits, y: Bits, x: Bits)
    requires |s| == |y| == |x|
    ensures Xor(Xor(s, y), x) == Xor(s, Xor(x, y))
  {
  }

  lemma ShlShl(a: Bits, u: Bits)
    requires |u| > 0
    ensures Shl(Shl(a, 1), |u[1..]|) == Shl(a, |u|)
  {
  }

  lemma TopAfterShl(r: Bits, u: Bits)
    requires |r| > 0 && |u| > 0
    ensures Xor(u, Top(r, |u|))[1..] == Xor(u[1..], Top(Shl(r, 1), |u[1..]|))
    ensures Xor(u, Top(r, |u|))[0] == (r[|r| - 1] != u[0])
  {
  }

  lemma TopAfterShiftIn(a: Bits, u: Bits)
    requires 0 < |u| <= |a|
    ensures Top(a, |u|)[1..] == Top(ShiftBit(a, u[0]), |u[1..]|)
    ensures Top(a, |u|)[0] == a[|a| - 1]
  {
  }

  lemma ShiftInFirst(a: Bits, u: Bits)
    requires |a| > 0 && |u| > 0
    ensures ShiftIn(ShiftBit(a, u[0]), u[1..]) == ShiftIn(a, u)
  {
  }

  lemma ZerosGrow(n: nat)
    ensures [false] + Zeros(n) == Zeros(n) + [false] == Zeros(n + 1)
  {
  }

  lemma OneBit(a: Bits, bit: bool, poly: Bits)
    requires |a| == |poly| > 0
    ensures Augment(a, [bit], poly) == AugmentBit(a, bit, poly)
  {
    assert [bit][1..] == [];
  }

  lemma UnitClimbs(k: nat, poly: Bits)
    requires k < |poly|
    ensures AugmentBit(Unit(k, |poly|), false, poly)
         == if k == |poly| - 1 then poly else Unit(k + 1, |poly|)
  {
    hide Zeros, Xor;
  }

  /** The register and the stream contribute separately. */
  lemma DivideSplit(a: Bits, b: Bits, u: Bits, poly: Bits)
    requires |a| == |b| == |poly| > 0
    ensures Divide(Xor(a, b), u, poly) == Xor(Divide(a, u, poly), Divide(b, Zeros(|u|), poly))
  {
    XorZeros(u);
    DivideLinear(a, b, u, Zeros(|u|), poly);
  }

  lemma AugmentSplit(a: Bits, b: Bits, u: Bits, poly: Bits)
    requires |a| == |b| == |poly| > 0
    ensures Augment(Xor(a, b), u, poly) == Xor(Augment(a, u, poly), Augment(b, Zeros(|u|), poly))
  {
    XorZeros(u);
    AugmentLinear(a, b, u, Zeros(|u|), poly);
  }

  lemma DivideFromRegister(a: Bits, u: Bits, poly: Bits)
    requires |a| == |poly| > 0
    ensures Divide(a, u, poly) == Xor(Divide(a, Zeros(|u|), poly), Divide(Zeros(|a|), u, poly))
  {
    XorZeros(a);
    XorZeros(u);
    DivideLinear(a, Zeros(|a|), Zeros(|u|), u, poly);
  }

  // ---- many bits at once ----

  /** A group whose first bit equals the top of the register, seen from a zero register. */
  lemma GroupFromZero(g: Bits, poly: Bits)
    requires |poly| > 0 && |g| > 0
    ensures Divide(Zeros(|poly|), g, poly)
         == Xor(Divide(Gate(g[0], poly), Zeros(|g[1..]|), poly), Divide(Zeros(|poly|), g[1..], poly))
  {
    hide Zeros, Xor, Shl;
    var z := Zeros(|poly|);
    assert Shl(z, 1) == z;
    XorZeros(Gate(g[0], poly));
    assert DivideBit(z, g[0], poly) == Gate(g[0], poly);
    DivideFromRegister(Gate(g[0], poly), g[1..], poly);
  }

  /** The fact every CRC table rests on: dividing by a whole group of bits is a
      shift of the register plus the division, from zero, of the group compared
      with the bits shifted out.  It holds for groups wider than the register. */
  lemma {:induction false} DivideByGroup(r: Bits, u: Bits, poly: Bits)
    requires |r| == |poly| > 0
    ensures Divide(r, u, poly)
         == Xor(Shl(r, |u|), Divide(Zeros(|r|), Xor(u, Top(r, |u|)), poly))
    decreases |u|
  {
    hide Zeros, Xor, Shl, Gate, Top;
    if u == [] {
      XorZeros(r);
      assert Shl(r, 0) == r;
      assert Xor(u, Top(r, 0)) == [];
    } else {
      var shifted, rest := Shl(r, 1), u[1..];
      var whole := Xor(u, Top(r, |u|));
      DivideSplit(shifted, Gate(whole[0], poly), rest, poly);
      DivideByGroup(shifted, rest, poly);
      GroupFromZero(whole, poly);
      TopAfterShl(r, u);
      ShlShl(r, u);
      XorRearranged(Shl(r, |u|), Divide(Zeros(|r|), whole[1..], poly),
                    Divide(Gate(whole[0], poly), Zeros(|rest|), poly));
    }
  }

  lemma {:induction false} ZeroBitsAgree(a: Bits, k: nat, poly: Bits)
    requires |a| == |poly| > 0
    ensures Augment(a, Zeros(k), poly) == Divide(a, Zeros(k), poly)
    decreases k
  {
    hide Augment, AugmentBit, Divide, DivideBit;
    AugmentNext(a, Zeros(k), poly);
    DivideNext(a, Zeros(k), poly);
    if k > 0 {
      StepsAgree(a, false, poly);
      assert Zeros(k)[1..] == Zeros(k - 1);
      ZeroBitsAgree(AugmentBit(a, false, poly), k - 1, poly);
    }
  }

  /** The register after a stream has been shifted in at the bottom, nothing subtracted. */
  function ShiftIn(a: Bits, u: Bits): (c: Bits)
    ensures |c| == |a|
    ensures forall i :: 0 <= i < |c| ==> c[i] == if i < |u| then u[|u| - 1 - i] else a[i - |u|]
  {
    seq(|a|, i requires 0 <= i < |a| => if i < |u| then u[|u| - 1 - i] else a[i - |u|])
  }

  lemma AugmentFirst(a: Bits, u: Bits, poly: Bits)
    requires |a| == |poly| > 0 && |u| > 0
    ensures Augment(a, u, poly)
         == Xor(Augment(ShiftBit(a, u[0]), u[1..], poly),
                Divide(Gate(a[|a| - 1], poly), Zeros(|u[1..]|), poly))
  {
    hide Zeros, Xor, Gate, ShiftBit;
    var shifted, first := ShiftBit(a, u[0]), Gate(a[|a| - 1], poly);
    AugmentSplit(shifted, first, u[1..], poly);
    ZeroBitsAgree(first, |u[1..]|, poly);
  }

  /** The table step of the augmented form: valid while the group fits the register. */
  lemma {:induction false} AugmentByGroup(a: Bits, u: Bits, poly: Bits)
    requires |u| <= |a| == |poly| && |a| > 0
    ensures Augment(a, u, poly)
         == Xor(ShiftIn(a, u), Divide(Zeros(|a|), Top(a, |u|), poly))
    decreases |u|
  {
    hide Zeros, Xor, ShiftIn, Gate, Top, ShiftBit;
    if u == [] {
      XorZeros(a);
      assert ShiftIn(a, u) == a;
      assert Top(a, 0) == [];
    } else {
      var shifted, rest := ShiftBit(a, u[0]), u[1..];
      var whole := Top(a, |u|);
      AugmentFirst(a, u, poly);
      AugmentByGroup(shifted, rest, poly);
      GroupFromZero(whole, poly);
      TopAfterShiftIn(a, u);
      ShiftInFirst(a, u);
      XorRearranged(ShiftIn(a, u), Divide(Zeros(|a|), whole[1..], poly),
                    Divide(Gate(whole[0], poly), Zeros(|rest|), poly));
    }
  }

  // ---- the two divisions compared ----

  function Unit(k: nat, n: nat): (e: Bits)
    requires k < n
    ensures |e| == n && forall i :: 0 <= i < n ==> (e[i] <==> i == k)
  {
    seq(n, i => i == k)
  }

  /** The unit, pushed once through the whole register, is the divisor. */
  lemma {:induction false} PushUnit(k: nat, poly: Bits)
    requires k < |poly|
    ensures Augment(Unit(k, |poly|), Zeros(|poly| - k), poly) == poly
    decreases |poly| - k
  {
    hide AugmentBit, Unit;
    UnitClimbs(k, poly);
    ZerosGrow(|poly| - k - 1);
    if k < |poly| - 1 {
      PushUnit(k + 1, poly);
    }
  }

  lemma AugmentZero(k: nat, poly: Bits)
    requires |poly| > 0
    ensures Augment(Zeros(|poly|), Zeros(k), poly) == Zeros(|poly|)
  {
    ZeroBitsAgree(Zeros(|poly|), k, poly);
    DivideZero(k, poly);
  }

  /** N zero bits after one zero bit, or one after N: the same N + 1 zero bits. */
  lemma PushCommutesWithZero(a: Bits, poly: Bits)
    requires |a| == |poly| > 0
    ensures Augment(AugmentBit(a, false, poly), Zeros(|a|), poly)
         == AugmentBit(Augment(a, Zeros(|a|), poly), false, poly)
  {
    hide AugmentBit;
    var z := Zeros(|a|);
    ZerosGrow(|a|);
    AugmentAppend(a, [false], z, poly);
    AugmentAppend(a, z, [false], poly);
    OneBit(a, false, poly);
    OneBit(Augment(a, z, poly), false, poly);
  }

  /** A bit that enters is a unit added to the register. */
  lemma BitEnters(a: Bits, bit: bool, poly: Bits)
    requires |a| == |poly| > 0
    ensures AugmentBit(a, bit, poly) == Xor(AugmentBit(a, false, poly), Gate(bit, Unit(0, |a|)))
  {
    hide Xor, Gate;
    var unit, gate := Gate(bit, Unit(0, |a|)), Gate(a[|a| - 1], poly);
    UnitEnters(a, bit);
    XorAssociates(ShiftBit(a, false), unit, gate);
    XorAssociates(ShiftBit(a, false), gate, unit);
    XorCommutes(unit, gate);
  }

  lemma UnitEnters(a: Bits, bit: bool)
    requires |a| > 0
    ensures ShiftBit(a, bit) == Xor(ShiftBit(a, false), Gate(bit, Unit(0, |a|)))
  {
  }

  lemma XorCommutes(a: Bits, b: Bits)
    requires |a| == |b|
    ensures Xor(a, b) == Xor(b, a)
  {
  }

  /** Pushing N zero bits commutes with one more step of the message. */
  lemma PushCommutes(a: Bits, bit: bool, poly: Bits)
    requires |a| == |poly| > 0
    ensures Augment(AugmentBit(a, bit, poly), Zeros(|a|), poly)
         == DivideBit(Augment(a, Zeros(|a|), poly), bit, poly)
  {
    hide Augment, AugmentBit, DivideBit, Zeros, Xor, Unit;
    var n := |a|;
    var pushed := Augment(a, Zeros(n), poly);
    var plain := AugmentBit(a, false, poly);
    var unit := Gate(bit, Unit(0, n));
    BitEnters(a, bit, poly);
    AugmentSplit(plain, unit, Zeros(n), poly);
    PushCommutesWithZero(a, poly);
    PushUnit(0, poly);
    AugmentZero(n, poly);
    assert Augment(unit, Zeros(n), poly) == Gate(bit, poly);
    StepsAgree(pushed, bit, poly);
  }

  /** The augmented message is the plain one: N zero bits after the stream give
      what the comparing division gives from the pushed initial register. */
  lemma {:induction false} AugmentedIsPlain(a: Bits, u: Bits, poly: Bits)
    requires |a| == |poly| > 0
    ensures Augment(a, u + Zeros(|a|), poly) == Divide(Augment(a, Zeros(|a|), poly), u, poly)
    decreases |u|
  {
    if u == [] {
      assert u + Zeros(|a|) == Zeros(|a|);
    } else {
      var next := AugmentBit(a, u[0], poly);
      assert (u + Zeros(|a|))[1..] == u[1..] + Zeros(|a|);
      AugmentedIsPlain(next, u[1..], poly);
      PushCommutes(a, u[0], poly);
    }
  }

  /** N bits into an empty register: nothing is subtracted. */
  lemma AugmentLoads(v: Bits, poly: Bits)
    requires |v| == |poly| > 0
    ensures Augment(Zeros(|v|), v, poly) == Reverse(v)
  {
    hide Zeros, Xor, ShiftIn, Top, Reverse;
    var z := Zeros(|v|);
    AugmentByGroup(z, v, poly);
    assert Top(z, |v|) == z;
    DivideZero(|v|, poly);
    XorZeros(ShiftIn(z, v));
    assert ShiftIn(z, v) == Reverse(v);
  }

  // ---- polynomials ----

  /** The product of two polynomials over GF(2), highest coefficients first. */
  function Product(q: Bits, g: Bits): (s: Bits)
    requires |g| > 0
    ensures |s| == |q| + |g| - 1
    decreases |q|
  {
    if q == [] then Zeros(|g| - 1)
    else Xor(Gate(q[0], g) + Zeros(|q| - 1), [false] + Product(q[1..], g))
  }

  /** The bits that leave the register: where the divisor is subtracted. */
  function Quotient(a: Bits, u: Bits, poly: Bits): (q: Bits)
    requires |a| == |poly| > 0
    ensures |q| == |u|
    decreases |u|
  {
    if u == [] then [] else [a[|a| - 1]] + Quotient(AugmentBit(a, u[0], poly), u[1..], poly)
  }

  lemma SubtractedAtTop(a: Bits, bit: bool, poly: Bits)
    requires |a| == |poly| > 0
    ensures Reverse(a) + [bit]
         == Xor(Gate(a[|a| - 1], [true] + Reverse(poly)), [false] + Reverse(AugmentBit(a, bit, poly)))
  {
    hide ShiftBit, Xor, Reverse, Zeros;
    var n, a' := |a|, AugmentBit(a, bit, poly);
    var x, y := Gate(a[n - 1], [true] + Reverse(poly)), [false] + Reverse(a');
    forall i | 0 <= i < n + 1 ensures (Reverse(a) + [bit])[i] == (x[i] != y[i]) {
      if i > 0 {
        assert y[i] == a'[n - i] && x[i] == (a[n - 1] && poly[n - i]);
      }
    }
  }

  lemma XorPadded(x: Bits, y: Bits, rest: Bits)
    requires |x| == |y|
    ensures Xor(x, y) + rest == Xor(x + Zeros(|rest|), y + rest)
  {
    hide Xor, Zeros;
  }

  /** One step takes the divisor, or nothing, from the front of register and stream. */
  lemma SubtractedOnce(a: Bits, bit: bool, rest: Bits, poly: Bits)
    requires |a| == |poly| > 0
    ensures Reverse(a) + [bit] + rest
         == Xor(Gate(a[|a| - 1], [true] + Reverse(poly)) + Zeros(|rest|),
                [false] + (Reverse(AugmentBit(a, bit, poly)) + rest))
  {
    hide Xor, Gate, Reverse, AugmentBit, Zeros;
    var y := Reverse(AugmentBit(a, bit, poly));
    SubtractedAtTop(a, bit, poly);
    XorPadded(Gate(a[|a| - 1], [true] + Reverse(poly)), [false] + y, rest);
    assert [false] + y + rest == [false] + (y + rest);
  }

  lemma XorShifted(p: Bits, r: Bits)
    requires |p| == |r|
    ensures [false] + Xor(p, r) == Xor([false] + p, [false] + r)
  {
  }

  /** Long division: register and stream together are a multiple of the divisor, whose
      leading coefficient is not stored, and the remainder. */
  lemma {:induction false} DivisionTheorem(a: Bits, u: Bits, poly: Bits)
    requires |a| == |poly| > 0
    ensures Reverse(a) + u
         == Xor(Product(Quotient(a, u, poly), [true] + Reverse(poly)), Zeros(|u|) + Reverse(Augment(a, u, poly)))
    decreases |u|
  {
    hide Xor, Gate, Reverse, AugmentBit, Zeros;
    var g, r := [true] + Reverse(poly), Reverse(Augment(a, u, poly));
    if u == [] {
      XorZeros(r);
      assert Zeros(0) + r == r && Reverse(a) + u == Reverse(a);
    } else {
      var a', rest := AugmentBit(a, u[0], poly), u[1..];
      var q := Quotient(a', rest, poly);
      DivisionTheorem(a', rest, poly);
      SubtractedOnce(a, u[0], rest, poly);
      assert Reverse(a) + u == Reverse(a) + [u[0]] + rest;
      XorShifted(Product(q, g), Zeros(|rest|) + r);
      ZerosGrow(|rest|);
      assert [false] + (Zeros(|rest|) + r) == Zeros(|u|) + r;
      assert Quotient(a, u, poly)[1..] == q;
      XorAssociates(Gate(a[|a| - 1], g) + Zeros(|rest|), [false] + Product(q, g), Zeros(|u|) + r);
    }
  }

  /** The comparing division from zero gives the remainder of the stream with N zero bits
      behind it, that is of the stream times the N-th power of x. */
  lemma PlainDivision(u: Bits, poly: Bits) returns (q: Bits)
    requires |poly| > 0
    ensures |q| == |u| + |poly|
    ensures Zeros(|poly|) + u + Zeros(|poly|)
         == Xor(Product(q, [true] + Reverse(poly)), Zeros(|u| + |poly|) + Reverse(Divide(Zeros(|poly|), u, poly)))
  {
    hide Xor, Reverse, Zeros, Product, Quotient, Augment, Divide;
    var z := Zeros(|poly|);
    q := Quotient(z, u + z, poly);
    DivisionTheorem(z, u + z, poly);
    AugmentedIsPlain(z, u, poly);
    AugmentZero(|poly|, poly);
    ReverseOfZeros(|poly|);
    assert z + (u + z) == z + u + z;
  }

  lemma ReverseOfZeros(n: nat)
    ensures Reverse(Zeros(n)) == Zeros(n)
  {
  }

  /** Instead of zeros, any N bits: they are added to the remainder. */
  lemma AppendedBits(a: Bits, u: Bits, v: Bits, poly: Bits)
    requires |a| == |v| == |poly| > 0
    ensures Augment(a, u + v, poly)
         == Xor(Divide(Augment(a, Zeros(|a|), poly), u, poly), Reverse(v))
  {
    var z := Zeros(|a|);
    var m := Augment(a, u, poly);
    AugmentAppend(a, u, v, poly);
    AugmentAppend(a, u, z, poly);
    AugmentedIsPlain(a, u, poly);
    XorZeros(m);
    XorZeros(v);
    AugmentLinear(m, z, z, v, poly);
    AugmentLoads(v, poly);
  }
}
