/** What the checksums of library/boost/boost/crc.hpp are for: which corrupted
    messages they tell apart from the original. */
module CrcDetection {
  import opened Gf2
  import opened Crc

  /** Two streams of equal length that differ, all within a window of n bits. */
  ghost predicate Burst(u: Bits, v: Bits, from: nat, n: nat)
  {
    && |u| == |v| && u != v
    && forall i :: 0 <= i < |u| && !(from <= i < from + n) ==> u[i] == v[i]
  }

  lemma {:induction false} ZeroBitsKeepNonzero(r: Bits, k: nat, poly: Bits)
    requires |r| == |poly| > 0 && poly[0] && r != Zeros(|r|)
    ensures Divide(r, Zeros(k), poly) != Zeros(|r|)
    decreases k
  {
    hide Zeros;
    if k > 0 {
      var next := DivideBit(r, false, poly);
      var i :| 0 <= i < |r| && r[i];
      assert if r[|r| - 1] then next[0] else next[i + 1];
      assert Zeros(k)[1..] == Zeros(k - 1);
      ZeroBitsKeepNonzero(next, k - 1, poly);
    }
  }

  /** A window as wide as the register, pushed in from zero, leaves what the
      loaded register leaves after that many zero bits. */
  lemma WindowIsLoaded(w: Bits, poly: Bits)
    requires |w| == |poly| > 0
    ensures Divide(Zeros(|w|), w, poly) == Divide(Reverse(w), Zeros(|w|), poly)
  {
    hide Divide, Augment;
    var z := Zeros(|w|);
    AugmentZero(|w|, poly);
    AugmentedIsPlain(z, w, poly);
    AugmentAppend(z, w, z, poly);
    AugmentLoads(w, poly);
    ZeroBitsAgree(Reverse(w), |w|, poly);
  }

  lemma WindowDetected(w: Bits, poly: Bits)
    requires |w| == |poly| > 0 && poly[0] && w != Zeros(|w|)
    ensures Divide(Zeros(|w|), w, poly) != Zeros(|w|)
  {
    hide Divide, Zeros;
    WindowIsLoaded(w, poly);
    var i :| 0 <= i < |w| && w[i];
    assert Reverse(w)[|w| - 1 - i];
    ZeroBitsKeepNonzero(Reverse(w), |w|, poly);
  }

  /** The difference of two streams with a burst, between zeros: any leading
      zeros, then the one window that holds it, then zeros. */
  lemma BurstAsWindow(u: Bits, v: Bits, from: nat, n: nat, width: nat)
    returns (w: Bits, lead: nat, trail: nat)
    requires Burst(u, v, from, n) && n <= width
    ensures |w| == width && w != Zeros(width)
    ensures Zeros(width) + Xor(u, v) == Zeros(lead) + w + Zeros(trail)
  {
    hide Xor, Zeros;
    var e := Xor(u, v);
    var padded := Zeros(width) + e;
    lead := if from + n < |e| then from + n else |e|;
    trail := |e| - lead;
    w := padded[lead..lead + width];
    var d :| 0 <= d < |u| && u[d] != v[d];
    assert padded[width + d] && w[width + d - lead];
    assert padded[..lead] == Zeros(lead) && padded[lead + width..] == Zeros(trail);
  }

  lemma WindowBetweenZeros(w: Bits, lead: nat, trail: nat, poly: Bits)
    requires |w| == |poly| > 0
    ensures Divide(Zeros(|w|), Zeros(lead) + w + Zeros(trail), poly)
         == Divide(Divide(Zeros(|w|), w, poly), Zeros(trail), poly)
  {
    hide Divide, Zeros;
    var z := Zeros(|w|);
    DivideAppend(z, Zeros(lead) + w, Zeros(trail), poly);
    DivideAppend(z, Zeros(lead), w, poly);
    DivideZero(lead, poly);
  }

  lemma DifferenceDivides(r: Bits, u: Bits, v: Bits, poly: Bits)
    requires |r| == |poly| > 0 && |u| == |v|
    ensures Divide(Zeros(|r|), Zeros(|r|) + Xor(u, v), poly)
         == Xor(Divide(r, u, poly), Divide(r, v, poly))
  {
    hide Divide, Zeros, Xor;
    DivideLinear(r, r, u, v, poly);
    assert Xor(r, r) == Zeros(|r|);
    DivideAppend(Zeros(|r|), Zeros(|r|), Xor(u, v), poly);
    DivideZero(|r|, poly);
  }

  /** With the constant term of the polynomial present, every burst no wider than
      the CRC changes the remainder, wherever it falls and whatever the start. */
  lemma BurstDetected(r: Bits, u: Bits, v: Bits, from: nat, n: nat, poly: Bits)
    requires |r| == |poly| > 0 && poly[0]
    requires n <= |poly| && Burst(u, v, from, n)
    ensures Divide(r, u, poly) != Divide(r, v, poly)
  {
    hide Divide, Zeros, Xor;
    var w, lead, trail := BurstAsWindow(u, v, from, n, |poly|);
    DifferenceDivides(r, u, v, poly);
    WindowBetweenZeros(w, lead, trail, poly);
    WindowDetected(w, poly);
    ZeroBitsKeepNonzero(Divide(Zeros(|w|), w, poly), trail, poly);
    XorIsZero(Divide(r, u, poly), Divide(r, v, poly));
  }

  lemma LostByOneBit(poly: Bits)
    requires |poly| > 0 && !poly[0]
    ensures DivideBit(poly[1..] + [true], false, poly) == Zeros(|poly|)
  {
    hide Zeros, Xor, Shl;
    assert (poly[1..] + [true])[|poly| - 1];
  }

  /** A register that the next zero bit empties. */
  lemma LostRegister(poly: Bits)
    requires |poly| > 0 && !poly[0]
    ensures Divide(poly[1..] + [true], Zeros(|poly|), poly) == Zeros(|poly|)
  {
    hide Zeros, DivideBit;
    LostByOneBit(poly);
    ZerosGrow(|poly| - 1);
    DivideZero(|poly| - 1, poly);
  }

  /** Without it some burst as wide as the CRC goes unnoticed from every start. */
  lemma BurstMissed(poly: Bits) returns (u: Bits)
    requires |poly| > 0 && !poly[0]
    ensures |u| == |poly| && Burst(u, Zeros(|poly|), 0, |poly|)
    ensures forall r :: |r| == |poly| ==> Divide(r, u, poly) == Divide(r, Zeros(|poly|), poly)
  {
    hide Zeros, Xor, Divide;
    var lost := poly[1..] + [true];
    u := Reverse(lost);
    assert u[0];
    LostRegister(poly);
    ReverseTwice(lost);
    WindowIsLoaded(u, poly);
    forall r | |r| == |poly|
      ensures Divide(r, u, poly) == Divide(r, Zeros(|poly|), poly)
    {
      DivideFromRegister(r, u, poly);
      XorZeros(Divide(r, Zeros(|poly|), poly));
    }
  }

  ghost predicate DetectsBursts(poly: Bits)
    requires |poly| > 0
  {
    forall r: Bits, u: Bits, v: Bits, from: nat, n: nat | |r| == |poly| && n <= |poly| && Burst(u, v, from, n) ::
      Divide(r, u, poly) != Divide(r, v, poly)
  }

  lemma DetectsBurstsExactly(poly: Bits)
    requires |poly| > 0
    ensures DetectsBursts(poly) <==> poly[0]
  {
    hide Divide, Zeros;
    if poly[0] {
      forall r: Bits, u: Bits, v: Bits, from: nat, n: nat | |r| == |poly| && n <= |poly| && Burst(u, v, from, n)
        ensures Divide(r, u, poly) != Divide(r, v, poly)
      {
        BurstDetected(r, u, v, from, n, poly);
      }
    } else {
      var u := BurstMissed(poly);
      var z := Zeros(|poly|);
      assert |z| == |poly| && Divide(z, u, poly) == Divide(z, z, poly);
    }
  }

  /** For whole messages and the value a user compares: the checksum, after the
      output reflection and the final xor. */
  lemma ChecksumDetectsBurst(
      r: Bits, m: seq<Byte>, m': seq<Byte>, from: nat, n: nat,
      poly: Bits, final: Bits, reflectIn: bool, reflectRem: bool)
    requires |r| == |poly| == |final| > 0 && poly[0] && n <= |poly|
    requires Burst(MessageBits(m, reflectIn), MessageBits(m', reflectIn), from, n)
    ensures Output(Remainder(r, m, poly, reflectIn), final, reflectRem)
         != Output(Remainder(r, m', poly, reflectIn), final, reflectRem)
  {
    hide Divide, Output, MessageBits, Burst;
    var x, y := Remainder(r, m, poly, reflectIn), Remainder(r, m', poly, reflectIn);
    BurstDetected(r, MessageBits(m, reflectIn), MessageBits(m', reflectIn), from, n, poly);
    if Output(x, final, reflectRem) == Output(y, final, reflectRem) {
      OutputInjective(x, y, final, reflectRem);
    }
  }

  lemma OutputInjective(x: Bits, y: Bits, final: Bits, reflectRem: bool)
    requires |x| == |y| == |final| && Output(x, final, reflectRem) == Output(y, final, reflectRem)
    ensures x == y
  {
    var a, b := Stored(x, reflectRem), Stored(y, reflectRem);
    forall i | 0 <= i < |a| ensures a[i] == b[i] {
      assert Output(x, final, reflectRem)[i] == (a[i] != final[i]);
    }
    assert a == b;
    StoredTwice(x, reflectRem);
    StoredTwice(y, reflectRem);
  }
}
