/** progress_display of library/boost/boost/progress.hpp:88-138, in exact rational
    arithmetic: the quotients it truncates are quotients of integers.  What it writes
    is recorded from the end of the scale on. */
module Progress {

  const TICS: nat := 50

  function StarLine(n: nat): (s: string)
    ensures |s| == n && forall i | 0 <= i < n :: s[i] == '*'
  {
    if n == 0 then "" else StarLine(n - 1) + "*"
  }

  /** The fields of a display and its output. */
  datatype State = State(count: nat, expected: nat, next: nat, tic: nat, out: string)

  function Restarted(expected: nat): State {
    State(0, if expected == 0 then 1 else expected, 0, 0, "")
  }

  /** The tics a count calls for. */
  function Needed(count: nat, expected: nat): nat
    requires expected > 0
  {
    TICS * count / expected
  }

  /** Where the next tic falls due. */
  function Due(tic: nat, expected: nat): nat {
    tic * expected / TICS
  }

  /** A tic displayed: at least one star, as many as are needed, and on completion
      the last one and the end of the line. */
  function Displayed(s: State): State
    requires s.expected > 0
  {
    var needed := Needed(s.count, s.expected);
    var tic := if s.tic + 1 < needed then needed else s.tic + 1;
    var end := if s.count != s.expected then "" else if tic < 51 then "*\n" else "\n";
    State(s.count, s.expected, Due(tic, s.expected), tic, s.out + StarLine(tic - s.tic) + end)
  }

  function Advanced(s: State, increment: nat): State
    requires s.expected > 0
  {
    var t := s.(count := s.count + increment);
    if t.count >= t.next then Displayed(t) else t
  }

  class ProgressDisplay {
    var count: nat
    var expectedCount: nat
    var nextTicCount: nat
    var tic: nat
    var out: string

    constructor (expected: nat)
      ensures Current() == Restarted(expected)
    {
      count, nextTicCount, tic := 0, 0, 0;
      expectedCount := if expected == 0 then 1 else expected;
      out := "";
    }

    method Restart(expected: nat)
      modifies this
      ensures Current() == Restarted(expected)
    {
      count, nextTicCount, tic := 0, 0, 0;
      expectedCount := expected;
      out := "";
      if expectedCount == 0 {
        expectedCount := 1;
      }
    }

    /** operator+= */
    method Add(increment: nat) returns (total: nat)
      requires expectedCount > 0
      modifies this
      ensures Current() == Advanced(old(Current()), increment) && total == count
    {
      hide Displayed;
      count := count + increment;
      if count >= nextTicCount {
        DisplayTic();
      }
      total := count;
    }

    method DisplayTic()
      requires expectedCount > 0
      modifies this
      ensures Current() == Displayed(old(Current()))
    {
      hide StarLine;
      var ticsNeeded := TICS * count / expectedCount;
      var first := tic;
      StarsNext(out, 0);
      out := out + "*";
      tic := tic + 1;
      while tic < ticsNeeded
        invariant tic > first && (tic <= ticsNeeded || tic == first + 1)
        invariant out == old(out) + StarLine(tic - first)
        invariant count == old(count) && expectedCount == old(expectedCount)
      {
        StarsNext(old(out), tic - first);
        out := out + "*";
        tic := tic + 1;
      }
      nextTicCount := tic * expectedCount / TICS;
      ghost var stars := out;
      if count == expectedCount {
        if tic < 51 {
          out := out + "*";
        }
        out := out + "\n";
      }
      assert stars + "*" + "\n" == stars + "*\n" && stars + "" == stars;
    }

    function Current(): State
      reads this
    {
      State(count, expectedCount, nextTicCount, tic, out)
    }
  }

  lemma StarsNext(out: string, n: nat)
    ensures out + StarLine(n + 1) == out + StarLine(n) + "*"
    ensures StarLine(0) == "" && out + "" == out
  {
  }

  // ---- whole runs ----

  function Sum(increments: seq<nat>): nat {
    if increments == [] then 0 else Sum(increments[..|increments| - 1]) + increments[|increments| - 1]
  }

  function Run(expected: nat, increments: seq<nat>): (s: State)
    ensures s.expected == if expected == 0 then 1 else expected
  {
    if increments == [] then Restarted(expected)
    else Advanced(Run(expected, increments[..|increments| - 1]), increments[|increments| - 1])
  }

  /** A display on the way: one star for each tic, no fewer than the count calls for and no more than 50. */
  predicate OnTheWay(s: State) {
    && s.count < s.expected && s.out == StarLine(s.tic) && s.next == Due(s.tic, s.expected)
    && Needed(s.count, s.expected) <= s.tic <= TICS
  }

  lemma FloorUnder(a: nat, b: nat, q: nat)
    requires b > 0
    ensures a / b < q <==> a < q * b
  {
    var r, d := a % b, a / b;
    assert a == d * b + r && (d + 1) * b == d * b + b;
    if d < q {
      TimesMonotone(d + 1, q, b);
    } else {
      TimesMonotone(q, d, b);
    }
  }

  lemma TimesMonotone(x: nat, y: nat, b: nat)
    requires x <= y
    ensures x * b <= y * b
  {
  }

  /** When the next tic is not due yet, no further star is needed. */
  lemma NotDue(count: nat, expected: nat, tic: nat)
    requires expected > 0
    ensures count < Due(tic, expected) ==> Needed(count, expected) < tic
  {
    FloorUnder(TICS * count, expected, tic);
    FloorUnder(tic * expected, TICS, count + 1);
  }

  lemma NeededBefore(count: nat, expected: nat)
    requires count < expected
    ensures Needed(count, expected) < TICS
  {
    FloorUnder(TICS * count, expected, TICS);
  }

  lemma NeededAtEnd(expected: nat)
    requires expected > 0
    ensures Needed(expected, expected) == TICS
  {
    FloorUnder(TICS * expected, expected, TICS);
    FloorUnder(TICS * expected, expected, TICS + 1);
  }

  lemma DueBefore(tic: nat, expected: nat)
    requires tic <= TICS
    ensures Due(tic, expected) <= expected && Due(TICS, expected) == expected
  {
    TimesMonotone(tic, TICS, expected);
    FloorUnder(tic * expected, TICS, expected + 1);
  }

  lemma StaysOnTheWay(s: State, increment: nat)
    requires OnTheWay(s) && s.count + increment < s.expected
    ensures OnTheWay(Advanced(s, increment))
  {
    hide Needed, Due;
    var t := s.(count := s.count + increment);
    NotDue(t.count, t.expected, t.tic);
    NeededBefore(t.count, t.expected);
    DueBefore(TICS, t.expected);
    if t.count >= t.next {
      StarsAppend(s.tic, Displayed(t).tic - s.tic);
    }
  }

  lemma {:induction false} StarsAppend(m: nat, n: nat)
    ensures StarLine(m) + StarLine(n) == StarLine(m + n)
  {
    if n > 0 {
      StarsAppend(m, n - 1);
    }
  }

  lemma Completes(s: State, increment: nat)
    requires OnTheWay(s) && s.count + increment == s.expected
    ensures Advanced(s, increment).out == StarLine(51) + "\n"
  {
    hide Needed, Due;
    var t := s.(count := s.count + increment);
    DueBefore(t.tic, t.expected);
    NeededAtEnd(t.expected);
    var d := Displayed(t);
    StarsAppend(s.tic, d.tic - s.tic);
    assert StarLine(50) + "*\n" == StarLine(51) + "\n";
  }

  /** Before completion: no fewer stars than the count calls for, no more than 50. */
  lemma {:induction false} StarsBefore(expected: nat, increments: seq<nat>)
    requires Sum(increments) < (if expected == 0 then 1 else expected)
    ensures OnTheWay(Run(expected, increments)) && Run(expected, increments).count == Sum(increments)
  {
    hide Advanced;
    if increments != [] {
      var init, last := increments[..|increments| - 1], increments[|increments| - 1];
      StarsBefore(expected, init);
      StaysOnTheWay(Run(expected, init), last);
      CountAdvances(Run(expected, init), last);
    }
  }

  /** The last star was due when it was written. */
  ghost predicate NotEarly(s: State) {
    s.tic > 0 ==> Due(s.tic - 1, s.expected) <= s.count
  }

  lemma NeededIsDue(count: nat, expected: nat)
    requires expected > 0 && Needed(count, expected) > 0
    ensures Due(Needed(count, expected) - 1, expected) <= count
  {
    var needed := Needed(count, expected);
    FloorUnder(TICS * count, expected, needed);
    TimesMonotone(needed - 1, needed, expected);
    FloorUnder((needed - 1) * expected, TICS, count + 1);
  }

  lemma StaysDue(s: State, increment: nat)
    requires OnTheWay(s) && NotEarly(s)
    ensures NotEarly(Advanced(s, increment))
  {
    hide Needed, Due, StarLine;
    var t := s.(count := s.count + increment);
    if t.count >= t.next && Needed(t.count, t.expected) > 0 {
      NeededIsDue(t.count, t.expected);
    }
  }

  /** Written out: before completion the output is stars only, at least 50 times the share
      done, rounded down, at most 50, and no star before its tic is due. */
  lemma {:induction false} StarsOnTime(expected: nat, increments: seq<nat>)
    requires Sum(increments) < (if expected == 0 then 1 else expected)
    ensures var e, out := if expected == 0 then 1 else expected, Run(expected, increments).out;
      && (forall i | 0 <= i < |out| :: out[i] == '*')
      && 50 * Sum(increments) / e <= |out| <= 50
      && (|out| > 0 <==> increments != [])
      && (|out| > 0 ==> (|out| - 1) * e / 50 <= Sum(increments))
    ensures NotEarly(Run(expected, increments))
  {
    hide Advanced, Needed, Due;
    StarsBefore(expected, increments);
    NeededIs(Sum(increments), if expected == 0 then 1 else expected);
    if increments != [] {
      var init, last := increments[..|increments| - 1], increments[|increments| - 1];
      StarsBefore(expected, init);
      StarsOnTime(expected, init);
      StaysDue(Run(expected, init), last);
      FirstStar(Run(expected, init), last);
      DueIs(Run(expected, increments).tic - 1, if expected == 0 then 1 else expected);
    }
  }

  lemma NeededIs(count: nat, expected: nat)
    requires expected > 0
    ensures Needed(count, expected) == 50 * count / expected
  {
  }

  lemma DueIs(tic: nat, expected: nat)
    ensures Due(tic, expected) == tic * expected / 50
  {
  }

  lemma FirstStar(s: State, increment: nat)
    requires OnTheWay(s)
    ensures Advanced(s, increment).tic > 0
  {
    hide Needed, StarLine;
  }

  lemma CountAdvances(s: State, increment: nat)
    requires s.expected > 0
    ensures Advanced(s, increment).count == s.count + increment
  {
  }

  /** When the total first reaches the expected count at the last step, exactly 51 stars
      and the end of the line have been written. */
  lemma ExactlyFiftyOne(expected: nat, increments: seq<nat>)
    requires increments != [] && Sum(increments) == (if expected == 0 then 1 else expected)
    requires Sum(increments[..|increments| - 1]) < Sum(increments)
    ensures Run(expected, increments).out == StarLine(51) + "\n"
  {
    StarsBefore(expected, increments[..|increments| - 1]);
    Completes(Run(expected, increments[..|increments| - 1]), increments[|increments| - 1]);
  }

  /** The display itself, over a run. */
  method DisplayAll(expected: nat, increments: seq<nat>) returns (display: ProgressDisplay)
    ensures display.Current() == Run(expected, increments)
  {
    display := new ProgressDisplay(expected);
    var i := 0;
    while i < |increments|
      invariant 0 <= i <= |increments| && fresh(display)
      invariant display.Current() == Run(expected, increments[..i])
    {
      assert increments[..i + 1][..i] == increments[..i];
      var total := display.Add(increments[i]);
      i := i + 1;
    }
    assert increments[..|increments|] == increments;
  }
}
