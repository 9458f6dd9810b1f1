/** The class and tag registry of library/source/TTEnvironment.cpp:56-148, and the parser
    of comma-separated tags it uses, library/source/TTValue.cpp:933-965, which works in
    place on a C string.  A TTValue holds fewer than 65536 elements. */
module Registry {
  import opened Text

  const NUL := '\0'

  // ---- what the parser computes ----

  /** A C string ends at its first NUL. */
  function UpToNul(s: string): (t: string)
    ensures NUL !in t && t <= s && (t == s || s[|t|] == NUL)
  {
    var k := FirstIndex(s, NUL);
    if k < 0 then s else s[..k]
  }

  function TrimLeft(s: string): string {
    if s != [] && s[0] == ' ' then TrimLeft(s[1..]) else s
  }

  function TrimRight(s: string): string {
    if s != [] && s[|s| - 1] == ' ' then TrimRight(s[..|s| - 1]) else s
  }

  function Trim(s: string): string {
    TrimRight(TrimLeft(s))
  }

  lemma {:induction false} TrimLeftMeans(s: string) returns (i: nat)
    ensures i <= |s| && TrimLeft(s) == s[i..]
    ensures forall k | 0 <= k < i :: s[k] == ' '
    ensures i < |s| ==> s[i] != ' '
  {
    i := 0;
    if s != [] && s[0] == ' ' {
      var j := TrimLeftMeans(s[1..]);
      i := j + 1;
    }
  }

  lemma {:induction false} TrimRightMeans(s: string) returns (j: nat)
    ensures j <= |s| && TrimRight(s) == s[..j]
    ensures forall k | j <= k < |s| :: s[k] == ' '
    ensures j > 0 ==> s[j - 1] != ' '
  {
    j := |s|;
    if s != [] && s[|s| - 1] == ' ' {
      var init := s[..|s| - 1];
      j := TrimRightMeans(init);
      assert s[..j] == init[..j];
    }
  }

  /** Trimming takes spaces from both ends until something else is there. */
  lemma TrimMeans(s: string) returns (i: nat, j: nat)
    ensures i <= j <= |s| && Trim(s) == s[i..j]
    ensures forall k | 0 <= k < i || j <= k < |s| :: s[k] == ' '
    ensures i < j ==> s[i] != ' ' && s[j - 1] != ' '
  {
    i := TrimLeftMeans(s);
    var t := s[i..];
    var n := TrimRightMeans(t);
    j := i + n;
    assert t[..n] == s[i..j];
    forall k | j <= k < |s| ensures s[k] == ' ' {
      assert t[k - i] == s[k];
    }
  }

  /** Split at every comma, from the left. */
  function Split(s: string): (segments: seq<string>)
    ensures |segments| > 0
    decreases |s|
  {
    var k := FirstIndex(s, ',');
    if k < 0 then [s] else [s[..k]] + Split(s[k + 1..])
  }

  function TrimAll(segments: seq<string>): (trimmed: seq<string>)
    ensures |trimmed| == |segments|
  {
    seq(|segments|, i requires 0 <= i < |segments| => Trim(segments[i]))
  }

  function Reverse<T>(s: seq<T>): (r: seq<T>)
    ensures |r| == |s| && forall i | 0 <= i < |s| :: r[i] == s[|s| - 1 - i]
  {
    if s == [] then [] else Reverse(s[1..]) + [s[0]]
  }

  /** What the parser makes of a string: the segments, last one first, all but the first
      segment trimmed. */
  function Symbols(s: string): (symbols: seq<string>) {
    var segments := Split(s);
    Reverse([segments[0]] + TrimAll(segments[1..]))
  }

  /** The segments with a comma between each two. */
  function Join(segments: seq<string>): string
    requires segments != []
  {
    if |segments| == 1 then segments[0] else segments[0] + "," + Join(segments[1..])
  }

  lemma {:induction false} JoinOfSplit(s: string)
    ensures Join(Split(s)) == s && forall i | 0 <= i < |Split(s)| :: ',' !in Split(s)[i]
    decreases |s|
  {
    hide FirstIndex;
    var k := FirstIndex(s, ',');
    if k >= 0 {
      JoinOfSplit(s[k + 1..]);
      assert Split(s)[1..] == Split(s[k + 1..]);
      assert s == s[..k] + "," + s[k + 1..];
    }
  }

  /** Written out: the segments between the commas, the last one first, and every one but the
      first segment trimmed. */
  lemma SymbolsMean(s: string) returns (segments: seq<string>)
    ensures segments != [] && Join(segments) == s && forall i | 0 <= i < |segments| :: ',' !in segments[i]
    ensures |Symbols(s)| == |segments|
    ensures forall i | 0 <= i < |segments| ::
      Symbols(s)[|segments| - 1 - i] == if i == 0 then segments[0] else Trim(segments[i])
  {
    hide Trim, Split, Join;
    segments := Split(s);
    JoinOfSplit(s);
  }

  lemma SplitHead(a: string, rest: string)
    requires ',' !in a
    ensures Split(a + "," + rest) == [a] + Split(rest)
  {
    FirstIndexAt(a, ',', rest);
    var s := a + [','] + rest;
    assert s[..|a|] == a && s[|a| + 1..] == rest;
  }

  lemma SplitPlain(s: string)
    requires ',' !in s
    ensures Split(s) == [s]
  {
  }

  /** Splitting at the last comma instead. */
  lemma {:induction false} SplitAtLast(a: string, b: string)
    requires ',' !in b
    ensures Split(a + "," + b) == Split(a) + [b]
    decreases |a|
  {
    hide FirstIndex, Split;
    var k := FirstIndex(a, ',');
    SplitPlain(b);
    if k < 0 {
      SplitPlain(a);
      SplitHead(a, b);
    } else {
      var x, y := a[..k], a[k + 1..];
      assert a == x + "," + y && a + "," + b == x + "," + (y + "," + b);
      SplitHead(x, y);
      SplitHead(x, y + "," + b);
      SplitAtLast(y, b);
      assert [x] + (Split(y) + [b]) == [x] + Split(y) + [b];
    }
  }

  /** One round of the parser. */
  lemma SymbolsAtLast(a: string, b: string)
    requires ',' !in b
    ensures Symbols(a + "," + b) == [Trim(b)] + Symbols(a)
  {
    hide Trim, TrimAll, Split, Reverse;
    SplitAtLast(a, b);
    var x, y := Split(a), Split(a + "," + b);
    assert y[1..] == x[1..] + [b];
    TrimAllNext(x[1..], b);
    assert [y[0]] + TrimAll(y[1..]) == ([x[0]] + TrimAll(x[1..])) + [Trim(b)];
    ReverseLast([x[0]] + TrimAll(x[1..]), Trim(b));
  }

  lemma TrimAllNext(segments: seq<string>, s: string)
    ensures TrimAll(segments + [s]) == TrimAll(segments) + [Trim(s)]
  {
    hide Trim;
  }

  lemma ReverseLast<T>(s: seq<T>, x: T)
    ensures Reverse(s + [x]) == [x] + Reverse(s)
  {
  }

  lemma SymbolsPlain(s: string)
    requires ',' !in s
    ensures Symbols(s) == [s]
  {
    SplitPlain(s);
    assert [s][1..] == [];
  }

  lemma {:induction false} SplitCount(s: string)
    ensures |Split(s)| == Count(s, ',') + 1
    decreases |s|
  {
    hide FirstIndex, Count;
    var k := FirstIndex(s, ',');
    if k >= 0 {
      SplitCount(s[k + 1..]);
      assert s == s[..k] + [','] + s[k + 1..];
      CountAppend(s[..k] + [','], s[k + 1..], ',');
      CountAppend(s[..k], [','], ',');
      CountOne(',');
    }
  }

  lemma CountOne(c: char)
    ensures Count([c], c) == 1
  {
  }

  // ---- the parser ----

  /** The C string at a position of the buffer. */
  ghost predicate TextAt(buffer: seq<char>, at: nat, text: string) {
    at + |text| < |buffer| && buffer[at..at + |text|] == text && NUL !in text && buffer[at + |text|] == NUL
  }

  lemma TextBounds(buffer: seq<char>, at: nat, text: string)
    requires TextAt(buffer, at, text)
    ensures at + |text| < |buffer| && buffer[at + |text|] == NUL && buffer[at..at + |text|] == text
    ensures forall i | 0 <= i < |text| :: buffer[at + i] == text[i] && text[i] != NUL
  {
    forall i | 0 <= i < |text| ensures buffer[at + i] == text[i] && text[i] != NUL {
      assert text[i] in text && buffer[at..at + |text|][i] == text[i];
    }
  }

  lemma TextTail(buffer: seq<char>, at: nat, text: string)
    requires TextAt(buffer, at, text) && text != []
    ensures TextAt(buffer, at + 1, text[1..])
  {
    assert buffer[at + 1..at + |text|] == buffer[at..at + |text|][1..];
  }

  /** A NUL written into a text ends it there, and leaves the rest a text. */
  lemma TextCut(buffer: seq<char>, at: nat, text: string, k: nat)
    requires TextAt(buffer, at, text) && k < |text|
    ensures TextAt(buffer[at + k := NUL], at, text[..k])
    ensures TextAt(buffer[at + k := NUL], at + k + 1, text[k + 1..])
  {
    TextBounds(buffer, at, text);
    var buffer' := buffer[at + k := NUL];
    assert buffer'[at..at + k] == text[..k];
    assert buffer'[at + k + 1..at + |text|] == text[k + 1..];
  }

  /** What is written outside a text leaves it alone. */
  lemma TextKept(buffer: seq<char>, buffer': seq<char>, at: nat, text: string)
    requires TextAt(buffer, at, text) && |buffer'| == |buffer|
    requires forall i | at <= i <= at + |text| :: buffer'[i] == buffer[i]
    ensures TextAt(buffer', at, text)
  {
    assert buffer'[at..at + |text|] == buffer[at..at + |text|];
  }

  method StrLen(buffer: array<char>, at: nat, ghost text: string) returns (n: nat)
    requires TextAt(buffer[..], at, text)
    ensures n == |text|
  {
    TextBounds(buffer[..], at, text);
    n := 0;
    while buffer[at + n] != NUL
      invariant 0 <= n <= |text|
      decreases |text| - n
    {
      n := n + 1;
    }
  }

  method StrRChr(buffer: array<char>, c: char, ghost text: string) returns (k: int)
    requires TextAt(buffer[..], 0, text) && c != NUL
    ensures k == LastIndex(text, c)
  {
    var n := StrLen(buffer, 0, text);
    TextBounds(buffer[..], 0, text);
    k := n as int - 1;
    while k >= 0 && buffer[k] != c
      invariant -1 <= k < n
      invariant forall i | k < i < n :: text[i] != c
    {
      k := k - 1;
    }
  }

  /** One segment in the buffer, after a NUL: spaces skipped in front and overwritten
      with NUL at the end.  On a segment of spaces only, the second loop looks at the
      character before the text, and overwrites it too when it is a space. */
  method TrimAt(buffer: array<char>, at: nat, ghost segment: string) returns (symbol: string)
    requires at > 0 && TextAt(buffer[..], at, segment) && buffer[at - 1] == NUL
    modifies buffer
    ensures symbol == Trim(segment) && forall i | 0 <= i < at :: buffer[i] == old(buffer[i])
  {
    hide TextAt, TrimLeft, TrimRight;
    var current := SkipSpaces(buffer, at, segment);
    var n;
    ghost var text;
    n, text := TrimEnd(buffer, at, current, TrimLeft(segment));
    TextBounds(buffer[..], current, text);
    symbol := buffer[current..current + n];
    assert symbol == buffer[..][current..current + n];
  }

  method TrimEnd(buffer: array<char>, at: nat, current: nat, ghost start: string) returns (n: nat, ghost text: string)
    requires 0 < at <= current && TextAt(buffer[..], current, start) && buffer[at - 1] == NUL
    modifies buffer
    ensures text == TrimRight(start) && n == |text| && TextAt(buffer[..], current, text)
    ensures forall i | 0 <= i < at :: buffer[i] == old(buffer[i])
  {
    hide TextAt;
    text := start;
    n := StrLen(buffer, current, text);
    TextBounds(buffer[..], current, text);
    while buffer[current + n - 1] == ' '
      invariant TextAt(buffer[..], current, text) && n == |text| && current + n < buffer.Length
      invariant n > 0 ==> buffer[current + n - 1] == text[n - 1]
      invariant TrimRight(text) == TrimRight(start)
      invariant forall i | 0 <= i < at :: buffer[i] == old(buffer[i])
      decreases n, buffer[current + n - 1] == ' '
    {
      ghost var before := buffer[..];
      buffer[current + n - 1] := NUL;
      assert buffer[..] == before[current + n - 1 := NUL];
      if n > 0 {
        TextCut(before, current, text, n - 1);
        text := text[..n - 1];
      } else {
        TextKept(before, buffer[..], current, text);
      }
      n := StrLen(buffer, current, text);
      TextBounds(buffer[..], current, text);
    }
  }

  method SkipSpaces(buffer: array<char>, at: nat, ghost segment: string) returns (current: nat)
    requires TextAt(buffer[..], at, segment)
    ensures current >= at && TextAt(buffer[..], current, TrimLeft(segment))
  {
    hide TextAt;
    current := at;
    ghost var text := segment;
    TextBounds(buffer[..], current, text);
    while buffer[current] == ' '
      invariant at <= current < buffer.Length && TextAt(buffer[..], current, text)
      invariant TrimLeft(text) == TrimLeft(segment)
      invariant if text == [] then buffer[current] == NUL else buffer[current] == text[0]
      decreases |text|
    {
      TextTail(buffer[..], current, text);
      text := text[1..];
      current := current + 1;
      TextBounds(buffer[..], current, text);
    }
  }

  /** strncpy into a buffer one longer than the string. */
  method StrNCpy(s: string) returns (buffer: array<char>)
    ensures fresh(buffer) && TextAt(buffer[..], 0, UpToNul(s))
  {
    buffer := new char[|s| + 1](_ => NUL);
    var t := UpToNul(s);
    forall i | 0 <= i < |t| {
      buffer[i] := s[i];
    }
    assert buffer[..|t|] == t;
  }

  /** The last segment, cut off at its comma. */
  method TakeLast(cStr: array<char>, current: nat, ghost text: string) returns (symbol: string)
    requires TextAt(cStr[..], 0, text) && current < |text|
    modifies cStr
    ensures symbol == Trim(text[current + 1..]) && TextAt(cStr[..], 0, text[..current])
  {
    hide TextAt, Trim;
    ghost var contents := cStr[..];
    TextBounds(contents, 0, text);
    TextCut(contents, 0, text, current);
    cStr[current] := NUL;
    assert cStr[..] == contents[current := NUL];
    ghost var cut := cStr[..];
    symbol := TrimAt(cStr, current + 1, text[current + 1..]);
    TextKept(cut, cStr[..], 0, text[..current]);
  }

  /** transformCSVStringToSymbolArray */
  method TransformCSV(s: string) returns (symbols: seq<string>)
    requires Count(UpToNul(s), ',') + 1 < MAX_VALUES
    ensures symbols == Symbols(UpToNul(s))
  {
    hide TextAt, Symbols, LastIndex, Trim;
    var cStr := StrNCpy(s);
    ghost var text := UpToNul(s);
    symbols := [];
    var current := StrRChr(cStr, ',', text);
    while current >= 0
      invariant TextAt(cStr[..], 0, text) && current == LastIndex(text, ',') && fresh(cStr)
      invariant symbols + Symbols(text) == Symbols(UpToNul(s))
      decreases |text|
    {
      ghost var before, segment := text[..current], text[current + 1..];
      assert text == before + "," + segment;
      SymbolsAtLast(before, segment);
      var symbol := TakeLast(cStr, current, text);
      assert symbols + ([symbol] + Symbols(before)) == symbols + [symbol] + Symbols(before);
      symbols := symbols + [symbol];
      text := before;
      current := StrRChr(cStr, ',', text);
    }
    SymbolsPlain(text);
    var n := StrLen(cStr, 0, text);
    TextBounds(cStr[..], 0, text);
    symbols := symbols + [cStr[..n]];
  }

  // ---- the registry ----

  /** A class with its tags; how it makes objects does not matter here. */
  datatype Class = Class(name: string, tags: seq<string>)

  datatype Call = Call(className: string, tagString: string)

  function Repeat(name: string, n: nat): (s: seq<string>)
    ensures |s| == n && forall i | 0 <= i < n :: s[i] == name
  {
    if n == 0 then [] else Repeat(name, n - 1) + [name]
  }

  /** The names of the classes that carry a tag, in the order of registration, each as
      often as the tag was given for it. */
  ghost function Tagged(registered: seq<Class>, tag: string): seq<string> {
    if registered == [] then []
    else
      var c := registered[|registered| - 1];
      Tagged(registered[..|registered| - 1], tag) + Repeat(c.name, multiset(c.tags)[tag])
  }

  ghost predicate IsRegistered(registered: seq<Class>, name: string) {
    exists c :: c in registered && c.name == name
  }

  /** A name that is registered already is not registered again. */
  ghost function Registered(registered: seq<Class>, call: Call): seq<Class> {
    if IsRegistered(registered, call.className) then registered
    else registered + [Class(call.className, Symbols(UpToNul(call.tagString)))]
  }

  /** The classes after a run of calls. */
  ghost function Run(calls: seq<Call>): seq<Class> {
    if calls == [] then [] else Registered(Run(calls[..|calls| - 1]), calls[|calls| - 1])
  }

  /** A tag leads to a name exactly when the class of that name carries it. */
  lemma {:induction false} TaggedMeans(registered: seq<Class>, tag: string, name: string)
    ensures name in Tagged(registered, tag) <==> exists c :: c in registered && c.name == name && tag in c.tags
  {
    if registered != [] {
      var init, last := registered[..|registered| - 1], registered[|registered| - 1];
      TaggedMeans(init, tag, name);
      assert registered == init + [last];
      assert name in Repeat(last.name, multiset(last.tags)[tag]) <==> name == last.name && tag in last.tags by {
        if tag in last.tags {
          assert Repeat(last.name, multiset(last.tags)[tag])[0] == last.name;
        }
      }
    }
  }

  ghost predicate NamesDiffer(registered: seq<Class>) {
    forall i, j :: 0 <= i < j < |registered| ==> registered[i].name != registered[j].name
  }

  /** With multiplicity: a class is in a tag's list as often as the tag was given for it. */
  lemma {:induction false} TaggedTimes(registered: seq<Class>, tag: string, k: nat)
    requires k < |registered| && NamesDiffer(registered)
    ensures multiset(Tagged(registered, tag))[registered[k].name] == multiset(registered[k].tags)[tag]
  {
    hide Repeat;
    var n := |registered| - 1;
    var init, last, name := registered[..n], registered[n], registered[k].name;
    RepeatTimes(last.name, multiset(last.tags)[tag], name);
    if k < n {
      TaggedTimes(init, tag, k);
    } else {
      TaggedMeans(init, tag, name);
      assert forall c | c in init :: c.name != name;
    }
  }

  lemma {:induction false} RepeatTimes(name: string, n: nat, x: string)
    ensures multiset(Repeat(name, n))[x] == if x == name then n else 0
  {
    if n > 0 {
      RepeatTimes(name, n - 1, x);
    }
  }

  /** In order: the class registered earlier is earlier in the list. */
  lemma {:induction false} TaggedOrder(registered: seq<Class>, tag: string, i: nat, j: nat, a: nat, b: nat)
    requires i < j < |registered| && NamesDiffer(registered)
    requires a < |Tagged(registered, tag)| && Tagged(registered, tag)[a] == registered[i].name
    requires b < |Tagged(registered, tag)| && Tagged(registered, tag)[b] == registered[j].name
    ensures a < b
  {
    hide Repeat;
    var n := |registered| - 1;
    var init, last := registered[..n], registered[n];
    var front := Tagged(init, tag);
    assert a < |front|;
    if b < |front| {
      TaggedMeans(init, tag, front[b]);
      assert j < n;
      TaggedOrder(init, tag, i, j, a, b);
    }
  }

  /** A run registers each name once. */
  lemma {:induction false} RunNamesDiffer(calls: seq<Call>)
    ensures NamesDiffer(Run(calls))
  {
    hide Symbols, UpToNul;
    if calls != [] {
      RunNamesDiffer(calls[..|calls| - 1]);
    }
  }

  /** Over a run, a class has the tags of the first call that named it. */
  lemma {:induction false} FirstCallWins(calls: seq<Call>, i: nat)
    requires i < |calls| && forall j | 0 <= j < i :: calls[j].className != calls[i].className
    ensures Class(calls[i].className, Symbols(UpToNul(calls[i].tagString))) in Run(calls)
    ensures forall c | c in Run(calls) && c.name == calls[i].className ::
      c == Class(calls[i].className, Symbols(UpToNul(calls[i].tagString)))
  {
    hide Symbols, UpToNul;
    var init := calls[..|calls| - 1];
    if i < |calls| - 1 {
      FirstCallWins(init, i);
    } else {
      NotYetRegistered(init, calls[i].className);
    }
  }

  lemma {:induction false} NotYetRegistered(calls: seq<Call>, name: string)
    requires forall j | 0 <= j < |calls| :: calls[j].className != name
    ensures !IsRegistered(Run(calls), name)
  {
    if calls != [] {
      NotYetRegistered(calls[..|calls| - 1], name);
    }
  }

  /** What a search for tags leaves in the list: what the last tag found stands for. */
  ghost function LastFound(registered: seq<Class>, searchTags: seq<string>, initial: seq<string>): seq<string> {
    if searchTags == [] then initial
    else
      var found := Tagged(registered, searchTags[|searchTags| - 1]);
      if found != [] then found else LastFound(registered, searchTags[..|searchTags| - 1], initial)
  }

  /** Written out: the list of the last tag that is found, or the one there was. */
  lemma {:induction false} LastFoundMeans(registered: seq<Class>, searchTags: seq<string>, initial: seq<string>)
    returns (i: int)
    ensures -1 <= i < |searchTags|
    ensures forall j | i < j < |searchTags| :: Tagged(registered, searchTags[j]) == []
    ensures i < 0 ==> LastFound(registered, searchTags, initial) == initial
    ensures i >= 0 ==> LastFound(registered, searchTags, initial) == Tagged(registered, searchTags[i]) != []
  {
    hide Tagged;
    i := -1;
    if searchTags != [] {
      var n := |searchTags| - 1;
      if Tagged(registered, searchTags[n]) != [] {
        i := n;
      } else {
        i := LastFoundMeans(registered, searchTags[..n], initial);
      }
    }
  }

  function ListOf(tags: map<string, seq<string>>, tag: string): seq<string> {
    if tag in tags then tags[tag] else []
  }

  lemma RepeatNothing(name: string, v: seq<string>, tag: string)
    ensures Repeat(name, multiset(v[..0])[tag]) == []
  {
    assert v[..0] == [];
  }

  lemma RepeatNext(list: seq<string>, name: string, v: seq<string>, i: nat, tag: string)
    requires i < |v|
    ensures list + Repeat(name, multiset(v[..i + 1])[tag]) ==
      if v[i] == tag then list + Repeat(name, multiset(v[..i])[tag]) + [name]
      else list + Repeat(name, multiset(v[..i])[tag])
  {
    assert v[..i + 1] == v[..i] + [v[i]];
    var r := Repeat(name, multiset(v[..i])[tag]);
    assert list + (r + [name]) == list + r + [name];
  }

  lemma TaggedNext(registered: seq<Class>, c: Class, tag: string)
    ensures Tagged(registered + [c], tag) == Tagged(registered, tag) + Repeat(c.name, multiset(c.tags)[tag])
  {
    assert (registered + [c])[..|registered|] == registered;
  }

  lemma RegisteredNext(registered: seq<Class>, c: Class, name: string)
    ensures IsRegistered(registered + [c], name) <==> IsRegistered(registered, name) || name == c.name
  {
    assert c in registered + [c];
    assert forall d | d in registered :: d in registered + [c];
  }

  lemma IsRegisteredBy(registered: seq<Class>, c: Class)
    requires c in registered
    ensures IsRegistered(registered, c.name)
  {
  }

  /** The table of classes, and the inverted index with each tag's list and no empty list,
      are those of the registered classes. */
  ghost predicate Consistent(classes: map<string, Class>, tags: map<string, seq<string>>, registered: seq<Class>) {
    && (forall name :: name in classes <==> IsRegistered(registered, name))
    && (forall c | c in registered :: c.name in classes && classes[c.name] == c)
    && (forall tag :: ListOf(tags, tag) == Tagged(registered, tag))
    && (forall tag | tag in tags :: tags[tag] != [])
  }

  lemma ConsistentNext(
      classes: map<string, Class>, tags: map<string, seq<string>>, tags': map<string, seq<string>>,
      registered: seq<Class>, c: Class)
    requires Consistent(classes, tags, registered) && c.name !in classes
    requires forall tag | tag in tags' :: tags'[tag] != []
    requires forall tag :: ListOf(tags', tag) == ListOf(tags, tag) + Repeat(c.name, multiset(c.tags)[tag])
    ensures Consistent(classes[c.name := c], tags', registered + [c])
  {
    hide Tagged, Repeat, IsRegistered, ListOf;
    forall tag ensures ListOf(tags', tag) == Tagged(registered + [c], tag) {
      TaggedNext(registered, c, tag);
    }
    forall name ensures name in classes[c.name := c] <==> IsRegistered(registered + [c], name) {
      RegisteredNext(registered, c, name);
    }
    forall d | d in registered ensures d.name != c.name {
      IsRegisteredBy(registered, d);
    }
  }

  lemma ConsistentMeans(classes: map<string, Class>, tags: map<string, seq<string>>, registered: seq<Class>)
    requires Consistent(classes, tags, registered)
    ensures forall name :: name in classes <==> IsRegistered(registered, name)
    ensures forall tag | tag in tags :: tags[tag] != []
    ensures forall tag :: ListOf(tags, tag) == Tagged(registered, tag)
  {
  }

  class Environment {
    var classes: map<string, Class>
    var tags: map<string, seq<string>>
    ghost var registered: seq<Class>

    constructor ()
      ensures Valid() && registered == Run([])
    {
      classes, tags, registered := map[], map[], [];
    }

    ghost predicate Valid()
      reads this
    {
      Consistent(classes, tags, registered)
    }

    /** registerClass */
    method RegisterClass(className: string, tagString: string) returns (err: bool)
      requires Valid() && Count(UpToNul(tagString), ',') + 1 < MAX_VALUES
      modifies this
      ensures Valid() && !err
      ensures registered == Registered(old(registered), Call(className, tagString))
      ensures className in old(classes) ==> classes == old(classes) && tags == old(tags)
    {
      hide Symbols, UpToNul, Consistent, Repeat, IsRegistered, ListOf;
      ConsistentMeans(classes, tags, registered);
      if className !in classes {
        var v := TransformCSV(tagString);
        var theClass := Class(className, v);
        AddTags(className, v);
        ConsistentNext(classes, old(tags), tags, registered, theClass);
        registered := registered + [theClass];
        classes := classes[className := theClass];
      }
      err := false;
    }

    /** The loop over the tags of a new class. */
    method AddTags(className: string, v: seq<string>)
      requires forall tag | tag in tags :: tags[tag] != []
      modifies this`tags
      ensures forall tag | tag in tags :: tags[tag] != []
      ensures forall tag :: ListOf(tags, tag) == ListOf(old(tags), tag) + Repeat(className, multiset(v)[tag])
    {
      hide Repeat, ListOf;
      forall tag ensures ListOf(tags, tag) == ListOf(tags, tag) + Repeat(className, multiset(v[..0])[tag]) {
        RepeatNothing(className, v, tag);
      }
      var i := 0;
      while i < |v|
        invariant 0 <= i <= |v|
        invariant forall tag | tag in tags :: tags[tag] != []
        invariant forall tag :: ListOf(tags, tag) == ListOf(old(tags), tag) + Repeat(className, multiset(v[..i])[tag])
      {
        ghost var before := tags;
        AddTag(className, v[i]);
        forall tag ensures ListOf(tags, tag) == ListOf(old(tags), tag) + Repeat(className, multiset(v[..i + 1])[tag]) {
          RepeatNext(ListOf(old(tags), tag), className, v, i, tag);
        }
        i := i + 1;
      }
      assert v[..|v|] == v;
    }

    method AddTag(className: string, tag: string)
      requires forall t | t in tags :: tags[t] != []
      modifies this`tags
      ensures forall t | t in tags :: tags[t] != []
      ensures forall t ::
        ListOf(tags, t) == if t == tag then ListOf(old(tags), t) + [className] else ListOf(old(tags), t)
    {
      if tag in tags {
        tags := tags[tag := tags[tag] + [className]];
      } else {
        tags := tags[tag := [className]];
      }
    }

    /** getClassNamesWithTags: each tag found replaces the list, and the error is that of
        the last tag; a TTValue must have room for the lists. */
    method GetClassNamesWithTags(searchTags: seq<string>, initial: seq<string>)
      returns (err: bool, classNames: seq<string>)
      requires Valid() && forall tag | tag in tags :: |tags[tag]| < MAX_VALUES
      ensures classNames == LastFound(registered, searchTags, initial)
      ensures (forall j | 0 <= j < |searchTags| :: Tagged(registered, searchTags[j]) == []) ==> classNames == initial
      ensures forall i | 0 <= i < |searchTags| && Tagged(registered, searchTags[i]) != []
          && (forall j | i < j < |searchTags| :: Tagged(registered, searchTags[j]) == []) ::
        classNames == Tagged(registered, searchTags[i])
      ensures err <==> searchTags == [] || Tagged(registered, searchTags[|searchTags| - 1]) == []
      ensures |searchTags| == 1 && !err ==> classNames == Tagged(registered, searchTags[0])
    {
      hide Tagged;
      err, classNames := true, initial;
      var i := 0;
      while i < |searchTags|
        invariant 0 <= i <= |searchTags|
        invariant classNames == LastFound(registered, searchTags[..i], initial)
        invariant err <==> i == 0 || Tagged(registered, searchTags[i - 1]) == []
      {
        var tag := searchTags[i];
        err := tag !in tags;
        if !err {
          classNames := tags[tag];
        }
        assert searchTags[..i + 1][..i] == searchTags[..i];
        assert ListOf(tags, tag) == Tagged(registered, tag);
        i := i + 1;
      }
      assert searchTags[..|searchTags|] == searchTags;
      ghost var last := LastFoundMeans(registered, searchTags, initial);
    }
  }

  /** A run of registrations on a fresh environment. */
  method RegisterAll(calls: seq<Call>) returns (environment: Environment)
    requires forall call | call in calls :: Count(UpToNul(call.tagString), ',') + 1 < MAX_VALUES
    ensures environment.Valid() && environment.registered == Run(calls)
    ensures forall tag :: ListOf(environment.tags, tag) == Tagged(Run(calls), tag)
  {
    hide UpToNul, Count, Consistent, Registered, ListOf, Tagged;
    environment := new Environment();
    var i := 0;
    while i < |calls|
      invariant 0 <= i <= |calls| && fresh(environment)
      invariant environment.Valid() && environment.registered == Run(calls[..i])
    {
      assert calls[i] in calls;
      var err := environment.RegisterClass(calls[i].className, calls[i].tagString);
      assert calls[..i + 1][..i] == calls[..i];
      i := i + 1;
    }
    assert calls[..|calls|] == calls;
    ConsistentMeans(environment.classes, environment.tags, environment.registered);
  }
}
