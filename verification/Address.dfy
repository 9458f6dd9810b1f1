/** OSC addresses: the parser, printer and comparison of
    library/source/TTNodeDirectory.cpp:528-747, and the paths they stand for.
    Symbols are interned, so comparing symbol pointers is comparing strings. */
module Address {
  import opened Text

  const NONE := ""          // kTTSymEmpty: NO_NAME, NO_INSTANCE, NO_PARENT, NO_ATTRIBUTE
  const S_SEPARATOR := "/"
  const S_WILDCARD := "*"
  const C_SEPARATOR := '/'
  const C_INSTANCE := '.'
  const C_PROPERTY := ':'
  const C_WILDCARD := '*'

  // ---- paths ----

  datatype Component = Component(name: string, instance: string)

  type Path = seq<Component>

  predicate PlainText(s: string) {
    C_SEPARATOR !in s && C_INSTANCE !in s && C_PROPERTY !in s
  }

  predicate ValidComponent(c: Component) {
    c.name != "" && PlainText(c.name) && PlainText(c.instance)
  }

  predicate ValidPath(p: Path) {
    forall c | c in p :: ValidComponent(c)
  }

  function Parent(p: Path): Path
    requires p != []
  {
    p[..|p| - 1]
  }

  function Last(p: Path): Component
    requires p != []
  {
    p[|p| - 1]
  }

  // ---- addresses of paths ----

  function RenderComponent(c: Component): (s: string) {
    if c.instance == "" then c.name else c.name + "." + c.instance
  }

  function Relative(p: Path): (s: string)
    requires p != []
  {
    if |p| == 1 then RenderComponent(p[0]) else RenderComponent(p[0]) + "/" + Relative(p[1..])
  }

  /** The canonical address of a path. */
  function Render(p: Path): (s: string)
    ensures s != "" && s[0] == C_SEPARATOR
  {
    if p == [] then "/" else "/" + Relative(p)
  }

  function ParseComponent(level: string): Component {
    var d := LastIndex(level, C_INSTANCE);
    if d < 0 then Component(level, "") else Component(level[..d], level[d + 1..])
  }

  function ParseRelative(s: string): (p: Path)
    ensures p != []
    decreases |s|
  {
    var k := FirstIndex(s, C_SEPARATOR);
    if k < 0 then [ParseComponent(s)] else [ParseComponent(s[..k])] + ParseRelative(s[k + 1..])
  }

  function Parse(address: string): Path {
    if |address| <= 1 then [] else ParseRelative(address[1..])
  }

  predicate Canonical(address: string) {
    ValidPath(Parse(address)) && address == Render(Parse(address))
  }

  lemma ComponentText(c: Component)
    requires ValidComponent(c)
    ensures RenderComponent(c) != "" && C_SEPARATOR !in RenderComponent(c) && C_PROPERTY !in RenderComponent(c)
    ensures ParseComponent(RenderComponent(c)) == c
  {
    if c.instance != "" {
      LastIndexAt(c.name, C_INSTANCE, c.instance);
      assert RenderComponent(c) == c.name + [C_INSTANCE] + c.instance;
    }
  }

  /** Reading cuts a text at the first separator. */
  lemma ParseRelativeStep(a: string, b: string)
    requires C_SEPARATOR !in a
    ensures ParseRelative(a + [C_SEPARATOR] + b) == [ParseComponent(a)] + ParseRelative(b)
  {
    hide ParseComponent, FirstIndex;
    var s := a + [C_SEPARATOR] + b;
    FirstIndexAt(a, C_SEPARATOR, b);
    assert s[|a| + 1..] == b && s[..|a|] == a;
  }

  lemma ParseRelativeOne(s: string)
    requires C_SEPARATOR !in s
    ensures ParseRelative(s) == [ParseComponent(s)]
  {
    hide ParseComponent, FirstIndex;
  }

  lemma {:induction false} ParseRelativeOfRelative(p: Path)
    requires p != [] && ValidPath(p)
    ensures Relative(p) != "" && ParseRelative(Relative(p)) == p
  {
    hide ParseRelative, ParseComponent, RenderComponent, ValidComponent;
    ComponentText(p[0]);
    if |p| == 1 {
      ParseRelativeOne(RenderComponent(p[0]));
    } else {
      ParseRelativeOfRelative(p[1..]);
      ParseRelativeStep(RenderComponent(p[0]), Relative(p[1..]));
      assert p == [p[0]] + p[1..];
    }
  }

  /** Reading back what was printed: canonical addresses are exactly the printed paths. */
  lemma ParseOfRender(p: Path)
    requires ValidPath(p)
    ensures Parse(Render(p)) == p && Canonical(Render(p))
  {
    if p != [] {
      ParseRelativeOfRelative(p);
      assert Render(p)[1..] == Relative(p);
    }
  }

  lemma RenderInjective(p: Path, q: Path)
    requires ValidPath(p) && ValidPath(q) && Render(p) == Render(q)
    ensures p == q
  {
    ParseOfRender(p);
    ParseOfRender(q);
  }

  lemma {:induction false} RelativeSnoc(p: Path, c: Component)
    requires p != []
    ensures Relative(p + [c]) == Relative(p) + "/" + RenderComponent(c)
  {
    if |p| > 1 {
      assert (p + [c])[1..] == p[1..] + [c];
      RelativeSnoc(p[1..], c);
      var x, y, z := RenderComponent(p[0]), Relative(p[1..]), RenderComponent(c);
      assert x + "/" + (y + "/" + z) == x + "/" + y + "/" + z;
    } else {
      assert (p + [c])[1..] == [c];
    }
  }

  /** An address ends with its last component. */
  lemma RenderSnoc(p: Path, c: Component)
    ensures Render(p + [c]) == (if p == [] then "" else Render(p)) + "/" + RenderComponent(c)
  {
    if p == [] {
      assert p + [c] == [c];
    } else {
      RelativeSnoc(p, c);
    }
  }

  /** No separator hides in a canonical address: descending makes it longer. */
  lemma RenderParentShorter(p: Path)
    requires p != [] && ValidPath(p)
    ensures |Render(Parent(p))| < |Render(p)|
  {
    assert p == Parent(p) + [Last(p)];
    RenderSnoc(Parent(p), Last(p));
    ComponentText(Last(p));
  }

  // ---- splitOSCAddress and mergeOSCAddress ----

  datatype Parts = Parts(parent: string, name: string, instance: string, property: string)

  /** The part before the last ':', and the property after it. */
  function CutProperty(address: string): (string, string) {
    var colon := LastIndex(address, C_PROPERTY);
    if colon < 0 then (address, NONE) else (address[..colon], address[colon + 1..])
  }

  /** The part before the last '/', and the node part after it. */
  function CutParent(body: string): (string, string) {
    var slash := LastIndex(body, C_SEPARATOR);
    if slash > 0 then (body[..slash], body[slash + 1..])
    else if slash == 0 && |body| > 1 then (S_SEPARATOR, body[1..])
    else (NONE, body)
  }

  /** What splitOSCAddress returns, for every string. */
  function Split(address: string): Parts {
    var (body, property) := CutProperty(address);
    var (parent, leaf) := CutParent(body);
    var c := ParseComponent(leaf);
    Parts(parent, c.name, c.instance, property)
  }

  /** splitOSCAddress cuts its copy of the address three times: at the last ':', ... */
  method CutAtColon(address: string) returns (toSplit: string, property: string)
    ensures (toSplit, property) == CutProperty(address)
  {
    toSplit, property := address, NONE;
    var pos := LastIndex(toSplit, C_PROPERTY);
    if pos >= 0 {
      property := toSplit[pos + 1..];
      toSplit := toSplit[..pos];
    }
  }

  /** ... at the last '/' of what is left, ... */
  method CutAtSlash(body: string) returns (parent: string, toSplit: string)
    ensures (parent, toSplit) == CutParent(body)
  {
    parent, toSplit := NONE, body;
    var pos := LastIndex(toSplit, C_SEPARATOR);
    if pos >= 0 {
      if pos != 0 {
        parent := toSplit[..pos];
        toSplit := toSplit[pos + 1..];
      } else if |toSplit| > 1 {
        parent := S_SEPARATOR;
        toSplit := toSplit[pos + 1..];
      }
    }
  }

  /** ... and at the last '.' of the node part. */
  method SplitOSCAddress(address: string) returns (parent: string, name: string, instance: string, property: string)
    ensures Parts(parent, name, instance, property) == Split(address)
  {
    hide CutProperty, CutParent;
    var toSplit;
    toSplit, property := CutAtColon(address);
    parent, toSplit := CutAtSlash(toSplit);
    instance := NONE;
    var pos := LastIndex(toSplit, C_INSTANCE);
    if pos >= 0 {
      instance := toSplit[pos + 1..];
      toSplit := toSplit[..pos];
    }
    name := if |toSplit| > 0 then toSplit else NONE;
  }

  function Suffix(mark: string, s: string): string {
    if s == NONE then "" else mark + s
  }

  function MergeName(parent: string, name: string): string {
    if name == NONE then parent
    else if name != S_SEPARATOR && parent != S_SEPARATOR then parent + "/" + name
    else parent + name
  }

  /** mergeOSCAddress */
  function Merge(parts: Parts): string {
    MergeName(parts.parent, parts.name) + Suffix(".", parts.instance) + Suffix(":", parts.property)
  }

  /** An address with its optional property. */
  function WithProperty(address: string, property: string): string {
    if property == NONE then address else address + ":" + property
  }

  /** The parts of a path: the root is the name "/" without a parent. */
  function PartsOf(p: Path, property: string): Parts {
    if p == [] then Parts(NONE, S_SEPARATOR, NONE, property)
    else Parts(Render(Parent(p)), Last(p).name, Last(p).instance, property)
  }

  lemma {:induction false} RenderHasNoColon(p: Path)
    requires ValidPath(p)
    ensures C_PROPERTY !in Render(p)
    decreases |p|
  {
    if p != [] {
      assert p == Parent(p) + [Last(p)];
      RenderHasNoColon(Parent(p));
      RenderSnoc(Parent(p), Last(p));
      ComponentText(Last(p));
    }
  }

  lemma CutPropertyOf(body: string, property: string)
    requires C_PROPERTY !in body && C_PROPERTY !in property
    ensures CutProperty(WithProperty(body, property)) == (body, property)
  {
    hide LastIndex;
    if property != NONE {
      LastIndexAt(body, C_PROPERTY, property);
      var whole := WithProperty(body, property);
      assert whole == body + [C_PROPERTY] + property;
      assert whole[..|body|] == body && whole[|body| + 1..] == property;
    }
  }

  lemma CutParentOf(p: Path)
    requires p != [] && ValidPath(p)
    ensures CutParent(Render(p)) == (Render(Parent(p)), RenderComponent(Last(p)))
  {
    hide LastIndex, Relative, RenderComponent;
    var up, leaf := (if Parent(p) == [] then "" else Render(Parent(p))), RenderComponent(Last(p));
    assert p == Parent(p) + [Last(p)];
    RenderSnoc(Parent(p), Last(p));
    ComponentText(Last(p));
    LastIndexAt(up, C_SEPARATOR, leaf);
    assert Render(p) == up + [C_SEPARATOR] + leaf;
    assert Render(p)[|up| + 1..] == leaf && Render(p)[..|up|] == up;
  }

  lemma SplitOfRender(p: Path, property: string)
    requires ValidPath(p) && C_PROPERTY !in property
    ensures Split(WithProperty(Render(p), property)) == PartsOf(p, property)
  {
    hide LastIndex, CutProperty;
    RenderHasNoColon(p);
    CutPropertyOf(Render(p), property);
    if p == [] {
      assert LastIndex("/", C_SEPARATOR) == 0;
      assert LastIndex("/", C_INSTANCE) == -1;
    } else {
      hide CutParent;
      CutParentOf(p);
      ComponentText(Last(p));
    }
  }

  lemma MergeOfParts(p: Path, property: string)
    requires ValidPath(p)
    ensures Merge(PartsOf(p, property)) == WithProperty(Render(p), property)
  {
    hide Relative;
    var parts := PartsOf(p, property);
    assert MergeName(parts.parent, parts.name) + Suffix(".", parts.instance) == Render(p) by {
      if p != [] {
        MergeOfNode(p);
      }
    }
  }

  lemma Assoc(a: string, b: string, c: string)
    ensures (a + b) + c == a + (b + c)
  {
  }

  lemma RenderComponentSuffix(c: Component)
    ensures RenderComponent(c) == c.name + Suffix(".", c.instance)
  {
  }

  lemma MergeOfNode(p: Path)
    requires p != [] && ValidPath(p)
    ensures MergeName(Render(Parent(p)), Last(p).name) + Suffix(".", Last(p).instance) == Render(p)
  {
    hide Render, RenderComponent, Suffix;
    var up, c := Parent(p), Last(p);
    assert p == up + [c] && c in p;
    RenderSnoc(up, c);
    RenderComponentSuffix(c);
    RenderIsRootOnly(up);
    var lead := (if up == [] then "" else Render(up)) + "/";
    Assoc(lead, c.name, Suffix(".", c.instance));
  }

  lemma RenderIsRootOnly(p: Path)
    requires ValidPath(p)
    ensures Render(p) == S_SEPARATOR <==> p == []
  {
    if p != [] {
      ParseRelativeOfRelative(p);
    }
  }

  /** Splitting what was merged gives the parts back. */
  lemma SplitOfMerge(p: Path, property: string)
    requires ValidPath(p) && C_PROPERTY !in property
    ensures Split(Merge(PartsOf(p, property))) == PartsOf(p, property)
  {
    MergeOfParts(p, property);
    SplitOfRender(p, property);
  }

  /** The strings that survive a split and a merge. */
  predicate MergesBack(address: string) {
    var (body, property) := CutProperty(address);
    var (parent, leaf) := CutParent(body);
    var c := ParseComponent(leaf);
    var slash := LastIndex(body, C_SEPARATOR);
    && (C_PROPERTY in address ==> property != "")
    && (C_INSTANCE in leaf ==> c.instance != "")
    && (slash < 0 ==> c.name == "")
    && (slash > 0 ==> c.name != "" && parent != S_SEPARATOR)
  }

  lemma LeafMerges(leaf: string)
    ensures var c := ParseComponent(leaf);
      var back := c.name + Suffix(".", c.instance);
      && |back| <= |leaf|
      && (back == leaf <==> (C_INSTANCE in leaf ==> c.instance != ""))
      && (C_SEPARATOR !in leaf ==> C_SEPARATOR !in c.name)
  {
    var c := ParseComponent(leaf);
    if C_INSTANCE in leaf {
      assert leaf == c.name + "." + c.instance;
    }
  }

  lemma CutAt(s: string, k: nat)
    requires k < |s|
    ensures s == s[..k] + [s[k]] + s[k + 1..]
    ensures k == 0 ==> s == [s[k]] + s[1..]
    ensures s[k] !in s[k + 1..] <==> forall i :: k < i < |s| ==> s[i] != s[k]
  {
    assert forall i :: k < i < |s| ==> s[i] == s[k + 1..][i - k - 1];
  }

  lemma BodyCut(body: string)
    ensures var (parent, leaf) := CutParent(body);
      var slash := LastIndex(body, C_SEPARATOR);
      && (slash < 0 ==> parent == NONE && leaf == body && C_SEPARATOR !in body)
      && (slash == 0 && |body| == 1 ==> parent == NONE && leaf == body == "/")
      && (slash == 0 && |body| > 1 ==> parent == "/" && body == "/" + leaf && C_SEPARATOR !in leaf)
      && (slash > 0 ==> parent != "" && body == parent + "/" + leaf && C_SEPARATOR !in leaf)
  {
    hide LastIndex;
    var slash := LastIndex(body, C_SEPARATOR);
    if slash >= 0 {
      CutAt(body, slash);
    }
  }

  function MergedBody(parent: string, leaf: string): string {
    MergeName(parent, ParseComponent(leaf).name) + Suffix(".", ParseComponent(leaf).instance)
  }

  /** What was cut at a separator comes back with it, unless the name is empty or
      the parent is taken for the root. */
  lemma DeeperMerges(parent: string, leaf: string)
    requires parent != "" && C_SEPARATOR !in leaf
    ensures var c := ParseComponent(leaf);
      var body, back := parent + "/" + leaf, MergedBody(parent, leaf);
      && |back| <= |body|
      && (back == body <==>
          (C_INSTANCE in leaf ==> c.instance != "") && c.name != "" && parent != S_SEPARATOR)
  {
    hide ParseComponent, Suffix;
    LeafMerges(leaf);
    var c := ParseComponent(leaf);
    var rest := c.name + Suffix(".", c.instance);
    if c.name == "" {
      assert MergedBody(parent, leaf) == parent + rest;
    } else if parent == S_SEPARATOR {
      assert MergedBody(parent, leaf) == "/" + rest;
    } else {
      Assoc(parent + "/", c.name, Suffix(".", c.instance));
      SameHead(parent + "/", rest, leaf);
    }
  }

  lemma ChildOfRootMerges(leaf: string)
    requires C_SEPARATOR !in leaf
    ensures var back := MergedBody(S_SEPARATOR, leaf);
      && |back| <= 1 + |leaf|
      && (back == "/" + leaf <==> (C_INSTANCE in leaf ==> ParseComponent(leaf).instance != ""))
  {
    hide ParseComponent, Suffix;
    LeafMerges(leaf);
    var c := ParseComponent(leaf);
    Assoc("/", c.name, Suffix(".", c.instance));
    assert MergeName(S_SEPARATOR, c.name) == "/" + c.name;
    SameHead("/", c.name + Suffix(".", c.instance), leaf);
  }

  lemma BareMerges(body: string)
    requires C_SEPARATOR !in body
    ensures var c := ParseComponent(body);
      var back := MergedBody(NONE, body);
      if c.name == "" then |back| <= |body| && (back == body <==> (C_INSTANCE in body ==> c.instance != ""))
      else body != "" && back != "" && back[0] == '/' != body[0]
  {
    hide ParseComponent, Suffix;
    LeafMerges(body);
    var c := ParseComponent(body);
    if c.name == "" {
      assert MergedBody(NONE, body) == c.name + Suffix(".", c.instance);
    } else {
      assert MergeName(NONE, c.name) == "/" + c.name;
    }
  }

  /** The address part: rebuilt exactly when nothing empty was cut off, and
      otherwise shorter, or with a separator in front that was not there. */
  lemma BodyMerges(body: string)
    ensures var (parent, leaf) := CutParent(body);
      var c := ParseComponent(leaf);
      var slash := LastIndex(body, C_SEPARATOR);
      var back := MergedBody(parent, leaf);
      && (back == body <==>
          (C_INSTANCE in leaf ==> c.instance != "") && (slash < 0 ==> c.name == "")
          && (slash > 0 ==> c.name != "" && parent != S_SEPARATOR))
      && (if slash < 0 && c.name != "" then body != "" && back != "" && back[0] == '/' != body[0]
          else |back| <= |body|)
  {
    hide LastIndex, ParseComponent, CutParent, MergedBody;
    var (parent, leaf) := CutParent(body);
    var slash := LastIndex(body, C_SEPARATOR);
    BodyCut(body);
    if slash < 0 {
      BareMerges(body);
    } else if slash == 0 && |body| == 1 {
      SeparatorMerges();
    } else if slash == 0 {
      ChildOfRootMerges(leaf);
    } else {
      DeeperMerges(parent, leaf);
    }
  }

  lemma SameHead(head: string, a: string, b: string)
    ensures head + a == head + b <==> a == b
  {
    if head + a == head + b {
      assert a == (head + a)[|head|..] == (head + b)[|head|..] == b;
    }
  }

  lemma SeparatorMerges()
    ensures ParseComponent("/") == Component("/", "") && MergedBody(NONE, "/") == "/"
  {
    assert LastIndex("/", C_INSTANCE) == -1;
  }

  lemma ColonCut(address: string)
    ensures var (body, property) := CutProperty(address);
      && (C_PROPERTY in address ==> address == body + ":" + property)
      && (C_PROPERTY !in address ==> address == body && property == "")
  {
  }

  /** Merging what was split gives the address back exactly for those strings. */
  lemma MergeOfSplit(address: string)
    ensures Merge(Split(address)) == address <==> MergesBack(address)
  {
    hide LastIndex, ParseComponent, CutParent, CutProperty, MergeName;
    var (body, property) := CutProperty(address);
    var (parent, leaf) := CutParent(body);
    var back := MergedBody(parent, leaf);
    ColonCut(address);
    BodyMerges(body);
    assert Merge(Split(address)) == back + Suffix(":", property);
    assert back + "" == back;
    if C_PROPERTY in address && property != "" {
      assert address == body + Suffix(":", property);
      assert address[..|body|] == body;
      SameTail(back, body, Suffix(":", property));
    }
  }

  lemma SameTail(a: string, b: string, tail: string)
    ensures a + tail == b + tail <==> a == b
  {
    if a + tail == b + tail {
      assert |a| == |b|;
      assert a == (a + tail)[..|a|] == (b + tail)[..|b|] == b;
    }
  }

  // ---- splitAtOSCAddress ----

  /** The first whereToSplit + 1 levels with their separators, and the rest; an
      error, with everything in the first part, when there are not that many. */
  method SplitAtOSCAddress(address: string, whereToSplit: int) returns (part1: string, part2: string, err: bool)
    ensures part1 + part2 == address
    ensures err <==> 0 <= whereToSplit && Count(address, C_SEPARATOR) <= whereToSplit
    ensures err ==> part2 == ""
    ensures !err ==> Count(part1, C_SEPARATOR) == if whereToSplit < 0 then 0 else whereToSplit + 1
    ensures !err ==> part1 == "" || part1[|part1| - 1] == C_SEPARATOR
    ensures !err && whereToSplit < 0 ==> part1 == ""
  {
    hide Count, FirstIndex;
    part1, part2, err := "", address, false;
    var i := 0;
    assert Count("", C_SEPARATOR) == 0;
    while i <= whereToSplit
      invariant part1 + part2 == address && 0 <= i && (i <= whereToSplit + 1 || i == 0) && !err
      invariant Count(part1, C_SEPARATOR) == i
      invariant part1 == "" || part1[|part1| - 1] == C_SEPARATOR
      invariant i == 0 ==> part1 == ""
    {
      CountAppend(part1, part2, C_SEPARATOR);
      var nb := Count(part2, C_SEPARATOR);
      if nb != 0 {
        var pos := FirstIndex(part2, C_SEPARATOR);
        LevelTaken(part1, part2, pos);
        part1, part2 := part1 + part2[..pos + 1], part2[pos + 1..];
      } else {
        part1 := part1 + part2;
        part2 := "";
        err := true;
        return;
      }
      i := i + 1;
    }
    CountAppend(part1, part2, C_SEPARATOR);
  }

  /** One more level goes over to the first part. */
  lemma LevelTaken(part1: string, part2: string, pos: int)
    requires C_SEPARATOR in part2 && pos == FirstIndex(part2, C_SEPARATOR)
    ensures 0 <= pos < |part2| && (part1 + part2[..pos + 1]) + part2[pos + 1..] == part1 + part2
    ensures Count(part1 + part2[..pos + 1], C_SEPARATOR) == Count(part1, C_SEPARATOR) + 1
    ensures (part1 + part2[..pos + 1])[|part1| + pos] == C_SEPARATOR
  {
    hide Count, FirstIndex;
    FirstLevelCount(part2);
    CountAppend(part1, part2[..pos + 1], C_SEPARATOR);
  }

  lemma FirstLevelCount(s: string)
    requires C_SEPARATOR in s
    ensures var pos := FirstIndex(s, C_SEPARATOR); pos >= 0 && Count(s[..pos + 1], C_SEPARATOR) == 1
  {
    var pos := FirstIndex(s, C_SEPARATOR);
    assert s[..pos + 1] == s[..pos] + [C_SEPARATOR];
    CountAppend(s[..pos], [C_SEPARATOR], C_SEPARATOR);
  }

  // ---- compareOSCAddress ----

  datatype Comparison = Lower | Different | Equal | Upper

  predicate Matches(c: Component, d: Component) {
    && (c.name == d.name || c.name == S_WILDCARD || d.name == S_WILDCARD)
    && (c.instance == d.instance || c.instance == S_WILDCARD || d.instance == S_WILDCARD)
  }

  /** How the first path lies to the second: component by component. */
  function Compare(p: Path, q: Path): Comparison {
    if p == [] && q == [] then Equal
    else if p == [] then Upper
    else if q == [] then Lower
    else if Matches(p[0], q[0]) then Compare(p[1..], q[1..])
    else Different
  }

  /** Every component of the shorter path matches its counterpart. */
  ghost predicate MatchesPrefix(p: Path, q: Path)
  {
    forall i | 0 <= i < |p| && i < |q| :: Matches(p[i], q[i])
  }

  /** The meaning of the four answers; a whole name or instance "*" matches any. */
  lemma {:induction false} CompareMeaning(p: Path, q: Path)
    ensures MatchesPrefix(p, q) <==> forall i :: 0 <= i < |p| && i < |q| ==>
      && (p[i].name == q[i].name || p[i].name == "*" || q[i].name == "*")
      && (p[i].instance == q[i].instance || p[i].instance == "*" || q[i].instance == "*")
    ensures Compare(p, q) == Different <==> !MatchesPrefix(p, q)
    ensures MatchesPrefix(p, q) ==>
      Compare(p, q) == (if |p| == |q| then Equal else if |p| < |q| then Upper else Lower)
  {
    if p != [] && q != [] {
      CompareMeaning(p[1..], q[1..]);
      if MatchesPrefix(p, q) {
        assert Matches(p[0], q[0]);
        forall i | 0 <= i < |p[1..]| && i < |q[1..]| ensures Matches(p[1..][i], q[1..][i]) {
          assert Matches(p[i + 1], q[i + 1]);
        }
      } else {
        var i :| 0 <= i < |p| && i < |q| && !Matches(p[i], q[i]);
        if i > 0 {
          assert !Matches(p[1..][i - 1], q[1..][i - 1]);
        }
      }
    }
  }

  /** Exchanging the addresses exchanges Upper and Lower and nothing else. */
  lemma {:induction false} CompareSymmetric(p: Path, q: Path)
    ensures Compare(p, q) == Upper <==> Compare(q, p) == Lower
    ensures Compare(p, q) == Equal <==> Compare(q, p) == Equal
    ensures Compare(p, q) == Different <==> Compare(q, p) == Different
  {
    CompareMeaning(p, q);
    CompareMeaning(q, p);
    assert MatchesPrefix(p, q) ==> forall i | 0 <= i < |q| && i < |p| :: Matches(p[i], q[i]);
    assert MatchesPrefix(q, p) ==> forall i | 0 <= i < |q| && i < |p| :: Matches(q[i], p[i]);
  }

  predicate WildcardFree(p: Path) {
    forall c | c in p :: C_WILDCARD !in c.name && C_WILDCARD !in c.instance
  }

  /** Between addresses of nodes, Lower is descent in the tree. */
  lemma {:induction false} CompareIsDescent(p: Path, q: Path)
    requires WildcardFree(p) && WildcardFree(q)
    ensures Compare(p, q) == Equal <==> p == q
    ensures Compare(p, q) == Lower <==> q < p
    ensures Compare(p, q) == Upper <==> p < q
  {
    CompareMeaning(p, q);
    forall i | 0 <= i < |p| && i < |q|
      ensures Matches(p[i], q[i]) <==> p[i] == q[i]
    {
      assert p[i] in p && q[i] in q;
    }
    if MatchesPrefix(p, q) {
      var n := if |p| < |q| then |p| else |q|;
      assert forall i | 0 <= i < n :: p[i] == q[i];
    } else {
      var i :| 0 <= i < |p| && i < |q| && !Matches(p[i], q[i]);
      assert p[i] != q[i];
    }
  }

  /** The cuts are the last ones: the property holds no ':', name and instance no '/' unless the
      name is the root's, and the instance no '.'. */
  lemma SplitMeans(address: string)
    ensures var s := Split(address);
      && ':' !in s.property && '.' !in s.instance && '/' !in s.instance && ('/' !in s.name || s.name == "/")
  {
    hide LastIndex, CutParent, CutProperty;
    var (body, property) := CutProperty(address);
    var (parent, leaf) := CutParent(body);
    LastColon(address);
    BodyCut(body);
    LastDot(leaf);
    if '/' in leaf {
      SeparatorMerges();
    }
  }

  lemma LastColon(address: string)
    ensures ':' !in CutProperty(address).1
  {
    var k := LastIndex(address, C_PROPERTY);
    if k >= 0 {
      CutAt(address, k);
    }
  }

  lemma LastDot(leaf: string)
    ensures var c := ParseComponent(leaf);
      '.' !in c.instance && ('/' !in leaf ==> '/' !in c.name && '/' !in c.instance)
  {
    var k := LastIndex(leaf, C_INSTANCE);
    if k >= 0 {
      CutAt(leaf, k);
    }
  }

  /** The marks themselves. */
  lemma Marks()
    ensures Render([]) == "/" && Render([Component("a", "1"), Component("b", "")]) == "/a.1/b"
    ensures Split("/a.1/b:c") == Parts("/a.1", "b", "", "c") && Split("/a.1") == Parts("/", "a", "1", "")
    ensures Merge(Parts("/a.1", "b", "", "c")) == "/a.1/b:c" && Merge(Parts("/", "a", "1", "")) == "/a.1"
  {
    var a: Path, b := [Component("a", "1")], Component("b", "");
    var p := a + [b];
    assert p == [Component("a", "1"), Component("b", "")] && p[1..] == [b];
    assert Relative(a) == "a" + "." + "1" == "a.1" && Relative(p) == "a.1" + "/" + "b" == "a.1/b";
    assert Render(a) == "/a.1" && Render(p) == "/a.1/b" && Parent(p) == a && Parent(a) == [];
    assert WithProperty(Render(p), "c") == "/a.1/b:c" && WithProperty(Render(a), "") == "/a.1";
    assert ValidComponent(a[0]) && ValidComponent(b);
    SplitOfRender(p, "c");
    SplitOfRender(a, "");
    MergeOfParts(p, "c");
    MergeOfParts(a, "");
  }

  // ---- addresses level by level, the last level with the property ----

  /** A component with its property; before the property of the root there is none. */
  predicate ValidLevel(c: Component, x: string) {
    && (ValidComponent(c) || (c == Component(NONE, NONE) && x != NONE))
    && C_PROPERTY !in x && C_SEPARATOR !in x
  }

  function LevelText(c: Component, x: string): string {
    RenderComponent(c) + Suffix(":", x)
  }

  predicate ValidLevels(p: Path, x: string)
    requires p != []
  {
    if |p| == 1 then ValidLevel(p[0], x) else ValidComponent(p[0]) && ValidLevels(p[1..], x)
  }

  /** The address of the levels, relative to where they begin. */
  function Levels(p: Path, x: string): string
    requires p != []
  {
    if |p| == 1 then LevelText(p[0], x) else RenderComponent(p[0]) + "/" + Levels(p[1..], x)
  }

  function Rooted(p: Path, x: string): string {
    if p == [] then "/" else "/" + Levels(p, x)
  }

  predicate Stands(p: Path, x: string) {
    if p == [] then x == NONE else ValidLevels(p, x)
  }

  /** The property that the first level carries. */
  function HeadProperty(p: Path, x: string): string {
    if |p| == 1 then x else NONE
  }

  lemma LevelTextIs(c: Component, x: string)
    requires ValidLevel(c, x)
    ensures LevelText(c, x) != "" && C_SEPARATOR !in LevelText(c, x)
    ensures Split(LevelText(c, x)) == Parts(NONE, c.name, c.instance, x)
  {
    hide LastIndex, CutProperty, RenderComponent, ParseComponent;
    var body := RenderComponent(c);
    if ValidComponent(c) {
      ComponentText(c);
    } else {
      NoComponent();
    }
    assert body + "" == body && body + (":" + x) == body + ":" + x;
    CutPropertyOf(body, x);
    assert LastIndex(body, C_SEPARATOR) == -1;
  }

  lemma NoComponent()
    ensures RenderComponent(Component(NONE, NONE)) == "" && ParseComponent("") == Component(NONE, NONE)
  {
  }

  lemma LevelsStart(p: Path, x: string)
    requires p != [] && ValidLevels(p, x)
    ensures Levels(p, x) != "" && Levels(p, x)[0] != C_SEPARATOR
  {
    hide LevelText, RenderComponent, ValidLevel;
    if |p| == 1 {
      LevelTextIs(p[0], x);
    } else {
      ComponentText(p[0]);
    }
  }

  /** A valid path and a property without ':' and '/'; the root with a property has one
      level that is nothing but the property. */
  function LevelsOf(p: Path, x: string): Path {
    if p == [] && x != NONE then [Component(NONE, NONE)] else p
  }

  lemma {:induction false} LevelsOfPath(p: Path, x: string)
    requires p != [] && ValidPath(p) && C_PROPERTY !in x && C_SEPARATOR !in x
    ensures ValidLevels(p, x) && Levels(p, x) == Relative(p) + Suffix(":", x)
  {
    hide RenderComponent, Suffix, ValidComponent;
    if |p| > 1 {
      LevelsOfPath(p[1..], x);
      Assoc(RenderComponent(p[0]) + "/", Relative(p[1..]), Suffix(":", x));
    }
  }

  lemma OneLevel(c: Component, x: string)
    ensures Levels([c], x) == LevelText(c, x) && ValidLevels([c], x) == ValidLevel(c, x)
  {
  }

  /** These are the addresses of nodes and of their properties. */
  lemma LevelsOfAddress(p: Path, x: string)
    requires ValidPath(p) && C_PROPERTY !in x && C_SEPARATOR !in x
    ensures Stands(LevelsOf(p, x), x) && Rooted(LevelsOf(p, x), x) == WithProperty(Render(p), x)
  {
    hide Levels, ValidLevels, Relative, ValidPath;
    if p != [] {
      LevelsOfPath(p, x);
      Assoc("/", Relative(p), Suffix(":", x));
      WithSuffix(Render(p), x);
    } else if x != NONE {
      OneLevel(Component(NONE, NONE), x);
      RootLevel(x);
    }
  }

  lemma WithSuffix(address: string, x: string)
    ensures WithProperty(address, x) == address + Suffix(":", x)
  {
    assert address + (":" + x) == address + ":" + x;
  }

  lemma RootLevel(x: string)
    requires x != NONE && C_PROPERTY !in x && C_SEPARATOR !in x
    ensures ValidLevel(Component(NONE, NONE), x)
    ensures "/" + LevelText(Component(NONE, NONE), x) == WithProperty(Render([]), x)
  {
    assert LevelText(Component(NONE, NONE), x) == ":" + x;
    WithSuffix("/", x);
  }

  /** How one address lies to another: by their levels, and a level with a property only
      to a level with the same one. */
  function CompareWith(p: Path, x: string, q: Path, y: string): Comparison {
    match Compare(p, q)
    case Equal => if p == [] || x == y then Equal else Different
    case Upper => if p == [] || x == NONE then Upper else Different
    case Lower => if q == [] || y == NONE then Lower else Different
    case Different => Different
  }

  /** The answers, written out: whole names and instances "*" match any other. */
  lemma CompareWithMeans(p: Path, x: string, q: Path, y: string)
    ensures
      var alike := forall i :: 0 <= i < |p| && i < |q| ==>
        && (p[i].name == q[i].name || p[i].name == "*" || q[i].name == "*")
        && (p[i].instance == q[i].instance || p[i].instance == "*" || q[i].instance == "*");
      && (CompareWith(p, x, q, y) == Equal <==> alike && |p| == |q| && (p == [] || x == y))
      && (CompareWith(p, x, q, y) == Upper <==> alike && |p| < |q| && (p == [] || x == ""))
      && (CompareWith(p, x, q, y) == Lower <==> alike && |p| > |q| && (q == [] || y == ""))
  {
    hide MatchesPrefix, Compare;
    CompareMeaning(p, q);
  }

  lemma CompareWithout(p: Path, q: Path)
    ensures CompareWith(p, NONE, q, NONE) == Compare(p, q)
  {
  }

  /** One level decides, or what follows does. */
  lemma CompareStep(p: Path, x: string, q: Path, y: string)
    requires p != [] && q != []
    ensures CompareWith(p, x, q, y) ==
      if Matches(p[0], q[0]) && HeadProperty(p, x) == HeadProperty(q, y) then CompareWith(p[1..], x, q[1..], y)
      else Different
  {
    CompareMeaning(p, q);
    CompareMeaning(p[1..], q[1..]);
  }

  lemma {:induction false} CompareSelf(p: Path, x: string)
    ensures CompareWith(p, x, p, x) == Equal
  {
    CompareMeaning(p, p);
  }

  /** What splitAtOSCAddress at 0 leaves of a relative address. */
  ghost predicate LevelOf(p: Path, x: string, top: string, rest: string, err: bool)
    requires p != []
  {
    if |p| == 1 then top == LevelText(p[0], x) && rest == "" && err
    else top == RenderComponent(p[0]) + "/" && rest == Levels(p[1..], x) && !err
  }

  /** A string is its first level, with the separator, and the rest, in one way only. */
  lemma FirstLevel(address: string, top: string, rest: string, err: bool)
    requires top + rest == address
    requires err <==> Count(address, C_SEPARATOR) <= 0
    requires err ==> rest == ""
    requires !err ==> Count(top, C_SEPARATOR) == 1 && top != "" && top[|top| - 1] == C_SEPARATOR
    ensures var k := FirstIndex(address, C_SEPARATOR);
      if err then top == address && k < 0
      else k >= 0 && top == address[..k + 1] && rest == address[k + 1..]
  {
    hide FirstIndex;
    if err {
      assert top + "" == top;
    } else {
      var bare := top[..|top| - 1];
      assert top == bare + [C_SEPARATOR];
      CountAppend(bare, [C_SEPARATOR], C_SEPARATOR);
      assert address == bare + [C_SEPARATOR] + rest;
      FirstIndexAt(bare, C_SEPARATOR, rest);
    }
  }

  method FirstLevelOf(address: string) returns (top: string, rest: string, err: bool)
    ensures top + rest == address && (err ==> rest == "")
    ensures if address == "" then err else |rest| < |address|
    ensures forall p: Path, x: string | p != [] && ValidLevels(p, x) && address == Levels(p, x) ::
      LevelOf(p, x, top, rest, err)
    ensures forall p: Path, x: string | p != [] && ValidLevels(p, x) && address == Rooted(p, x) ::
      top == "/" && rest == Levels(p, x) && !err
  {
    hide Levels, ValidLevels, LevelOf, FirstIndex;
    top, rest, err := SplitAtOSCAddress(address, 0);
    FirstLevel(address, top, rest, err);
    forall p: Path, x: string | p != [] && ValidLevels(p, x) && address == Levels(p, x)
      ensures LevelOf(p, x, top, rest, err)
    {
      LevelOfLevels(p, x, top, rest, err);
    }
    forall p: Path, x: string | p != [] && ValidLevels(p, x) && address == Rooted(p, x)
      ensures top == "/" && rest == Levels(p, x) && !err
    {
      assert FirstIndex(address, C_SEPARATOR) == 0;
    }
  }

  lemma LevelOfLevels(p: Path, x: string, top: string, rest: string, err: bool)
    requires p != [] && ValidLevels(p, x)
    requires var k, address := FirstIndex(Levels(p, x), C_SEPARATOR), Levels(p, x);
      if err then top == address && rest == "" && k < 0
      else k >= 0 && top == address[..k + 1] && rest == address[k + 1..]
    ensures LevelOf(p, x, top, rest, err)
  {
    hide FirstIndex, RenderComponent, LevelText, ValidLevel;
    if |p| == 1 {
      LevelTextIs(p[0], x);
    } else {
      ComponentText(p[0]);
      var a, b := RenderComponent(p[0]), Levels(p[1..], x);
      FirstIndexAt(a, C_SEPARATOR, b);
      assert Levels(p, x) == a + [C_SEPARATOR] + b;
      assert Levels(p, x)[..|a| + 1] == a + "/" && Levels(p, x)[|a| + 1..] == b;
    }
  }

  /** Levels and property can be read off the text. */
  lemma {:induction false} LevelsUnique(p: Path, x: string, q: Path, y: string)
    requires p != [] && q != [] && ValidLevels(p, x) && ValidLevels(q, y) && Levels(p, x) == Levels(q, y)
    ensures p == q && x == y
  {
    hide FirstIndex, RenderComponent, LevelText, ValidLevel, ParseComponent;
    var address := Levels(p, x);
    var k := FirstIndex(address, C_SEPARATOR);
    if k < 0 {
      LevelOfLevels(p, x, address, "", true);
      LevelOfLevels(q, y, address, "", true);
      LevelTextIs(p[0], x);
      LevelTextIs(q[0], y);
    } else {
      LevelOfLevels(p, x, address[..k + 1], address[k + 1..], false);
      LevelOfLevels(q, y, address[..k + 1], address[k + 1..], false);
      SameName(p[0], q[0], address[..k + 1]);
      LevelsUnique(p[1..], x, q[1..], y);
    }
  }

  lemma SameName(c: Component, d: Component, top: string)
    requires ValidComponent(c) && ValidComponent(d)
    requires top == RenderComponent(c) + "/" == RenderComponent(d) + "/"
    ensures c == d
  {
    hide RenderComponent, ParseComponent;
    ComponentText(c);
    ComponentText(d);
    assert top[..|top| - 1] == RenderComponent(c) == RenderComponent(d);
  }

  /** The strings are the addresses of these levels, both from the root or both
      below a common one. */
  ghost predicate Names(p: Path, x: string, q: Path, y: string, a: string, b: string) {
    && Stands(p, x) && Stands(q, y)
    && ((a == Rooted(p, x) && b == Rooted(q, y))
        || (p != [] && q != [] && a == Levels(p, x) && b == Levels(q, y)))
  }

  /** Addresses of nodes and of their properties are among them. */
  lemma AddressesName(p: Path, x: string, q: Path, y: string)
    requires ValidPath(p) && C_PROPERTY !in x && C_SEPARATOR !in x
    requires ValidPath(q) && C_PROPERTY !in y && C_SEPARATOR !in y
    ensures Names(LevelsOf(p, x), x, LevelsOf(q, y), y, WithProperty(Render(p), x), WithProperty(Render(q), y))
  {
    hide Levels, ValidLevels, Render, ValidPath, Rooted, Stands, LevelsOf, WithProperty;
    LevelsOfAddress(p, x);
    LevelsOfAddress(q, y);
  }

  lemma RootedUnique(p: Path, x: string, q: Path, y: string)
    requires Stands(p, x) && Stands(q, y) && Rooted(p, x) == Rooted(q, y)
    ensures p == q && x == y
  {
    hide Levels, ValidLevels;
    if p != [] { LevelsStart(p, x); }
    if q != [] { LevelsStart(q, y); }
    if p != [] && q != [] {
      assert Rooted(p, x)[1..] == Levels(p, x) && Rooted(q, y)[1..] == Levels(q, y);
      LevelsUnique(p, x, q, y);
    }
  }

  lemma NamesUnique(p: Path, x: string, q: Path, y: string, p': Path, x': string, q': Path, y': string,
      a: string, b: string)
    requires Names(p, x, q, y, a, b) && Names(p', x', q', y', a, b)
    ensures p' == p && x' == x && q' == q && y' == y
  {
    hide Levels, ValidLevels;
    if p != [] { LevelsStart(p, x); }
    if p' != [] { LevelsStart(p', x'); }
    if a == Rooted(p, x) {
      RootedUnique(p, x, p', x');
      RootedUnique(q, y, q', y');
    } else {
      LevelsUnique(p, x, p', x');
      LevelsUnique(q, y, q', y');
    }
  }

  /** The answers the comparison gives before it looks at any level. */
  lemma NamesOfSpecial(p: Path, x: string, q: Path, y: string, a: string, b: string)
    requires Names(p, x, q, y, a, b)
    ensures Stands(p, x) && Stands(q, y)
    ensures a == b ==> CompareWith(p, x, q, y) == Equal
    ensures a == "/" && a != b ==> CompareWith(p, x, q, y) == Upper
    ensures b == "/" && a != b ==> CompareWith(p, x, q, y) == Lower
    ensures a != b && a != "/" && b != "/" ==> p != [] && q != []
  {
    hide Levels, ValidLevels;
    if p != [] { LevelsStart(p, x); }
    if q != [] { LevelsStart(q, y); }
    if a == b {
      if a == Rooted(p, x) {
        RootedUnique(p, x, q, y);
      } else {
        LevelsUnique(p, x, q, y);
      }
      CompareSelf(p, x);
    }
  }

  ghost predicate IsLevel(c: Component, x: string, top: string) {
    top == LevelText(c, x) || (x == NONE && top == RenderComponent(c) + "/")
  }

  /** The level with its trailing separator removed. */
  lemma LevelBare(c: Component, x: string, top: string)
    requires ValidLevel(c, x) && IsLevel(c, x, top)
    ensures var k := FirstIndex(top, C_SEPARATOR);
      (if k >= 0 && k + 1 == |top| then top[..k] else top) == LevelText(c, x)
  {
    hide FirstIndex, RenderComponent;
    LevelTextIs(c, x);
    if top != LevelText(c, x) {
      var text := RenderComponent(c);
      assert LevelText(c, x) == text;
      FirstIndexAt(text, C_SEPARATOR, "");
      assert top == text + [C_SEPARATOR] + "";
    }
  }

  /** The part of compareOSCAddress that decides one level: the separator at its end
      is dropped, the rest split into name, instance and attribute. */
  method CompareLevel(top1: string, top2: string) returns (same: bool)
    ensures forall c, x, d, y | ValidLevel(c, x) && ValidLevel(d, y) && IsLevel(c, x, top1) && IsLevel(d, y, top2) ::
      same == (Matches(c, d) && x == y)
  {
    hide FirstIndex, Split, LevelText, ValidLevel, IsLevel;
    var level1, level2 := top1, top2;
    var pos1, pos2 := FirstIndex(level1, C_SEPARATOR), FirstIndex(level2, C_SEPARATOR);
    if pos1 >= 0 && pos1 + 1 == |level1| {
      level1 := level1[..pos1];
    }
    if pos2 >= 0 && pos2 + 1 == |level2| {
      level2 := level2[..pos2];
    }
    var parent1, name1, instance1, attribute1 := SplitOSCAddress(level1);
    var parent2, name2, instance2, attribute2 := SplitOSCAddress(level2);
    var cName := name1 == name2 || name1 == S_WILDCARD || name2 == S_WILDCARD;
    var cInstance := instance1 == instance2 || instance1 == S_WILDCARD || instance2 == S_WILDCARD;
    var cAttribute := attribute1 == attribute2;
    same := cName && cInstance && cAttribute;
    forall c, x, d, y | ValidLevel(c, x) && ValidLevel(d, y) && IsLevel(c, x, top1) && IsLevel(d, y, top2)
      ensures same == (Matches(c, d) && x == y)
    {
      LevelBare(c, x, top1);
      LevelBare(d, y, top2);
      LevelTextIs(c, x);
      LevelTextIs(d, y);
    }
  }

  /** How far the level loop has come on two named addresses: s and t are what is
      left of the paths, their first levels already cut off, unless only the
      leading separators are. */
  ghost predicate Reached(
      s: Path, x: string, t: Path, y: string, lead: bool,
      top1: string, rest1: string, err1: bool, top2: string, rest2: string, err2: bool)
  {
    && s != [] && t != [] && ValidLevels(s, x) && ValidLevels(t, y)
    && if lead then top1 == top2 == "/" && rest1 == Levels(s, x) && rest2 == Levels(t, y) && !err1 && !err2
       else LevelOf(s, x, top1, rest1, err1) && LevelOf(t, y, top2, rest2, err2)
  }

  /** While both first levels are the same, the rests are addresses of what follows. */
  lemma ReachedNext(
      s: Path, x: string, t: Path, y: string, lead: bool,
      top: string, rest1: string, rest2: string)
    returns (s': Path, t': Path)
    requires Reached(s, x, t, y, lead, top, rest1, false, top, rest2, false)
    ensures s' != [] && t' != [] && ValidLevels(s', x) && ValidLevels(t', y)
    ensures rest1 == Levels(s', x) && rest2 == Levels(t', y)
    ensures CompareWith(s, x, t, y) == CompareWith(s', x, t', y)
  {
    hide Levels, RenderComponent, ValidComponent, CompareWith;
    s', t' := s, t;
    if !lead {
      SameName(s[0], t[0], top);
      CompareStep(s, x, t, y);
      s', t' := s[1..], t[1..];
    }
  }

  /** After the loop the first levels decide, or the rests do. */
  lemma ReachedEnd(
      s: Path, x: string, t: Path, y: string, lead: bool,
      top1: string, rest1: string, err1: bool, top2: string, rest2: string, err2: bool)
    requires Reached(s, x, t, y, lead, top1, rest1, err1, top2, rest2, err2)
    requires top1 != top2 || err1 || err2
    ensures ValidLevel(s[0], HeadProperty(s, x)) && IsLevel(s[0], HeadProperty(s, x), top1)
    ensures ValidLevel(t[0], HeadProperty(t, y)) && IsLevel(t[0], HeadProperty(t, y), top2)
    ensures var same := Matches(s[0], t[0]) && HeadProperty(s, x) == HeadProperty(t, y);
      CompareWith(s, x, t, y) ==
        if !same then Different
        else if err1 && err2 then Equal else if err1 then Upper else if err2 then Lower
        else CompareWith(s[1..], x, t[1..], y)
    ensures !err1 && !err2 ==> Names(s[1..], x, t[1..], y, rest1, rest2)
  {
    hide Levels, RenderComponent, Matches, ValidComponent;
    CompareStep(s, x, t, y);
  }

  method CompareOSCAddress(address1: string, address2: string) returns (flag: Comparison)
    ensures address1 == address2 ==> flag == Equal
    ensures forall p: Path, x: string, q: Path, y: string | Names(p, x, q, y, address1, address2) ::
      flag == CompareWith(p, x, q, y)
    decreases |address1| + |address2|
  {
    hide Levels, Rooted, RenderComponent, Compare, CompareWith, Names, ValidLevels, ValidLevel;
    hide LevelOf, IsLevel, Matches;
    ghost var named := exists p, x, q, y :: Names(p, x, q, y, address1, address2);
    ghost var p: Path, x, q: Path, y := [], "", [], "";
    if named {
      p, x, q, y :| Names(p, x, q, y, address1, address2);
      NamesOfSpecial(p, x, q, y, address1, address2);
      forall p', x', q', y' | Names(p', x', q', y', address1, address2)
        ensures p' == p && x' == x && q' == q && y' == y
      {
        NamesUnique(p, x, q, y, p', x', q', y', address1, address2);
      }
    }
    if address1 == address2 {
      return Equal;
    } else if address1 == S_SEPARATOR {
      return Upper;
    } else if address2 == S_SEPARATOR {
      return Lower;
    }
    var top1, rest1, err1 := FirstLevelOf(address1);
    var top2, rest2, err2 := FirstLevelOf(address2);
    ghost var s, t, lead := p, q, address1 == Rooted(p, x) && address2 == Rooted(q, y);
    if named {
      ReachedStart(p, x, q, y, address1, address2, top1, rest1, err1, top2, rest2, err2);
    }
    // compare each level until there is a difference
    while top1 == top2 && !err1 && !err2
      invariant |rest1| + |rest2| < |address1| + |address2|
      invariant named ==> Reached(s, x, t, y, lead, top1, rest1, err1, top2, rest2, err2)
      invariant named ==> CompareWith(s, x, t, y) == CompareWith(p, x, q, y)
      invariant (err1 ==> rest1 == "") && (err2 ==> rest2 == "")
      decreases |rest1| + if err1 then 0 else 1
    {
      if named {
        s, t := ReachedNext(s, x, t, y, lead, top1, rest1, rest2);
        lead := false;
      }
      top1, rest1, err1 := FirstLevelOf(rest1);
      top2, rest2, err2 := FirstLevelOf(rest2);
    }
    // what is the difference at this level?
    if named {
      ReachedEnd(s, x, t, y, lead, top1, rest1, err1, top2, rest2, err2);
    }
    var same := CompareLevel(top1, top2);
    if same {
      if err1 && !err2 {
        return Upper;
      } else if !err1 && err2 {
        return Lower;
      } else {
        flag := CompareOSCAddress(rest1, rest2);
        return flag;
      }
    }
    return Different;
  }

  lemma ReachedStart(
      p: Path, x: string, q: Path, y: string, address1: string, address2: string,
      top1: string, rest1: string, err1: bool, top2: string, rest2: string, err2: bool)
    requires Names(p, x, q, y, address1, address2) && p != [] && q != []
    requires address1 == Rooted(p, x) ==> top1 == "/" && rest1 == Levels(p, x) && !err1
    requires address2 == Rooted(q, y) ==> top2 == "/" && rest2 == Levels(q, y) && !err2
    requires address1 == Levels(p, x) ==> LevelOf(p, x, top1, rest1, err1)
    requires address2 == Levels(q, y) ==> LevelOf(q, y, top2, rest2, err2)
    ensures Reached(p, x, q, y, address1 == Rooted(p, x) && address2 == Rooted(q, y),
      top1, rest1, err1, top2, rest2, err2)
  {
    hide Levels, LevelOf, Rooted, ValidLevels;
  }
}
