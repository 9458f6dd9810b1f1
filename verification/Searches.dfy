/** Searching the address tree: TTNode::getChildren (library/source/TTNode.cpp:312-405)
    and Lookup, LookingFor and IsThere (library/source/TTNodeDirectory.cpp:244-410).
    None of them changes the directory.  A result list is a sequence. */
module Searches {
  import opened Address
  import opened NodeDirectory

  // ---- what a pattern selects ----

  /** A whole name or a whole instance "*" stands for any. */
  predicate Fits(pattern: Component, c: Component) {
    && (pattern.name == S_WILDCARD || pattern.name == c.name)
    && (pattern.instance == S_WILDCARD || pattern.instance == c.instance)
  }

  ghost predicate Selects(pattern: Path, q: Path) {
    |pattern| == |q| && forall i | 0 <= i < |q| :: Fits(pattern[i], q[i])
  }

  lemma SelectsByLevel(pattern: Path, q: Path)
    requires pattern != []
    ensures Selects(pattern, q) <==> q != [] && Selects(Parent(pattern), Parent(q)) && Fits(Last(pattern), Last(q))
  {
    if q != [] && |pattern| == |q| && Selects(Parent(pattern), Parent(q)) && Fits(Last(pattern), Last(q)) {
      forall i | 0 <= i < |q| ensures Fits(pattern[i], q[i]) {
        if i < |q| - 1 {
          assert Fits(Parent(pattern)[i], Parent(q)[i]);
        }
      }
    }
  }

  /** Without a wildcard a pattern selects itself only. */
  lemma SelectsPlain(pattern: Path, q: Path)
    requires WildcardFree(pattern)
    ensures Selects(pattern, q) <==> pattern == q
  {
    assert forall c | c in pattern :: c.name != S_WILDCARD && c.instance != S_WILDCARD by {
      assert S_WILDCARD[0] == C_WILDCARD;
    }
    if Selects(pattern, q) {
      forall i | 0 <= i < |q| ensures pattern[i] == q[i] {
        assert pattern[i] in pattern && Fits(pattern[i], q[i]);
      }
    }
  }

  /** Written out: a whole "*" stands for any name or instance. */
  lemma SelectsMeans(pattern: Path, q: Path)
    ensures Selects(pattern, q) <==> |pattern| == |q| && forall i | 0 <= i < |q| ::
      && (pattern[i].name == "*" || pattern[i].name == q[i].name)
      && (pattern[i].instance == "*" || pattern[i].instance == q[i].instance)
  {
    assert Selects(pattern, q) ==> forall i | 0 <= i < |q| :: Fits(pattern[i], q[i]);
  }

  /** To a node's path a pattern compares as equal exactly when it selects the node, and as
      lower or upper exactly when its beginning selects it or it selects an ancestor. */
  lemma CompareIsSelection(pattern: Path, q: Path)
    requires WildcardFree(q)
    ensures Compare(pattern, q) == Equal <==> Selects(pattern, q)
    ensures Compare(pattern, q) == Lower <==> |pattern| > |q| && Selects(pattern[..|q|], q)
    ensures Compare(pattern, q) == Upper <==> |pattern| < |q| && Selects(pattern, q[..|pattern|])
  {
    hide Compare, Selects, MatchesPrefix;
    var n := if |pattern| < |q| then |pattern| else |q|;
    CompareMeaning(pattern, q);
    MatchesIsSelection(pattern, q, n);
    assert pattern[..|pattern|] == pattern && q[..|q|] == q;
    if |pattern| != |q| {
      SelectsMeans(pattern, q);
    }
  }

  lemma MatchesIsSelection(pattern: Path, q: Path, n: nat)
    requires WildcardFree(q) && n == if |pattern| < |q| then |pattern| else |q|
    ensures MatchesPrefix(pattern, q) <==> Selects(pattern[..n], q[..n])
  {
    hide Selects;
    SelectsMeans(pattern[..n], q[..n]);
    forall i | 0 <= i < n
      ensures Matches(pattern[i], q[i]) <==> Fits(pattern[..n][i], q[..n][i])
    {
      assert q[i] in q && "*"[0] == C_WILDCARD;
    }
    if MatchesPrefix(pattern, q) {
      assert forall i | 0 <= i < n :: Matches(pattern[i], q[i]);
    }
  }

  lemma {:induction false} WildcardShows(p: Path)
    requires p != []
    ensures C_WILDCARD in Relative(p) <==> !WildcardFree(p)
  {
    var r := RenderComponent(p[0]);
    assert C_WILDCARD in r <==> C_WILDCARD in p[0].name || C_WILDCARD in p[0].instance;
    if |p| > 1 {
      WildcardShows(p[1..]);
      assert Relative(p) == r + "/" + Relative(p[1..]);
      assert forall c | c in p :: c == p[0] || c in p[1..];
    } else {
      assert forall c | c in p :: c == p[0];
    }
  }

  /** Without a '*' anywhere in the address the path has no wildcard. */
  lemma WildcardInAddress(p: Path, property: string)
    ensures C_WILDCARD in WithProperty(Render(p), property) <==> !WildcardFree(p) || C_WILDCARD in property
    ensures p == [] ==> WildcardFree(p)
  {
    if p != [] {
      WildcardShows(p);
    }
  }

  // ---- lists of nodes ----

  /** A list of nodes, and the paths they are at. */
  ghost predicate Lists(tree: Tree, list: seq<Node>, paths: seq<Path>) {
    && |list| == |paths|
    && forall i | 0 <= i < |paths| :: paths[i] in tree && list[i] == tree[paths[i]]
  }

  ghost predicate Distinct(paths: seq<Path>) {
    forall i, j :: 0 <= i < j < |paths| ==> paths[i] != paths[j]
  }

  /** Exactly the children of the node at p that fit the pattern, each once. */
  ghost predicate ChildrenOf(tree: Tree, p: Path, pattern: Component, paths: seq<Path>) {
    && Distinct(paths)
    && forall q :: q in paths <==> q in tree && q != [] && Parent(q) == p && Fits(pattern, Last(q))
  }

  /** The same among the children of one name. */
  ghost predicate InstancesOf(tree: Tree, p: Path, name: string, instance: string, paths: seq<Path>) {
    && Distinct(paths)
    && forall q :: q in paths <==> (
      && q in tree && q != [] && Parent(q) == p && Last(q).name == name
      && (instance == S_WILDCARD || Last(q).instance == instance))
  }

  /** Written out: how often a path is among the children. */
  lemma ChildrenMean(tree: Tree, p: Path, pattern: Component, paths: seq<Path>, q: Path)
    requires ChildrenOf(tree, p, pattern, paths)
    ensures multiset(paths)[q] ==
      if q in tree && q != [] && q[..|q| - 1] == p
        && (pattern.name == "*" || pattern.name == q[|q| - 1].name)
        && (pattern.instance == "*" || pattern.instance == q[|q| - 1].instance)
      then 1 else 0
  {
    DistinctCount(paths, q);
  }

  lemma ListsMore(tree: Tree, a: seq<Node>, b: seq<Node>, p: seq<Path>, q: seq<Path>)
    requires Lists(tree, a, p) && Lists(tree, b, q)
    ensures Lists(tree, a + b, p + q)
  {
  }

  lemma DistinctMore(p: seq<Path>, q: seq<Path>)
    requires Distinct(p) && Distinct(q) && forall x | x in p :: x !in q
    ensures Distinct(p + q)
  {
    forall i, j | 0 <= i < j < |p + q| ensures (p + q)[i] != (p + q)[j] {
      if i < |p| && |p| <= j {
        assert (p + q)[i] in p && (p + q)[j] in q;
      }
    }
  }

  /** The tables of a node, read as the tree. */
  lemma Entry(directory: Directory, p: Path, name: string, instance: string)
    requires directory.TreeValid() && p in directory.tree
    ensures var t, q := directory.tree[p].children, p + [Component(name, instance)];
      && (Holds(t, name, instance) <==> q in directory.tree)
      && (q in directory.tree ==> t[name][instance] == directory.tree[q])
      && (name in t ==> t[name] != map[])
  {
    hide TreeOk;
    var q := p + [Component(name, instance)];
    directory.CellsGive();
    directory.AtPath(p);
    NodeOkAt(directory.tree, directory.Cells(), p);
    assert Parent(q) == p && Last(q) == Component(name, instance);
    TablesAreTree(directory.tree, directory.Cells(), q);
  }

  // ---- getChildren ----

  /** The instances of one name: all of them, or the one asked for. */
  method GetInstances(directory: Directory, node: Node, key: string, anInstance: string, ghost p: Path)
    returns (list: seq<Node>, ghost paths: seq<Path>)
    requires directory.TreeValid() && p in directory.tree && node == directory.tree[p] && key in node.children
    requires Countable(node.children[key])
    ensures Lists(directory.tree, list, paths) && InstancesOf(directory.tree, p, key, anInstance, paths)
    ensures anInstance == S_WILDCARD ==> list != []
  {
    hide Directory.TreeValid;
    list, paths := [], [];
    var table := node.children[key];
    var hkI := GetKeys(table);
    Entry(directory, p, key, anInstance);
    if anInstance == S_WILDCARD {
      var j := 0;
      while j < |table|
        invariant 0 <= j <= |hkI| && |paths| == j
        invariant forall i | 0 <= i < j :: paths[i] == p + [Component(key, hkI[i])]
        invariant Lists(directory.tree, list, paths)
      {
        Entry(directory, p, key, hkI[j]);
        list := list + [table[hkI[j]]];
        paths := paths + [p + [Component(key, hkI[j])]];
        j := j + 1;
      }
      AllInstances(directory, p, key, hkI, paths);
    } else {
      if anInstance in table {
        list := [table[anInstance]];
        paths := [p + [Component(key, anInstance)]];
      }
      forall q ensures q in paths <==> (
          && q in directory.tree && q != [] && Parent(q) == p && Last(q).name == key && Last(q).instance == anInstance)
      {
        if q != [] && Parent(q) == p && Last(q).name == key && Last(q).instance == anInstance {
          assert q == Parent(q) + [Last(q)];
        }
      }
    }
  }

  lemma AllInstances(directory: Directory, p: Path, key: string, keys: seq<string>, paths: seq<Path>)
    requires directory.TreeValid() && p in directory.tree && key in directory.tree[p].children
    requires Enumerates(keys, directory.tree[p].children[key].Keys)
    requires |paths| == |keys| && forall i | 0 <= i < |keys| :: paths[i] == p + [Component(key, keys[i])]
    ensures InstancesOf(directory.tree, p, key, S_WILDCARD, paths)
  {
    hide Directory.TreeValid;
    forall i, j | 0 <= i < j < |paths| ensures paths[i] != paths[j] {
      assert Last(paths[i]).instance == keys[i] && Last(paths[j]).instance == keys[j];
    }
    forall q ensures q in paths <==> q in directory.tree && q != [] && Parent(q) == p && Last(q).name == key {
      if q in paths {
        var i :| 0 <= i < |paths| && paths[i] == q;
        Entry(directory, p, key, keys[i]);
      }
      if q in directory.tree && q != [] && Parent(q) == p && Last(q).name == key {
        Entry(directory, p, key, Last(q).instance);
        assert q == Parent(q) + [Last(q)];
        var i :| 0 <= i < |keys| && keys[i] == Last(q).instance;
        assert paths[i] == q;
      }
    }
  }

  lemma ChildlessIsLeaf(directory: Directory, p: Path)
    requires directory.TreeValid() && p in directory.tree
    ensures |directory.tree[p].children| == 0 <==> Leaf(directory.tree, p)
  {
    hide TreeOk;
    var t := directory.tree[p].children;
    if |t| == 0 {
      assert t.Keys == {};
      directory.CellsGive();
      assert directory.tree[p] in directory.tree.Values;
      NoTablesNoDescendants(directory.tree, directory.Cells(), p);
    } else {
      assert t.Keys != {};
      var name :| name in t;
      Entry(directory, p, name, "");
      assert t[name].Keys != {};
      var instance :| instance in t[name];
      Entry(directory, p, name, instance);
    }
  }

  /** Below a node, the way down leads through one of its children. */
  lemma ChildOnTheWay(directory: Directory, p: Path, q: Path)
    requires directory.TreeValid() && p in directory.tree && q in directory.tree
    ensures p < q ==> q[..|p| + 1] in directory.tree && Parent(q[..|p| + 1]) == p
  {
    hide TreeOk;
    PrefixesPresent(directory.tree, directory.Cells(), q);
  }

  /** Exactly the children under these names, each once. */
  ghost predicate NamedOf(tree: Tree, p: Path, names: seq<string>, instance: string, paths: seq<Path>) {
    && Distinct(paths)
    && forall q :: q in paths <==> (
      && q in tree && q != [] && Parent(q) == p && Last(q).name in names
      && (instance == S_WILDCARD || Last(q).instance == instance))
  }

  lemma NamedNone(tree: Tree, p: Path, instance: string)
    ensures NamedOf(tree, p, [], instance, [])
  {
  }

  lemma NamedMore(tree: Tree, p: Path, names: seq<string>, name: string, instance: string,
      paths: seq<Path>, more: seq<Path>)
    requires NamedOf(tree, p, names, instance, paths) && InstancesOf(tree, p, name, instance, more) && name !in names
    ensures NamedOf(tree, p, names + [name], instance, paths + more)
  {
    hide Distinct;
    DistinctMore(paths, more);
  }

  lemma NamedAll(directory: Directory, p: Path, names: seq<string>, instance: string, paths: seq<Path>)
    requires directory.TreeValid() && p in directory.tree && Enumerates(names, directory.tree[p].children.Keys)
    requires NamedOf(directory.tree, p, names, instance, paths)
    ensures ChildrenOf(directory.tree, p, Component(S_WILDCARD, instance), paths)
  {
    hide Directory.TreeValid, Distinct;
    forall q | q in directory.tree && q != [] && Parent(q) == p ensures Last(q).name in names {
      Entry(directory, p, Last(q).name, Last(q).instance);
      assert q == Parent(q) + [Last(q)];
    }
  }

  /** The loop over the names. */
  method AllNames(directory: Directory, node: Node, hk: seq<string>, anInstance: string, ghost p: Path)
    returns (list: seq<Node>, ghost paths: seq<Path>)
    requires directory.TreeValid() && p in directory.tree && node == directory.tree[p]
    requires Enumerates(hk, node.children.Keys) && |hk| == |node.children|
    requires forall name | name in node.children :: Countable(node.children[name])
    ensures Lists(directory.tree, list, paths)
    ensures ChildrenOf(directory.tree, p, Component(S_WILDCARD, anInstance), paths)
  {
    hide Directory.TreeValid, Lists, NamedOf, InstancesOf, ChildrenOf, Countable;
    list, paths := [], [];
    ListsNothing(directory.tree);
    NamedNone(directory.tree, p, anInstance);
    var i := 0;
    assert hk[..0] == [];
    while i < |node.children|
      invariant 0 <= i <= |hk|
      invariant Lists(directory.tree, list, paths)
      invariant NamedOf(directory.tree, p, hk[..i], anInstance, paths)
    {
      var some;
      ghost var somePaths;
      some, somePaths := GetInstances(directory, node, hk[i], anInstance, p);
      ListsMore(directory.tree, list, some, paths, somePaths);
      NamedMore(directory.tree, p, hk[..i], hk[i], anInstance, paths, somePaths);
      list, paths := list + some, paths + somePaths;
      assert hk[..i + 1] == hk[..i] + [hk[i]];
      i := i + 1;
    }
    assert hk[..|hk|] == hk;
    NamedAll(directory, p, hk, anInstance, paths);
  }

  lemma ListsNothing(tree: Tree)
    ensures Lists(tree, [], [])
  {
  }

  /** What the three branches of getChildren start from. */
  lemma AboutToList(directory: Directory, p: Path, aName: string)
    requires directory.TreeValid() && p in directory.tree && ListableFor(directory.tree, p, aName)
    ensures var t := directory.tree[p].children;
      && Countable(t) && (|t| == 0 <==> Leaf(directory.tree, p))
      && forall name | name in t && (aName == S_WILDCARD || name == aName) :: Countable(t[name])
    ensures Lists(directory.tree, [], [])
  {
    hide Directory.TreeValid, Leaf;
    ChildlessIsLeaf(directory, p);
    directory.TableSizes(p);
  }

  lemma NoChildren(directory: Directory, p: Path, pattern: Component)
    requires directory.TreeValid() && p in directory.tree
    requires Leaf(directory.tree, p)
      || (pattern.name != S_WILDCARD && pattern.name !in directory.tree[p].children)
    ensures ChildrenOf(directory.tree, p, pattern, [])
  {
    hide Directory.TreeValid;
    forall q | q in directory.tree && q != [] && Parent(q) == p ensures !Fits(pattern, Last(q)) {
      Entry(directory, p, Last(q).name, Last(q).instance);
      assert q == Parent(q) + [Last(q)];
    }
  }

  lemma NamedChildren(directory: Directory, p: Path, aName: string, anInstance: string, paths: seq<Path>)
    requires directory.TreeValid() && p in directory.tree && aName in directory.tree[p].children
    requires aName != S_WILDCARD && InstancesOf(directory.tree, p, aName, anInstance, paths)
    requires anInstance == S_WILDCARD ==> paths != []
    ensures ChildrenOf(directory.tree, p, Component(aName, anInstance), paths)
    ensures paths == [] <==> anInstance != S_WILDCARD && anInstance !in directory.tree[p].children[aName]
  {
    hide Directory.TreeValid, Distinct;
    var q := p + [Component(aName, anInstance)];
    assert Parent(q) == p && Last(q) == Component(aName, anInstance);
    Entry(directory, p, aName, anInstance);
    if paths != [] {
      var r := paths[0];
      assert r in paths && r == Parent(r) + [Last(r)];
    }
    assert anInstance in directory.tree[p].children[aName] ==> q in paths;
  }

  /** getChildren.  It fails on a node without children, and when a name was asked
      for and nothing was found. */
  method GetChildren(directory: Directory, node: Node, aName: string, anInstance: string, ghost p: Path)
    returns (err: bool, returned: seq<Node>, ghost paths: seq<Path>)
    requires directory.TreeValid() && p in directory.tree && node == directory.tree[p]
    requires ListableFor(directory.tree, p, aName)
    ensures Lists(directory.tree, returned, paths)
    ensures ChildrenOf(directory.tree, p, Component(aName, anInstance), paths)
    ensures err <==> Leaf(directory.tree, p) || (aName != S_WILDCARD && returned == [])
  {
    hide Directory.TreeValid, Leaf, ChildrenOf, InstancesOf, ListableFor, Countable;
    returned, paths := [], [];
    AboutToList(directory, p, aName);
    if |node.children| == 0 {
      NoChildren(directory, p, Component(aName, anInstance));
      return true, [], [];
    }
    var hk := GetKeys(node.children);
    if aName == S_WILDCARD {
      returned, paths := AllNames(directory, node, hk, anInstance, p);
      err := false;
    } else if aName in node.children {
      returned, paths := GetInstances(directory, node, aName, anInstance, p);
      err := anInstance != S_WILDCARD && anInstance !in node.children[aName];
      NamedChildren(directory, p, aName, anInstance, paths);
    } else {
      NoChildren(directory, p, Component(aName, anInstance));
      err := true;
    }
  }

  // ---- Lookup ----

  /** Every node's children that fit, one node after the other. */
  method SelectChildren(
      directory: Directory, nodes: seq<Node>, aName: string, anInstance: string, ghost from: seq<Path>)
    returns (selection: seq<Node>, ghost paths: seq<Path>)
    requires directory.TreeValid() && Lists(directory.tree, nodes, from)
    requires forall q | q in from :: ListableFor(directory.tree, q, aName)
    ensures Lists(directory.tree, selection, paths) && (Distinct(from) ==> Distinct(paths))
    ensures forall q :: q in paths <==> (
      q in directory.tree && q != [] && Parent(q) in from && Fits(Component(aName, anInstance), Last(q)))
  {
    hide Directory.TreeValid, Fits;
    selection, paths := [], [];
    var i := 0;
    while i < |nodes|
      invariant 0 <= i <= |nodes|
      invariant Lists(directory.tree, selection, paths) && (Distinct(from) ==> Distinct(paths))
      invariant forall q :: q in paths <==> (
        q in directory.tree && q != [] && Parent(q) in from[..i] && Fits(Component(aName, anInstance), Last(q)))
    {
      var e, children;
      ghost var childPaths;
      e, children, childPaths := GetChildren(directory, nodes[i], aName, anInstance, from[i]);
      ListsMore(directory.tree, selection, children, paths, childPaths);
      assert from[..i + 1] == from[..i] + [from[i]];
      if Distinct(from) {
        assert from[i] !in from[..i];
        DistinctMore(paths, childPaths);
      }
      selection, paths := selection + children, paths + childPaths;
      i := i + 1;
    }
    assert from[..|from|] == from;
  }

  /** An address Lookup can be asked about: canonical, with an optional property. */
  ghost predicate Asks(address: string, p: Path, property: string) {
    ValidPath(p) && C_PROPERTY !in property && address == WithProperty(Render(p), property)
  }

  /** Lookup lists the children of the nodes at this depth: there is a '*' from there on up,
      or in the property of the whole address. */
  ghost predicate Walks(p: Path, property: string, depth: nat) {
    depth < |p| && (!WildcardFree(p[..depth + 1]) || (depth + 1 == |p| && C_WILDCARD in property))
  }

  /** The tables it lists are not too large: those of the nodes selected on the way, or of
      any node when the list was not empty. */
  ghost predicate Walkable(tree: Tree, p: Path, property: string, initial: seq<Node>) {
    && (forall q | q in tree && Walks(p, property, |q|) && Selects(p[..|q|], q) :: ListableFor(tree, q, p[|q|].name))
    && (initial == [] || forall q, name | q in tree :: ListableFor(tree, q, name))
  }

  lemma WalkableAbove(tree: Tree, p: Path, property: string, initial: seq<Node>)
    requires p != [] && Walkable(tree, p, property, initial)
    ensures Walkable(tree, Parent(p), NONE, initial)
  {
    hide ListableFor, Selects, WildcardFree;
    forall q | q in tree && Walks(Parent(p), NONE, |q|) && Selects(Parent(p)[..|q|], q)
      ensures ListableFor(tree, q, Parent(p)[|q|].name)
    {
      assert Parent(p)[..|q|] == p[..|q|] && Parent(p)[..|q| + 1] == p[..|q| + 1];
    }
  }

  lemma SelectedListable(tree: Tree, p: Path, property: string, initial: seq<Node>, q: Path)
    requires p != [] && q in tree && Walkable(tree, p, property, initial)
    requires (!WildcardFree(p) || C_WILDCARD in property)
    requires initial == [] ==> Selects(Parent(p), q)
    ensures ListableFor(tree, q, Last(p).name)
  {
    hide ListableFor, WildcardFree;
    if initial == [] {
      assert |q| == |p| - 1 && p[..|q|] == Parent(p) && p[..|q| + 1] == p;
    }
  }

  /** What a search for the pattern has to find: the nodes it selects, each once; with a
      property that contains a '*' the root is missed. */
  ghost predicate Finds(tree: Tree, p: Path, property: string, paths: seq<Path>) {
    && Distinct(paths)
    && forall q :: q in paths <==> q in tree && Selects(p, q) && (p == [] ==> C_WILDCARD !in property)
  }

  /** Written out: how often a path is found. */
  lemma FindsMeans(tree: Tree, p: Path, property: string, paths: seq<Path>, q: Path)
    requires Finds(tree, p, property, paths)
    ensures multiset(paths)[q] ==
      if q in tree && |p| == |q| && (p == [] ==> '*' !in property)
        && (forall i | 0 <= i < |q| :: (p[i].name == "*" || p[i].name == q[i].name)
                                    && (p[i].instance == "*" || p[i].instance == q[i].instance))
      then 1 else 0
  {
    hide Selects;
    DistinctCount(paths, q);
    SelectsMeans(p, q);
  }

  /** Lookup.  Started with an empty list it finds exactly the nodes the pattern selects,
      each once; only the root is missed when its property contains a '*'. */
  method Lookup(
      directory: Directory, address: string, initial: seq<Node>,
      ghost p: Path, ghost property: string, ghost initialPaths: seq<Path>)
    returns (err: bool, returned: seq<Node>, ghost paths: seq<Path>)
    requires directory.Valid() && Lists(directory.tree, initial, initialPaths)
    requires address == "" || address[0] != C_SEPARATOR || Asks(address, p, property)
    requires Asks(address, p, property) ==> Walkable(directory.tree, p, property, initial)
    ensures Lists(directory.tree, returned, paths)
    ensures address == "" || address[0] != C_SEPARATOR ==> err && returned == initial
    ensures initial == [] && Asks(address, p, property) ==> Finds(directory.tree, p, property, paths)
    ensures initial == [] ==> (err <==> returned == [])
    decreases |address|
  {
    hide Directory.Valid, Render, ValidPath, Split, WildcardFree, Walkable, Finds, Lists;
    if address == "" || address[0] != C_SEPARATOR {
      return true, initial, initialPaths;
    }
    var parent, name, instance, attribute := SplitOSCAddress(address);
    SplitOfRender(p, property);
    if C_WILDCARD in address {
      ghost var above := if p == [] then [] else Parent(p);
      AskAbove(directory.tree, p, property, initial);
      err, returned, paths := Lookup(directory, parent, initial, above, NONE, initialPaths);
      if returned != [] {
        returned, paths := LookBelow(directory, name, instance, initial, returned, p, property, paths);
        err := returned == [] || err;
      } else {
        NothingAbove(directory, p, property, returned, paths);
      }
    } else {
      var bare := if attribute != NONE then Merge(Parts(parent, name, instance, NONE)) else address;
      MergeOfParts(p, NONE);
      FoundByIndex(directory, p, property, initial, initialPaths);
      if bare in directory.mDirectory {
        err, returned, paths := false, initial + [directory.mDirectory[bare]], initialPaths + [p];
      } else {
        err, returned, paths := true, initial, initialPaths;
      }
    }
  }

  /** The question passed on to the upper levels. */
  lemma AskAbove(tree: Tree, p: Path, property: string, initial: seq<Node>)
    requires ValidPath(p) && Walkable(tree, p, property, initial)
    ensures p != [] ==> Asks(Render(Parent(p)), Parent(p), NONE) && Walkable(tree, Parent(p), NONE, initial)
    ensures p != [] ==> |Render(Parent(p))| < |WithProperty(Render(p), property)|
    ensures WithProperty(Render(p), property) != "" && !Asks("", [], NONE)
  {
    hide Render, Walkable;
    if p != [] {
      RenderParentShorter(p);
      WalkableAbove(tree, p, property, initial);
    }
  }

  /** The second part of the wildcard branch: the children that fit, of all nodes found above. */
  method LookBelow(
      directory: Directory, name: string, instance: string, ghost initial: seq<Node>, found: seq<Node>,
      ghost p: Path, ghost property: string, ghost foundPaths: seq<Path>)
    returns (selection: seq<Node>, ghost paths: seq<Path>)
    requires directory.Valid() && Lists(directory.tree, found, foundPaths) && found != []
    requires Walkable(directory.tree, p, property, initial) && C_WILDCARD in WithProperty(Render(p), property)
    requires PartsOf(p, property).name == name && PartsOf(p, property).instance == instance
    requires p == [] ==> initial != []
    requires initial == [] ==> Finds(directory.tree, Parent(p), NONE, foundPaths)
    ensures Lists(directory.tree, selection, paths)
    ensures initial == [] ==> Finds(directory.tree, p, property, paths)
  {
    hide Directory.Valid, Render, WildcardFree, Walkable, Finds, ListableFor, Selects;
    MayList(directory.tree, p, property, initial, foundPaths);
    ValidMeans(directory);
    selection, paths := SelectChildren(directory, found, name, instance, foundPaths);
    if initial == [] {
      FoundBelow(directory, p, property, foundPaths, paths);
    }
  }

  lemma ValidMeans(directory: Directory)
    requires directory.Valid()
    ensures directory.TreeValid()
  {
    hide TreeOk, IndexOk;
  }

  lemma MayList(tree: Tree, p: Path, property: string, initial: seq<Node>, found: seq<Path>)
    requires Walkable(tree, p, property, initial) && C_WILDCARD in WithProperty(Render(p), property)
    requires (p == [] ==> initial != []) && forall q | q in found :: q in tree
    requires initial == [] ==> Finds(tree, Parent(p), NONE, found)
    ensures forall q | q in found :: ListableFor(tree, q, PartsOf(p, property).name)
  {
    hide Render, WildcardFree, ListableFor, Selects;
    WildcardInAddress(p, property);
    forall q | q in found ensures ListableFor(tree, q, PartsOf(p, property).name) {
      if p != [] {
        SelectedListable(tree, p, property, initial, q);
      }
    }
  }

  lemma FoundBelow(directory: Directory, p: Path, property: string, above: seq<Path>, paths: seq<Path>)
    requires directory.TreeValid() && p != [] && Finds(directory.tree, Parent(p), NONE, above)
    requires Distinct(above) ==> Distinct(paths)
    requires forall q :: q in paths <==> (
      q in directory.tree && q != [] && Parent(q) in above && Fits(Component(Last(p).name, Last(p).instance), Last(q)))
    ensures Finds(directory.tree, p, property, paths)
  {
    hide Directory.TreeValid, Distinct, Selects, Fits;
    assert Component(Last(p).name, Last(p).instance) == Last(p);
    forall q | q in directory.tree
      ensures q in paths <==> Selects(p, q)
    {
      SelectsByLevel(p, q);
      if q != [] {
        directory.AtPath(q);
      }
    }
  }

  lemma NothingAbove(directory: Directory, p: Path, property: string, returned: seq<Node>, paths: seq<Path>)
    requires directory.Valid() && Lists(directory.tree, returned, paths) && returned == []
    requires C_WILDCARD in WithProperty(Render(p), property)
    ensures p != [] && Finds(directory.tree, Parent(p), NONE, paths) ==> Finds(directory.tree, p, property, paths)
    ensures p == [] ==> Finds(directory.tree, p, property, paths)
  {
    hide Directory.Valid, Render, Finds, Selects;
    ValidMeans(directory);
    if p == [] {
      WildcardInAddress(p, property);
      NoRoot(directory.tree, property);
    } else if Finds(directory.tree, Parent(p), NONE, paths) {
      FoundBelow(directory, p, property, paths, []);
    }
  }

  lemma NoRoot(tree: Tree, property: string)
    requires C_WILDCARD in property
    ensures Finds(tree, [], property, [])
  {
  }

  /** Without a wildcard the index decides. */
  lemma FoundByIndex(directory: Directory, p: Path, property: string, initial: seq<Node>, initialPaths: seq<Path>)
    requires directory.Valid() && ValidPath(p) && C_WILDCARD !in WithProperty(Render(p), property)
    requires Lists(directory.tree, initial, initialPaths)
    ensures Render(p) in directory.mDirectory ==>
      Lists(directory.tree, initial + [directory.mDirectory[Render(p)]], initialPaths + [p])
    ensures initial == [] ==>
      Finds(directory.tree, p, property, if Render(p) in directory.mDirectory then initialPaths + [p] else initialPaths)
  {
    hide Directory.Valid, Render, WildcardFree, Selects;
    WildcardInAddress(p, property);
    IndexedPath(directory, p);
    forall q ensures Selects(p, q) <==> q == p {
      SelectsPlain(p, q);
    }
  }

  lemma IndexedPath(directory: Directory, p: Path)
    requires directory.Valid() && ValidPath(p)
    ensures Render(p) in directory.mDirectory <==> p in directory.tree
    ensures p in directory.tree ==> directory.mDirectory[Render(p)] == directory.tree[p]
  {
    hide TreeOk, IndexOk, Render;
    TreePaths(directory.tree, directory.Cells());
    IndexedAt(directory.tree, directory.mDirectory, {}, p);
  }

  /** On patterns without a wildcard, selecting is looking the address up in the index. */
  lemma SelectsAsIndexed(directory: Directory, p: Path, q: Path)
    requires directory.Valid() && ValidPath(p) && WildcardFree(p) && q in directory.tree
    ensures Selects(p, q) <==> Render(p) in directory.mDirectory && directory.mDirectory[Render(p)] == directory.tree[q]
  {
    hide TreeOk, IndexOk, Render;
    SelectsPlain(p, q);
    IndexedPath(directory, p);
    directory.AtPath(q);
    if p in directory.tree {
      directory.AtPath(p);
    }
  }

  // ---- LookingFor and IsThere ----

  /** How many of the start nodes a node lies below. */
  ghost function Above(starts: seq<Path>, q: Path): (n: nat)
    ensures starts == [] ==> n == 0
  {
    if starts == [] then 0
    else Above(starts[..|starts| - 1], q) + if starts[|starts| - 1] < q then 1 else 0
  }

  ghost function Below(tree: Tree, starts: seq<Path>): set<Path> {
    set q | q in tree && Above(starts, q) > 0
  }

  /** The tables of the start nodes and of all nodes below them are not too large to list. */
  ghost predicate ListableBelow(tree: Tree, starts: seq<Path>) {
    forall q | q in tree && (q in starts || q in Below(tree, starts)) :: Listable(tree, q)
  }

  lemma AboveNext(starts: seq<Path>, i: nat, q: Path)
    requires i < |starts|
    ensures Above(starts[..i + 1], q) == Above(starts[..i], q) + if starts[i] < q then 1 else 0
  {
    assert starts[..i + 1][..i] == starts[..i];
  }

  /** Lying below some start node is being counted. */
  lemma {:induction false} AbovePositive(starts: seq<Path>, q: Path)
    ensures Above(starts, q) > 0 <==> exists i | 0 <= i < |starts| :: starts[i] < q
  {
    if starts != [] {
      var rest, last := starts[..|starts| - 1], starts[|starts| - 1];
      AbovePositive(rest, q);
      if exists i | 0 <= i < |starts| :: starts[i] < q {
        var i :| 0 <= i < |starts| && starts[i] < q;
        assert last < q || rest[i] < q;
      }
      if Above(rest, q) > 0 {
        var i :| 0 <= i < |rest| && rest[i] < q;
        assert starts[i] < q;
      }
    }
  }

  /** Written out: the number of start nodes it lies below. */
  lemma {:induction false} AboveMeans(starts: seq<Path>, q: Path)
    ensures Above(starts, q) == |set i | 0 <= i < |starts| && starts[i] < q|
  {
    var all := set i | 0 <= i < |starts| && starts[i] < q;
    if starts != [] {
      var n := |starts| - 1;
      var rest := starts[..n];
      AboveMeans(rest, q);
      var before := set i | 0 <= i < |rest| && rest[i] < q;
      assert all == if starts[n] < q then before + {n} else before;
    }
  }

  lemma {:induction false} AboveOnce(starts: seq<Path>, q: Path, c: Path)
    requires Distinct(starts) && c in starts && c < q && forall x | x in starts && x < q :: x == c
    ensures Above(starts, q) == 1
  {
    var rest, last := starts[..|starts| - 1], starts[|starts| - 1];
    if last == c {
      forall i | 0 <= i < |rest| ensures !(rest[i] < q) {
        assert rest[i] in starts && rest[i] != c;
      }
      AbovePositive(rest, q);
    } else {
      assert starts == rest + [last] && last in starts && c in rest;
      assert forall x | x in rest :: x in starts;
      AboveOnce(rest, q, c);
    }
  }

  lemma DistinctCount(paths: seq<Path>, q: Path)
    requires Distinct(paths)
    ensures multiset(paths)[q] == if q in paths then 1 else 0
  {
    if paths != [] {
      var rest, last := paths[..|paths| - 1], paths[|paths| - 1];
      assert paths == rest + [last];
      DistinctCount(rest, q);
    }
  }

  /** Each node below p is one child of p, or lies below exactly one. */
  lemma ChildOrBelow(directory: Directory, p: Path, children: seq<Path>, q: Path)
    requires directory.TreeValid() && p in directory.tree && q in directory.tree
    requires ChildrenOf(directory.tree, p, Component(S_WILDCARD, S_WILDCARD), children)
    ensures multiset(children)[q] + Above(children, q) == if p < q then 1 else 0
  {
    hide Directory.TreeValid;
    DistinctCount(children, q);
    forall c | c in children ensures p < c && |c| == |p| + 1 {
      assert c == Parent(c) + [Last(c)];
    }
    AbovePositive(children, q);
    assert q in children ==> Above(children, q) == 0;
    assert !(p < q) ==> Above(children, q) == 0 && q !in children;
    if p < q && q !in children {
      ChildOnTheWay(directory, p, q);
      var c := q[..|p| + 1];
      assert c in children && c < q;
      AboveOnce(children, q, c);
    }
  }

  /** Where the nodes are that pass the test. */
  ghost function Passing(directory: Directory, test: Node ~> bool): (passing: set<Path>)
    requires forall q | q in directory.tree :: test.requires(directory.tree[q])
    reads directory, set q, o | q in directory.tree && o in test.reads(directory.tree[q]) :: o
    ensures forall q :: q in passing <==> q in directory.tree && test(directory.tree[q])
  {
    set q | q in directory.tree && test(directory.tree[q])
  }

  /** Between two result lists: each passing node came in as often as it is listed. */
  ghost predicate GainedListed(passing: set<Path>, before: seq<Path>, after: seq<Path>, nodes: seq<Path>) {
    && before <= after
    && forall q :: multiset(after)[q] == multiset(before)[q] + if q in passing then multiset(nodes)[q] else 0
  }

  /** Each passing node came in once for every start node above it. */
  ghost predicate GainedBelow(passing: set<Path>, before: seq<Path>, after: seq<Path>, starts: seq<Path>) {
    && before <= after
    && forall q :: multiset(after)[q] == multiset(before)[q] + if q in passing then Above(starts, q) else 0
  }

  lemma GainedNothing(passing: set<Path>, paths: seq<Path>)
    ensures GainedListed(passing, paths, paths, []) && GainedBelow(passing, paths, paths, [])
  {
  }

  /** One start node more: its children, then what is below them. */
  lemma GainedNext(
      directory: Directory, passing: set<Path>, starts: seq<Path>, i: nat, children: seq<Path>,
      initial: seq<Path>, before: seq<Path>, between: seq<Path>, after: seq<Path>)
    requires directory.TreeValid() && i < |starts| && starts[i] in directory.tree && passing <= directory.tree.Keys
    requires ChildrenOf(directory.tree, starts[i], Component(S_WILDCARD, S_WILDCARD), children)
    requires GainedBelow(passing, initial, before, starts[..i])
    requires GainedListed(passing, before, between, children) && GainedBelow(passing, between, after, children)
    ensures GainedBelow(passing, initial, after, starts[..i + 1])
  {
    hide Directory.TreeValid, ChildrenOf, Above;
    forall q ensures multiset(after)[q] ==
      multiset(initial)[q] + if q in passing then Above(starts[..i + 1], q) else 0
    {
      if q in passing {
        AboveNext(starts, i, q);
        ChildOrBelow(directory, starts[i], children, q);
      }
    }
  }

  /** The test applied to each node of a list. */
  method TestEach(
      directory: Directory, nodes: seq<Node>, test: Node ~> bool, initial: seq<Node>,
      ghost nodePaths: seq<Path>, ghost initialPaths: seq<Path>)
    returns (returned: seq<Node>, ghost paths: seq<Path>)
    requires Lists(directory.tree, nodes, nodePaths) && Lists(directory.tree, initial, initialPaths)
    requires forall q | q in directory.tree :: test.requires(directory.tree[q])
    ensures Lists(directory.tree, returned, paths)
    ensures GainedListed(Passing(directory, test), initialPaths, paths, nodePaths)
  {
    returned, paths := initial, initialPaths;
    var i := 0;
    while i < |nodes|
      invariant 0 <= i <= |nodes|
      invariant Lists(directory.tree, returned, paths)
      invariant GainedListed(Passing(directory, test), initialPaths, paths, nodePaths[..i])
    {
      assert nodePaths[..i + 1] == nodePaths[..i] + [nodePaths[i]];
      if test(nodes[i]) {
        returned, paths := returned + [nodes[i]], paths + [nodePaths[i]];
      }
      i := i + 1;
    }
    assert nodePaths[..|nodes|] == nodePaths;
  }

  /** The descendants of the children are fewer than those of the start nodes. */
  lemma BelowShrinks(tree: Tree, starts: seq<Path>, i: nat, children: seq<Path>)
    requires i < |starts| && starts[i] in tree && children != []
    requires ChildrenOf(tree, starts[i], Component(S_WILDCARD, S_WILDCARD), children)
    ensures Below(tree, children) < Below(tree, starts)
    ensures ListableBelow(tree, starts) ==> ListableBelow(tree, children)
  {
    forall c | c in children ensures starts[i] < c && |c| == |starts[i]| + 1 {
      assert c == Parent(c) + [Last(c)];
    }
    forall q | q in tree ensures Above(children, q) > 0 ==> Above(starts, q) > 0 {
      AbovePositive(children, q);
      AbovePositive(starts, q);
    }
    var c := children[0];
    AbovePositive(children, c);
    AbovePositive(starts, c);
    assert c in Below(tree, starts) && c !in Below(tree, children);
    forall q | q in children ensures q in Below(tree, starts) {
      AbovePositive(starts, q);
    }
  }

  /** Written out: how often a path was added. */
  lemma GainedMeans(passing: set<Path>, before: seq<Path>, after: seq<Path>, starts: seq<Path>, q: Path)
    requires GainedBelow(passing, before, after, starts)
    ensures before <= after && multiset(after)[q] ==
      multiset(before)[q] + if q in passing then |set i | 0 <= i < |starts| && starts[i] < q| else 0
  {
    hide Above;
    AboveMeans(starts, q);
  }

  /** LookingFor: appends every node strictly below a start node that passes the test,
      once for each start node above it. */
  method LookingFor(
      directory: Directory, whereToSearch: seq<Node>, test: Node ~> bool, initial: seq<Node>,
      ghost starts: seq<Path>, ghost initialPaths: seq<Path>)
    returns (err: bool, returned: seq<Node>, ghost paths: seq<Path>)
    requires directory.TreeValid()
    requires Lists(directory.tree, whereToSearch, starts) && Lists(directory.tree, initial, initialPaths)
    requires ListableBelow(directory.tree, starts)
    requires forall q | q in directory.tree :: test.requires(directory.tree[q])
    ensures err <==> whereToSearch == []
    ensures Lists(directory.tree, returned, paths)
    ensures GainedBelow(Passing(directory, test), initialPaths, paths, starts)
    decreases Below(directory.tree, starts), 1
  {
    hide Directory.TreeValid, Above, Passing, GainedBelow, Below, ListableBelow;
    returned, paths := initial, initialPaths;
    GainedNothing(Passing(directory, test), paths);
    if whereToSearch == [] {
      return true, returned, paths;
    }
    var i := 0;
    assert starts[..0] == [];
    while i < |whereToSearch|
      invariant 0 <= i <= |whereToSearch|
      invariant Lists(directory.tree, returned, paths)
      invariant GainedBelow(Passing(directory, test), initialPaths, paths, starts[..i])
    {
      err, returned, paths := LookingUnder(
        directory, whereToSearch[i], test, returned, starts, i, initialPaths, paths);
      if err {
        return;
      }
      i := i + 1;
    }
    assert starts[..|starts|] == starts;
    err := false;
  }

  /** One start node: its children tested, and the search continued below them. */
  method LookingUnder(
      directory: Directory, node: Node, test: Node ~> bool, initial: seq<Node>,
      ghost starts: seq<Path>, ghost i: nat, ghost start: seq<Path>, ghost initialPaths: seq<Path>)
    returns (err: bool, returned: seq<Node>, ghost paths: seq<Path>)
    requires directory.TreeValid() && Lists(directory.tree, initial, initialPaths)
    requires i < |starts| && starts[i] in directory.tree && node == directory.tree[starts[i]]
    requires ListableBelow(directory.tree, starts)
    requires forall q | q in directory.tree :: test.requires(directory.tree[q])
    requires GainedBelow(Passing(directory, test), start, initialPaths, starts[..i])
    ensures !err && Lists(directory.tree, returned, paths)
    ensures GainedBelow(Passing(directory, test), start, paths, starts[..i + 1])
    decreases Below(directory.tree, starts), 0
  {
    hide Directory.TreeValid, ChildrenOf, Above, Passing, GainedBelow, GainedListed, Below, ListableBelow, Lists;
    ListableStart(directory.tree, starts, i);
    var e, children;
    ghost var childPaths;
    e, children, childPaths := GetChildren(directory, node, S_WILDCARD, S_WILDCARD, starts[i]);
    ghost var passing := Passing(directory, test);
    returned, paths := initial, initialPaths;
    err := false;
    ListsEmpty(directory.tree, children, childPaths);
    if children != [] {
      BelowShrinks(directory.tree, starts, i, childPaths);
      returned, paths := TestEach(directory, children, test, returned, childPaths, paths);
      ghost var between := paths;
      err, returned, paths := LookingFor(directory, children, test, returned, childPaths, paths);
      GainedNext(directory, passing, starts, i, childPaths, start, initialPaths, between, paths);
    } else {
      GainedNothing(passing, paths);
      GainedNext(directory, passing, starts, i, childPaths, start, initialPaths, paths, paths);
    }
  }

  lemma ListableStart(tree: Tree, starts: seq<Path>, i: nat)
    requires ListableBelow(tree, starts) && i < |starts| && starts[i] in tree
    ensures ListableFor(tree, starts[i], S_WILDCARD)
  {
    assert Listable(tree, starts[i]);
  }

  lemma ListsEmpty(tree: Tree, list: seq<Node>, paths: seq<Path>)
    requires Lists(tree, list, paths)
    ensures list == [] <==> paths == []
  {
  }

  /** The loop of IsThere over one list of children, up to the first that passes. */
  method TestUntil(
      directory: Directory, nodes: seq<Node>, test: Node ~> bool, ghost nodePaths: seq<Path>)
    returns (isThere: bool, first: Node?)
    requires Lists(directory.tree, nodes, nodePaths)
    requires forall q | q in directory.tree :: test.requires(directory.tree[q])
    ensures isThere ==> exists q | q in nodePaths && q in Passing(directory, test) :: first == directory.tree[q]
    ensures !isThere ==> forall q | q in nodePaths :: q !in Passing(directory, test)
  {
    isThere, first := false, null;
    var i := 0;
    while i < |nodes|
      invariant 0 <= i <= |nodes| && !isThere
      invariant forall k | 0 <= k < i :: !test(directory.tree[nodePaths[k]])
    {
      if test(nodes[i]) {
        assert nodePaths[i] in nodePaths;
        return true, nodes[i];
      }
      i := i + 1;
    }
  }

  /** What lies below some of the start nodes: the children of the last, what is
      below them, and what lies below the others. */
  lemma BelowNext(directory: Directory, starts: seq<Path>, i: nat, children: seq<Path>)
    requires directory.TreeValid() && i < |starts| && starts[i] in directory.tree
    requires ChildrenOf(directory.tree, starts[i], Component(S_WILDCARD, S_WILDCARD), children)
    ensures forall q | q in directory.tree :: q in Below(directory.tree, starts[..i + 1]) <==>
      q in Below(directory.tree, starts[..i]) || q in children || q in Below(directory.tree, children)
    ensures forall q | q in Below(directory.tree, starts[..i + 1]) :: q in Below(directory.tree, starts)
  {
    hide Directory.TreeValid, Above;
    forall q | q in directory.tree
      ensures Above(starts[..i + 1], q) == Above(starts[..i], q) + multiset(children)[q] + Above(children, q)
      ensures Above(starts[..i + 1], q) > 0 ==> Above(starts, q) > 0
    {
      AboveNext(starts, i, q);
      ChildOrBelow(directory, starts[i], children, q);
      AbovePositive(starts, q);
      AbovePositive(starts[..i + 1], q);
    }
  }

  /** IsThere: whether a node strictly below a start node passes the test, and one that does. */
  method IsThere(
      directory: Directory, whereToSearch: seq<Node>, test: Node ~> bool, isThere0: bool, first0: Node?,
      ghost starts: seq<Path>)
    returns (err: bool, isThere: bool, first: Node?)
    requires directory.TreeValid() && Lists(directory.tree, whereToSearch, starts)
    requires ListableBelow(directory.tree, starts)
    requires forall q | q in directory.tree :: test.requires(directory.tree[q])
    ensures err <==> whereToSearch == []
    ensures err ==> isThere == isThere0
    ensures !err ==> (isThere <==> Passing(directory, test) * Below(directory.tree, starts) != {})
    ensures !err && isThere ==>
      exists q | q in Passing(directory, test) * Below(directory.tree, starts) :: first == directory.tree[q]
    ensures err || !isThere ==> first == first0
    decreases Below(directory.tree, starts), 1
  {
    hide Directory.TreeValid, Above, Below, Passing, ListableBelow;
    isThere, first := isThere0, first0;
    NothingBelow(directory.tree);
    assert starts[..0] == [];
    if whereToSearch == [] {
      return true, isThere, first;
    }
    var i := 0;
    while i < |whereToSearch|
      invariant 0 <= i <= |whereToSearch| && first == first0
      invariant i > 0 ==> !isThere
      invariant Passing(directory, test) * Below(directory.tree, starts[..i]) == {}
    {
      err, isThere, first := IsUnder(directory, whereToSearch[i], test, first, starts, i);
      if err || isThere {
        return;
      }
      i := i + 1;
    }
    assert starts[..|starts|] == starts;
    err := false;
  }

  /** One start node: its children up to the first that passes, then what is below them. */
  method IsUnder(
      directory: Directory, node: Node, test: Node ~> bool, first0: Node?, ghost starts: seq<Path>, ghost i: nat)
    returns (err: bool, isThere: bool, first: Node?)
    requires directory.TreeValid() && i < |starts| && starts[i] in directory.tree
    requires node == directory.tree[starts[i]] && ListableBelow(directory.tree, starts)
    requires forall q | q in directory.tree :: test.requires(directory.tree[q])
    requires Passing(directory, test) * Below(directory.tree, starts[..i]) == {}
    ensures !err && (isThere ==> Passing(directory, test) * Below(directory.tree, starts) != {})
    ensures !isThere ==> first == first0 && Passing(directory, test) * Below(directory.tree, starts[..i + 1]) == {}
    ensures isThere ==>
      exists q | q in Passing(directory, test) * Below(directory.tree, starts) :: first == directory.tree[q]
    decreases Below(directory.tree, starts), 0
  {
    hide Directory.TreeValid, ChildrenOf, Above, Below, Passing, ListableBelow, Lists, Leaf;
    ListableStart(directory.tree, starts, i);
    var e, children;
    ghost var childPaths;
    e, children, childPaths := GetChildren(directory, node, S_WILDCARD, S_WILDCARD, starts[i]);
    BelowNext(directory, starts, i, childPaths);
    SomeChild(directory, starts[i], childPaths);
    ListsEmpty(directory.tree, children, childPaths);
    NothingBelow(directory.tree);
    err, isThere, first := false, false, first0;
    if !e {
      BelowShrinks(directory.tree, starts, i, childPaths);
      var passing;
      isThere, passing := TestUntil(directory, children, test, childPaths);
      if isThere {
        ghost var q :| q in childPaths && q in Passing(directory, test) && passing == directory.tree[q];
        assert q in Passing(directory, test) * Below(directory.tree, starts);
        first := passing;
      } else {
        err, isThere, first := IsThere(directory, children, test, isThere, first, childPaths);
        if isThere {
          ghost var q :|
            q in Passing(directory, test) * Below(directory.tree, childPaths) && first == directory.tree[q];
          assert q in Passing(directory, test) * Below(directory.tree, starts);
        }
      }
    }
  }

  /** IsThere says yes exactly when LookingFor, started with an empty list, finds something. */
  lemma IsThereAsLookingFor(tree: Tree, passing: set<Path>, found: seq<Path>, starts: seq<Path>)
    requires passing <= tree.Keys && GainedBelow(passing, [], found, starts)
    ensures passing * Below(tree, starts) != {} <==> found != []
  {
    if found != [] {
      var q := found[0];
      assert multiset(found)[q] > 0;
      assert q in passing * Below(tree, starts);
    }
    if passing * Below(tree, starts) != {} {
      var q :| q in passing * Below(tree, starts);
      assert multiset(found)[q] > 0;
    }
  }

  lemma NothingBelow(tree: Tree)
    ensures Below(tree, []) == {}
  {
  }

  lemma SomeChild(directory: Directory, p: Path, children: seq<Path>)
    requires directory.TreeValid() && p in directory.tree
    requires ChildrenOf(directory.tree, p, Component(S_WILDCARD, S_WILDCARD), children)
    ensures children != [] <==> !Leaf(directory.tree, p)
  {
    hide Directory.TreeValid;
    if children != [] {
      var c := children[0];
      assert c in children && c == Parent(c) + [Last(c)];
    }
    if !Leaf(directory.tree, p) {
      var q :| q in directory.tree && p < q;
      ChildOnTheWay(directory, p, q);
      assert q[..|p| + 1] in children;
    }
  }
}
