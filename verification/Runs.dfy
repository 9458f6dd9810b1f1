/** Whole runs of a directory: any mixture of TTNodeCreate, TTNodeRemove and, on nodes
    without children, setName and setInstance (library/source/TTNodeDirectory.cpp:99-242,
    library/source/TTNode.cpp:122-273). */
module Runs {
  import opened Text
  import opened Address
  import opened NodeDirectory
  import opened Searches

  datatype Operation =
    | Create(path: Path, kind: string)
    | Remove(address: string)
    | Rename(address: string, name: string)
    | ChangeInstance(address: string, instance: string)

  /** Canonical addresses and components; any string may be removed or looked for. */
  predicate Proper(op: Operation) {
    match op
    case Create(path, _) => path != [] && ValidPath(path)
    case Remove(_) => true
    case Rename(_, name) => name != "" && PlainText(name)
    case ChangeInstance(_, instance) => PlainText(instance)
  }

  /** The most nodes a run can have created, the root included. */
  function Nodes(ops: seq<Operation>): nat {
    if ops == [] then 1
    else Nodes(ops[..|ops| - 1]) + Cost(ops[|ops| - 1])
  }

  function Cost(op: Operation): nat {
    if op.Create? then |op.path| else 0
  }

  /** What one operation makes of the tree. */
  ghost predicate Step(before: Tree, op: Operation, after: Tree) {
    match op
    case Create(path, _) => exists q :: Created(before, after, path, q)
    case Remove(address) => Removed(before, address, after)
    case _ => Changed(before, op.address, op, after)
  }

  /** The node at the address is gone with all below it; the root and unknown addresses stay. */
  ghost predicate Removed(before: Tree, address: string, after: Tree) {
    && (forall p | p in before && p != [] && Render(p) == address :: after == Pruned(before, p))
    && ((forall p | p in before && p != [] :: Render(p) != address) ==> after == before)
  }

  /** The childless node at the address went to the component wished for it, or to a generated
      instance of its name; at any other address nothing changed. */
  ghost predicate Changed(before: Tree, address: string, op: Operation, after: Tree) {
    && (forall p | LeafAt(before, address, p) :: exists p', created ::
        Renamed(before, p, Wished(op, Last(p)), p', created) && Movable(before, p, p') && after == Moved(before, p, p'))
    && ((forall p :: !LeafAt(before, address, p)) ==> after == before)
  }

  ghost predicate LeafAt(tree: Tree, address: string, p: Path) {
    p in tree && p != [] && Render(p) == address && Leaf(tree, p)
  }

  function Wished(op: Operation, last: Component): Component {
    match op
    case Rename(_, name) => Component(name, last.instance)
    case ChangeInstance(_, instance) => Component(last.name, instance)
    case _ => last
  }

  // ---- sizes ----

  lemma {:induction false} ImageSize<A, B>(a: set<A>, f: A -> B, b: set<B>)
    requires forall y | y in b :: exists x | x in a :: f(x) == y
    ensures |b| <= |a|
    decreases |b|
  {
    if b != {} {
      var y :| y in b;
      var x :| x in a && f(x) == y;
      forall z | z in b - {y} ensures exists w | w in a - {x} :: f(w) == z {
        var w :| w in a && f(w) == z;
        assert w in a - {x};
      }
      ImageSize(a - {x}, f, b - {y});
    }
  }

  /** No node has more entries in a table than there are nodes. */
  lemma TablesWithin(tree: Tree, p: Path, name: string)
    ensures |Used(tree, p, name)| <= |tree.Keys| && |NamesUsed(tree, p)| <= |tree.Keys|
  {
    ImageSize(tree.Keys, (q: Path) => if q == [] then "" else Last(q).instance, Used(tree, p, name));
    ImageSize(tree.Keys, (q: Path) => if q == [] then "" else Last(q).name, NamesUsed(tree, p));
  }

  /** Below the limit of a TTValue every table can be listed, and numerals do not run out. */
  lemma SmallTree(tree: Tree, p: Path)
    requires |tree.Keys| < MAX_VALUES
    ensures AllListable(tree, p)
    ensures forall name :: Room(Used(tree, p, name))
  {
    hide Used, NamesUsed, Room;
    forall q ensures Listable(tree, q) {
      TablesWithin(tree, q, "");
      forall name ensures |Used(tree, q, name)| < MAX_VALUES {
        TablesWithin(tree, q, name);
      }
    }
    forall name ensures Room(Used(tree, p, name)) {
      TablesWithin(tree, p, name);
      RoomBelowLimit(Used(tree, p, name));
    }
  }

  lemma FewerNodes(tree: Tree, tree': Tree)
    requires tree'.Keys <= tree.Keys
    ensures |tree'.Keys| <= |tree.Keys|
  {
    SubsetSize(tree'.Keys, tree.Keys);
  }

  lemma {:induction false} PrefixesSize(p: Path)
    ensures |Prefixes(p) - {[]}| <= |p|
  {
    if p == [] {
      assert Prefixes(p) - {[]} == {};
    } else {
      var init := Parent(p);
      PrefixesSize(init);
      assert forall i | 0 <= i < |p| :: p[..i] == init[..i];
      assert Prefixes(p) - {[]} <= (Prefixes(init) - {[]}) + {p} by {
        assert p[..|p|] == p;
      }
      SubsetSize(Prefixes(p) - {[]}, (Prefixes(init) - {[]}) + {p});
    }
  }

  lemma CreatedSize(before: Tree, after: Tree, p: Path, q: Path)
    requires Created(before, after, p, q) && [] in before && p != []
    ensures |after.Keys| <= |before.Keys| + |p|
  {
    PrefixesSize(p);
    var added := if p in before then {q} else Prefixes(p) - {[]};
    assert after.Keys == before.Keys + added;
  }

  lemma IndexSize(tree: Tree, index: map<string, Node>)
    requires IndexOk(tree, index, {})
    ensures |index| <= |tree.Keys|
  {
    hide Render;
    ImageSize(tree.Keys, (q: Path) => Render(q), index.Keys);
  }

  lemma MovedSize(tree: Tree, p: Path, p': Path)
    requires Movable(tree, p, p') && [] in tree
    ensures |Moved(tree, p, p').Keys| <= |tree.Keys| && [] in Moved(tree, p, p')
    ensures Moved(tree, p, p').Values == tree.Values
  {
    hide Move, Moved;
    MovedIs(tree, p, p');
    MoveSteps([], p, p');
    MovedAt(tree, p, p', []);
    ImageSize(tree.Keys, (q: Path) => Move(q, p, p'), Moved(tree, p, p').Keys);
  }

  // ---- runs ----

  /** What a run keeps: agreement, the root, no observers, no more nodes than n. */
  ghost predicate Running(directory: Directory, n: nat)
    reads directory, directory.tree.Values
  {
    && directory.Valid() && [] in directory.tree && directory.mObservers == map[]
    && |directory.tree.Keys| <= n
  }

  /** A fresh directory over every run that creates fewer nodes than a TTValue can list: each
      operation does to the tree what it is for, and tree and hash agree at the end. */
  method RunAll(ops: seq<Operation>) returns (directory: Directory, ghost trees: seq<Tree>)
    requires Nodes(ops) < MAX_VALUES && forall op | op in ops :: Proper(op)
    ensures directory.Valid()
    ensures |trees| == |ops| + 1 && trees[0].Keys == {[]} && trees[|ops|] == directory.tree
    ensures forall i | 0 <= i < |ops| :: Step(trees[i], ops[i], trees[i + 1])
  {
    hide Directory.Valid, Proper, Step;
    directory := new Directory();
    trees := [directory.tree];
    assert ops[..0] == [];
    var i := 0;
    while i < |ops|
      invariant 0 <= i <= |ops| && |trees| == i + 1 && fresh(directory) && fresh(directory.tree.Values)
      invariant Running(directory, Nodes(ops[..i]))
      invariant trees[0].Keys == {[]} && trees[i] == directory.tree
      invariant forall j | 0 <= j < i :: Step(trees[j], ops[j], trees[j + 1])
    {
      assert ops[i] in ops;
      NodesNext(ops, i);
      Perform(directory, ops[i], Nodes(ops[..i]));
      trees := trees + [directory.tree];
      i := i + 1;
    }
    assert ops[..|ops|] == ops;
  }

  lemma {:induction false} NodesNext(ops: seq<Operation>, i: nat)
    requires i < |ops|
    ensures Nodes(ops[..i + 1]) == Nodes(ops[..i]) + Cost(ops[i])
    ensures Nodes(ops[..i + 1]) <= Nodes(ops)
    decreases |ops| - i
  {
    assert ops[..i + 1][..i] == ops[..i];
    if i + 1 == |ops| {
      assert ops[..i + 1] == ops;
    } else {
      NodesNext(ops, i + 1);
    }
  }

  method Perform(directory: Directory, op: Operation, ghost n: nat)
    requires Running(directory, n) && n + Cost(op) < MAX_VALUES && Proper(op)
    modifies directory, directory.tree.Values
    ensures Running(directory, n + Cost(op)) && Step(old(directory.tree), op, directory.tree)
    ensures fresh(directory.tree.Values - old(directory.tree.Values))
  {
    hide Running, Changed, Created, Removed;
    match op
    case Create(path, kind) => PerformCreate(directory, path, kind, n);
    case Remove(address) => PerformRemove(directory, address, n);
    case Rename(address, name) => PerformChange(directory, op, n);
    case ChangeInstance(address, instance) => PerformChange(directory, op, n);
  }

  method PerformCreate(directory: Directory, path: Path, kind: string, ghost n: nat)
    requires Running(directory, n) && n + |path| < MAX_VALUES && path != [] && ValidPath(path)
    modifies directory, directory.tree.Values
    ensures Running(directory, n + |path|) && exists q :: Created(old(directory.tree), directory.tree, path, q)
    ensures fresh(directory.tree.Values - old(directory.tree.Values))
  {
    hide Directory.Valid, Render, Created;
    SmallTree(directory.tree, Parent(path));
    var err, node, created := directory.TTNodeCreate(Render(path), kind, null, null, path);
    CreatedSize(old(directory.tree), directory.tree, path, node.path);
    CreatedGrows(old(directory.tree), directory.tree, path, node.path);
  }

  lemma CreatedGrows(before: Tree, after: Tree, p: Path, q: Path)
    requires Created(before, after, p, q)
    ensures before.Keys <= after.Keys
  {
  }

  method PerformRemove(directory: Directory, address: string, ghost n: nat)
    requires Running(directory, n) && n < MAX_VALUES
    modifies directory, directory.tree.Values
    ensures Running(directory, n) && Removed(old(directory.tree), address, directory.tree)
    ensures directory.tree.Values <= old(directory.tree.Values)
  {
    hide TreeOk, IndexOk, Render, Pruned, AllListable;
    ghost var before := directory.tree;
    if address in directory.mDirectory {
      SmallTree(before, directory.mDirectory[address].path);
    }
    NodeAt(directory, address);
    var err;
    ghost var removed;
    err, removed := directory.TTNodeRemove(address);
    if !err {
      RenderRoot();
      PrunedSize(before, removed);
    }
  }

  lemma PrunedSize(tree: Tree, p: Path)
    requires p != [] && [] in tree
    ensures [] in Pruned(tree, p) && |Pruned(tree, p).Keys| <= |tree.Keys| && Pruned(tree, p).Values <= tree.Values
  {
    FewerNodes(tree, Pruned(tree, p));
  }

  /** An address is in the index exactly when a node has it, and then one path has it. */
  lemma NodeAt(directory: Directory, address: string)
    requires directory.Valid()
    ensures forall p | p in directory.tree :: ValidPath(p) && (Render(p) == address ==>
      address in directory.mDirectory && directory.mDirectory[address] == directory.tree[p]
      && directory.tree[p].path == p && (p == [] <==> address == S_SEPARATOR))
    ensures forall p, q | p in directory.tree && q in directory.tree && Render(p) == Render(q) :: p == q
    ensures address in directory.mDirectory ==> exists p | p in directory.tree :: Render(p) == address
  {
    hide TreeOk, IndexOk, Render, ValidPath;
    forall p | p in directory.tree
      ensures ValidPath(p) && (Render(p) == address ==>
        address in directory.mDirectory && directory.mDirectory[address] == directory.tree[p]
        && directory.tree[p].path == p && (p == [] <==> address == S_SEPARATOR))
    {
      directory.AtPath(p);
      IndexedPath(directory, p);
      RenderIsRootOnly(p);
    }
    forall p, q | p in directory.tree && q in directory.tree && Render(p) == Render(q) ensures p == q {
      RenderInjective(p, q);
    }
    if address in directory.mDirectory {
      FoundInIndex(directory.tree, directory.mDirectory, {}, address);
    }
  }

  /** setName or setInstance on the node at an address, if it is not the root and has no children. */
  method PerformChange(directory: Directory, op: Operation, ghost n: nat)
    requires Running(directory, n) && n < MAX_VALUES && Proper(op) && (op.Rename? || op.ChangeInstance?)
    modifies directory, directory.tree.Values
    ensures Running(directory, n) && Changed(old(directory.tree), op.address, op, directory.tree)
    ensures directory.tree.Values == old(directory.tree.Values)
  {
    hide Directory.Valid, Render, Leaf, Movable, Moved, Renamed, LeafAt;
    NodeAt(directory, op.address);
    ghost var tree := directory.tree;
    if op.address in directory.mDirectory && op.address != S_SEPARATOR {
      var node := directory.mDirectory[op.address];
      ghost var p := node.path;
      AtLeaf(directory, op.address);
      if |node.children| == 0 {
        ghost var created := ChangeNode(directory, node, op, n);
        ChangedLeaf(tree, op.address, op, p, node.path, created);
      }
    } else {
      NotALeaf(directory, op.address);
    }
  }

  /** The node found is the one childless candidate, or there is none. */
  lemma AtLeaf(directory: Directory, address: string)
    requires directory.Valid() && address in directory.mDirectory && address != S_SEPARATOR
    ensures var node := directory.mDirectory[address];
      && node.Live() && node.directory == directory && node.path != [] && Render(node.path) == address
      && (forall p :: LeafAt(directory.tree, address, p) <==> p == node.path && |node.children| == 0)
  {
    hide TreeOk, IndexOk, Render, Leaf;
    NodeAt(directory, address);
    directory.ToRemove(address, {});
    ChildlessIsLeaf(directory, directory.mDirectory[address].path);
  }

  lemma NotALeaf(directory: Directory, address: string)
    requires directory.Valid() && (address !in directory.mDirectory || address == S_SEPARATOR)
    ensures forall p :: !LeafAt(directory.tree, address, p)
  {
    hide TreeOk, IndexOk, Render, Leaf;
    NodeAt(directory, address);
  }

  lemma ChangedLeaf(tree: Tree, address: string, op: Operation, p: Path, p': Path, created: bool)
    requires p != [] && LeafAt(tree, address, p)
    requires Renamed(tree, p, Wished(op, Last(p)), p', created) && Movable(tree, p, p')
    requires forall q :: LeafAt(tree, address, q) ==> q == p
    ensures Changed(tree, address, op, Moved(tree, p, p'))
  {
    hide Renamed, Movable, Moved, Wished;
  }

  method ChangeNode(directory: Directory, node: Node, op: Operation, ghost n: nat) returns (ghost created: bool)
    requires Running(directory, n) && n < MAX_VALUES && Proper(op) && (op.Rename? || op.ChangeInstance?)
    requires node.directory == directory && node.Live() && node.path != [] && |node.children| == 0
    modifies directory, directory.tree.Values
    ensures Running(directory, n) && directory.tree.Values == old(directory.tree.Values)
    ensures Renamed(old(directory.tree), old(node.path), Wished(op, Last(old(node.path))), node.path, created)
    ensures Movable(old(directory.tree), old(node.path), node.path)
    ensures directory.tree == Moved(old(directory.tree), old(node.path), node.path)
  {
    hide Directory.Valid, Directory.TreeValid, Render, Leaf, Movable, Moved, Renamed, Room, Countable;
    hide Used, Generated, Rekeyed, Sibling;
    ghost var tree, p := directory.tree, node.path;
    MayChange(directory, node);
    if op.Rename? {
      var newInstance, newInstanceCreated := node.SetName(op.name);
      created := newInstanceCreated;
    } else {
      var newInstance, newInstanceCreated := node.SetInstance(op.instance);
      created := newInstanceCreated;
    }
    MovedSize(tree, p, node.path);
  }

  lemma MayChange(directory: Directory, node: Node)
    requires directory.Valid() && |directory.tree.Keys| < MAX_VALUES
    requires node.directory == directory && node.Live() && node.path != [] && |node.children| == 0
    ensures Component(node.name, node.instance) == Last(node.path) && Countable(directory.mDirectory)
    ensures Leaf(directory.tree, node.path)
    ensures forall name :: Room(Used(directory.tree - {node.path}, Parent(node.path), name))
  {
    hide TreeOk, IndexOk, Leaf, Room, Used;
    FewerNodes(directory.tree, directory.tree - {node.path});
    SmallTree(directory.tree - {node.path}, Parent(node.path));
    IndexSize(directory.tree, directory.mDirectory);
    ChildlessIsLeaf(directory, node.path);
    directory.AtPath(node.path);
  }

  // ---- renaming a node that has children ----

  /** With /a/b in a directory, renaming /a to c breaks the agreement: the key /a/b stays,
      though its node is at /c/b now, and no key /c/b comes. */
  method RenamingAParentFails() returns (directory: Directory)
    ensures directory.TreeValid() && !directory.Valid()
    ensures "/c" in directory.mDirectory && "/a/b" in directory.mDirectory && "/c/b" !in directory.mDirectory
    ensures [Component("c", ""), Component("b", "")] in directory.tree
  {
    hide Directory.Valid, Directory.TreeValid, Render, Created, Moved, Movable, Renamed, Room, Countable, Leaf, Rekeyed;
    ghost var pb := [Component("a", ""), Component("b", "")];
    directory := new Directory();
    ExampleAddresses();
    ghost var start := directory.tree;
    NoObserverKeys();
    assert pb !in directory.tree;
    var err, b, created := directory.TTNodeCreate("/a/b", "container", null, null, pb);
    ExampleCreated(directory, start, b.path);
    var a := directory.mDirectory["/a"];
    ghost var tree, index := directory.tree, directory.mDirectory;
    var newInstance, renamed := a.SetName("c");
    ExampleRenamed(tree, index, a.path, renamed, a);
  }

  lemma NoObserverKeys()
    ensures Countable<seq<Observer>>(map[])
    ensures ValidPath([Component("a", ""), Component("b", "")])
  {
  }

  /** After the creation: the root, /a and /a/b. */
  lemma ExampleCreated(directory: Directory, start: Tree, q: Path)
    requires directory.Valid() && start.Keys == {[]}
    requires Created(start, directory.tree, [Component("a", ""), Component("b", "")], q)
    ensures var pa, pb, index := [Component("a", "")], [Component("a", ""), Component("b", "")], directory.mDirectory;
      && directory.tree.Keys == {[], pa, pb} && !Leaf(directory.tree, pa)
      && "/a" in index && "/a/b" in index && index["/a/b"] != index["/a"] && "/c/b" !in index && Countable(index)
      && index["/a"] == directory.tree[pa] && index["/a"].directory == directory && index["/a"].path == pa
      && index["/a"].name == "a" && index["/a"].instance == ""
  {
    hide TreeOk, IndexOk, Render;
    var pa, pb := [Component("a", "")], [Component("a", ""), Component("b", "")];
    ExampleAddresses();
    assert pb[..0] == [] && pb[..1] == pa && pb[..2] == pb;
    assert Prefixes(pb) == {[], pa, pb};
    assert pa < pb && pb in directory.tree;
    IndexedPath(directory, pa);
    IndexedPath(directory, pb);
    IndexedPath(directory, [Component("c", ""), Component("b", "")]);
    directory.AtPath(pa);
    directory.AtPath(pb);
    IndexSize(directory.tree, directory.mDirectory);
  }

  /** After setName: /a is /c, and the key of its child is stale. */
  lemma ExampleRenamed(tree: Tree, index: map<string, Node>, p': Path, created: bool, a: Node)
    requires tree.Keys == {[], [Component("a", "")], [Component("a", ""), Component("b", "")]}
    requires Renamed(tree, [Component("a", "")], Component("c", ""), p', created)
    requires Movable(tree, [Component("a", "")], p') && "/a/b" in index && "/c/b" !in index
    ensures p' == [Component("c", "")] && Render(p') == "/c"
    ensures [Component("c", ""), Component("b", "")] in Moved(tree, [Component("a", "")], p')
    ensures var index' := Rekeyed(index, "/a", "/c", a); "/c" in index' && "/a/b" in index' && "/c/b" !in index'
  {
    hide Render, Moved;
    var pa, pb := [Component("a", "")], [Component("a", ""), Component("b", "")];
    ExampleAddresses();
    assert Parent(pa) == [] && p' == Parent(p') + [Last(p')];
    var pc := [Component("c", "")];
    assert pc[0].name == "c" && pa[0].name == "a" && |pc| != |pb| && pc == Parent(pa) + [Component("c", "")];
    assert pb in tree && pa <= pb && pb[1..] == [Component("b", "")];
    MovedAt(tree, pa, p', pb);
    assert Move(pb, pa, p') == p' + [Component("b", "")] == [Component("c", ""), Component("b", "")];
  }

  lemma ExampleAddresses()
    ensures Render([Component("a", "")]) == "/a" && Render([Component("c", "")]) == "/c"
    ensures Render([Component("a", ""), Component("b", "")]) == "/a/b"
    ensures Render([Component("c", ""), Component("b", "")]) == "/c/b"
  {
    var ab, cb := [Component("a", ""), Component("b", "")], [Component("c", ""), Component("b", "")];
    assert ab[1..] == [Component("b", "")] && Relative(ab) == "a/b";
    assert cb[1..] == [Component("b", "")] && Relative(cb) == "c/b";
  }
}
