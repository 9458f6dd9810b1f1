/** The address tree of library/source/TTNode.cpp and its global index in
    library/source/TTNodeDirectory.cpp.

    The ghost field `tree` is the abstract state: which path holds which node.
    Three real structures must agree with it: the parent pointers, the two-level
    children tables (name, then instance) and the flat table mDirectory from
    address to node.  A TTHash is a map; its append does not overwrite. */
module NodeDirectory {
  import opened Text
  import opened Address

  type Pointer = object? // an object or context the tree only carries along

  type Tables = map<string, map<string, Node>>

  // ---- tables ----

  function HashAppend<V>(m: map<string, V>, key: string, value: V): map<string, V> {
    if key in m then m else m[key := value]
  }

  ghost predicate Holds(t: Tables, name: string, instance: string) {
    name in t && instance in t[name]
  }

  /** The instances listed under a name. */
  ghost function InstancesIn(t: Tables, name: string): (instances: set<string>)
    ensures forall instance :: instance in instances <==> Holds(t, name, instance)
  {
    if name in t then t[name].Keys else {}
  }

  lemma InstancesAre(t: Tables, name: string)
    ensures name in t ==> InstancesIn(t, name) == t[name].Keys
    ensures name !in t ==> InstancesIn(t, name) == {}
  {
  }

  function WithChild(t: Tables, name: string, instance: string, n: Node): Tables {
    var table: map<string, Node> := if name in t then t[name] else map[];
    t[name := table[instance := n]]
  }

  /** The instance taken out, and its table with it when it was the last. */
  function WithoutChild(t: Tables, name: string, instance: string): Tables {
    if name !in t then t
    else if |t[name] - {instance}| == 0 then t - {name}
    else t[name := t[name] - {instance}]
  }

  /** A TTValue can hold the keys. */
  predicate Countable<V>(m: map<string, V>) {
    |m| < MAX_VALUES
  }

  /** getKeys: the keys, in an order the hash decides, as the elements of a TTValue. */
  method GetKeys<V>(m: map<string, V>) returns (keys: seq<string>)
    requires Countable(m)
    ensures |keys| == |m|
    ensures forall k :: k in keys <==> k in m
    ensures forall i, j :: 0 <= i < j < |keys| ==> keys[i] != keys[j]
  {
    keys := [];
    var rest := m.Keys;
    while rest != {}
      invariant rest <= m.Keys && |keys| + |rest| == |m.Keys|
      invariant forall k :: k in keys <==> k in m && k !in rest
      invariant forall i, j :: 0 <= i < j < |keys| ==> keys[i] != keys[j]
      decreases |rest|
    {
      var k :| k in rest;
      keys := keys + [k];
      rest := rest - {k};
    }
  }

  /** The keys a loop over a snapshot has still to look at. */
  ghost function Rest(keys: seq<string>, i: nat): set<string> {
    set m | i <= m < |keys| :: keys[m]
  }

  lemma RestStart(keys: seq<string>)
    ensures forall k :: k in Rest(keys, 0) <==> k in keys
  {
  }

  lemma RestNext(keys: seq<string>, i: nat)
    requires i < |keys|
    ensures Rest(keys, i) - {keys[i]} <= Rest(keys, i + 1)
  {
  }

  lemma RestEnd(keys: seq<string>)
    ensures Rest(keys, |keys|) == {}
  {
  }

  // ---- generated instances ----

  const UINT_RANGE: nat := 0x1_0000_0000

  /** snprintf(buffer, 8, "%u", i): at most seven characters of the numeral. */
  function Numeral(i: nat): (s: string)
    ensures 0 < |s| <= 7
  {
    var s := Decimal(i);
    if |s| <= 7 then s else s[..7]
  }

  /** Numerals of up to seven digits are not cut. */
  lemma ShortNumeral(i: nat)
    ensures i < 10_000_000 ==> Numeral(i) == Decimal(i)
  {
    DecimalLength(i, 7);
    assert Pow10(7) == 10_000_000;
  }

  lemma LongNumeral(i: nat) returns (m: nat)
    ensures m < 10_000_000 && m <= i && Numeral(i) == Decimal(m)
    ensures i > 0 ==> m > 0
  {
    ShortNumeral(i);
    m := i;
    DecimalLength(i, 7);
    assert Pow10(7) == 10_000_000;
    if i >= 10_000_000 {
      DecimalPrefix(i, 7);
      m :| Decimal(i)[..7] == Decimal(m) && m <= i;
      DecimalLength(m, 7);
      DecimalLength(m, 6);
    }
  }

  /** Some numeral that generateInstance can produce is unused.  Without one its
      loop would not end. */
  ghost predicate Room(used: set<string>) {
    exists i: nat :: i < 10_000_000 && Decimal(i) !in used
  }

  /** What generateInstance answers: the numeral of the least unused positive number;
      when all of those are taken, the counter has wrapped round to zero. */
  ghost predicate Generated(used: set<string>, instance: string) {
    && instance !in used
    && exists n: nat | n < 10_000_000 ::
      && instance == Decimal(n)
      && forall m | 0 < m < (if n == 0 then 10_000_000 else n) :: Decimal(m) in used
  }

  lemma GeneratedUnique(used: set<string>, a: string, b: string)
    requires Generated(used, a) && Generated(used, b)
    ensures a == b
  {
    hide Decimal;
    var m: nat :| m < 10_000_000 && a == Decimal(m)
      && forall k | 0 < k < (if m == 0 then 10_000_000 else m) :: Decimal(k) in used;
    var n: nat :| n < 10_000_000 && b == Decimal(n)
      && forall k | 0 < k < (if n == 0 then 10_000_000 else n) :: Decimal(k) in used;
  }

  function Numerals(n: nat): set<string> {
    set m | 0 < m <= n :: Decimal(m)
  }

  lemma {:induction false} NumeralsCount(n: nat)
    ensures |Numerals(n)| == n
  {
    if n > 0 {
      NumeralsCount(n - 1);
      assert Numerals(n) == Numerals(n - 1) + {Decimal(n)};
      if Decimal(n) in Numerals(n - 1) {
        var m :| 0 < m <= n - 1 && Decimal(n) == Decimal(m);
        DecimalInjective(m, n);
      }
    }
  }

  lemma SubsetSize<T>(a: set<T>, b: set<T>)
    requires a <= b
    ensures |a| <= |b|
  {
    assert b == a + (b - a);
  }

  /** The pigeonhole: fewer instances than numerals leave a positive one free. */
  lemma RoomBelowLimit(used: set<string>)
    requires |used| < 9_999_999
    ensures Room(used) && !Generated(used, Decimal(0))
  {
    NumeralsCount(9_999_999);
    if Numerals(9_999_999) <= used {
      SubsetSize(Numerals(9_999_999), used);
    }
    var x :| x in Numerals(9_999_999) && x !in used;
    var m :| 0 < m <= 9_999_999 && x == Decimal(m);
    if Generated(used, Decimal(0)) {
      var n: nat :| n < 10_000_000 && Decimal(0) == Decimal(n)
        && forall k | 0 < k < (if n == 0 then 10_000_000 else n) :: Decimal(k) in used;
      DecimalInjective(0, n);
    }
  }

  /** For the positive numbers: the numeral is not used and those of all smaller ones are. */
  lemma GeneratedMeans(used: set<string>, n: nat)
    requires 0 < n < 10_000_000
    ensures Generated(used, Decimal(n)) <==> Decimal(n) !in used && Numerals(n - 1) <= used
  {
    hide Generated;
    if Generated(used, Decimal(n)) {
      GeneratedIsLeast(used, n);
    }
    if Decimal(n) !in used && Numerals(n - 1) <= used {
      forall m | 0 < m < n ensures Decimal(m) in used {
        assert Decimal(m) in Numerals(n - 1);
      }
      LeastIsGenerated(used, n);
    }
  }

  lemma GeneratedIsLeast(used: set<string>, n: nat)
    requires 0 < n < 10_000_000 && Generated(used, Decimal(n))
    ensures Decimal(n) !in used && forall m | 0 < m < n :: Decimal(m) in used
  {
    hide Decimal;
    var k: nat :| k < 10_000_000 && Decimal(n) == Decimal(k)
      && forall m | 0 < m < (if k == 0 then 10_000_000 else k) :: Decimal(m) in used;
    DecimalInjective(n, k);
  }

  lemma LeastIsGenerated(used: set<string>, n: nat)
    requires 0 < n < 10_000_000 && Decimal(n) !in used && forall m | 0 < m < n :: Decimal(m) in used
    ensures Generated(used, Decimal(n))
  {
    hide Decimal;
  }

  /** What the search loop of generateInstance stops with. */
  lemma FoundIsGenerated(used: set<string>, last: nat)
    requires last < UINT_RANGE && Numeral(last) !in used
    requires forall m | 0 < m < (if last == 0 then UINT_RANGE else last) :: Numeral(m) in used
    ensures Generated(used, Numeral(last))
  {
    hide Numeral, Decimal;
    var m := LongNumeral(last);
    ShortNumeral(m);
    forall k | 0 < k < (if m == 0 then 10_000_000 else m)
      ensures Decimal(k) in used
    {
      ShortNumeral(k);
    }
  }

  lemma GeneratedIsFree(used: set<string>, instance: string)
    requires Generated(used, instance)
    ensures instance !in used
  {
  }

  lemma GeneratedIsPlain(used: set<string>, instance: string)
    requires Generated(used, instance)
    ensures instance != "" && PlainText(instance)
  {
  }

  // ---- trees ----

  type Tree = map<Path, Node>

  function Prefixes(p: Path): set<Path> {
    set i | 0 <= i <= |p| :: p[..i]
  }

  /** Exactly the added paths are new, and nothing that was there changed. */
  ghost predicate Grew(before: Tree, after: Tree, added: set<Path>) {
    && after.Keys == before.Keys + added
    && forall q | q in before :: after[q] == before[q]
  }

  /** The fields of a node, as a value. */
  datatype Cell = Cell(name: string, instance: string, parent: Node?, children: Tables, ghost path: Path)

  type Cells = map<Node, Cell>

  /** The node at p: its own fields say where it is, and its parent's table lists it. */
  ghost predicate NodeOk(tree: Tree, cells: Cells, p: Path)
    requires p in tree && tree.Values <= cells.Keys
  {
    var c := cells[tree[p]];
    && c.path == p && ValidPath(p)
    && (p == [] ==> c.parent == null && c.name == S_SEPARATOR && c.instance == NONE)
    && (p != [] ==>
        && Parent(p) in tree && c.parent == tree[Parent(p)]
        && c.name == Last(p).name && c.instance == Last(p).instance
        && Holds(cells[tree[Parent(p)]].children, c.name, c.instance))
  }

  /** Its own table lists only nodes right below it, and keeps no empty table of instances. */
  ghost predicate TablesOk(tree: Tree, cells: Cells, p: Path)
    requires p in tree && tree.Values <= cells.Keys
  {
    var t := cells[tree[p]].children;
    && (forall name | name in t :: t[name] != map[])
    && (forall name, instance | name in t && instance in t[name] ::
        && p + [Component(name, instance)] in tree
        && t[name][instance] == tree[p + [Component(name, instance)]])
  }

  ghost predicate TreeOk(tree: Tree, cells: Cells) {
    && cells.Keys == tree.Values
    && (forall p {:trigger NodeOk(tree, cells, p)} | p in tree :: NodeOk(tree, cells, p))
    && (forall p {:trigger TablesOk(tree, cells, p)} | p in tree :: TablesOk(tree, cells, p))
  }

  /** The flat table lists exactly the nodes of the tree, each under its own
      address, except those whose removal has begun. */
  ghost predicate IndexOk(tree: Tree, index: map<string, Node>, dying: set<Path>) {
    && (forall p {:trigger Render(p)} | p in tree && p !in dying :: Render(p) in index && index[Render(p)] == tree[p])
    && (forall k | k in index :: exists p {:trigger Render(p)} | p in tree && p !in dying :: Render(p) == k)
  }

  lemma IndexedAt(tree: Tree, index: map<string, Node>, dying: set<Path>, p: Path)
    requires IndexOk(tree, index, dying) && ValidPath(p) && forall q | q in tree :: ValidPath(q)
    ensures Render(p) in index <==> p in tree && p !in dying
    ensures p in tree && p !in dying ==> index[Render(p)] == tree[p]
  {
    hide Render;
    if Render(p) in index {
      var q :| q in tree && q !in dying && Render(q) == Render(p);
      RenderInjective(p, q);
    }
  }

  lemma TreePaths(tree: Tree, cells: Cells)
    requires TreeOk(tree, cells)
    ensures forall q | q in tree :: ValidPath(q) && cells[tree[q]].path == q
  {
    forall q | q in tree ensures ValidPath(q) && cells[tree[q]].path == q {
      assert NodeOk(tree, cells, q);
    }
  }

  /** A path is in the tree exactly when its parent's table lists it. */
  lemma TablesAreTree(tree: Tree, cells: Cells, q: Path)
    requires TreeOk(tree, cells) && q != [] && Parent(q) in tree
    ensures q in tree <==> Holds(cells[tree[Parent(q)]].children, Last(q).name, Last(q).instance)
    ensures q in tree ==> cells[tree[Parent(q)]].children[Last(q).name][Last(q).instance] == tree[q]
  {
    var p := Parent(q);
    assert q == p + [Component(Last(q).name, Last(q).instance)];
    assert TablesOk(tree, cells, p);
    if q in tree {
      assert NodeOk(tree, cells, q);
    }
  }

  lemma {:induction false} PrefixesPresent(tree: Tree, cells: Cells, p: Path)
    requires TreeOk(tree, cells) && p in tree
    ensures forall i | 0 <= i <= |p| :: p[..i] in tree
    ensures Prefixes(p) <= tree.Keys
    decreases |p|
  {
    assert p[..|p|] == p;
    if p != [] {
      assert NodeOk(tree, cells, p);
      PrefixesPresent(tree, cells, Parent(p));
      forall i | 0 <= i < |p| ensures p[..i] in tree {
        assert p[..i] == Parent(p)[..i];
      }
    }
  }

  ghost function CellsWith(tree: Tree, cells: Cells, q: Path, node: Node, cell: Cell): Cells
    requires tree.Values <= cells.Keys && (q != [] ==> Parent(q) in tree)
  {
    if q == [] then cells[node := cell]
    else
      var up := tree[Parent(q)];
      cells[up := cells[up].(children := WithChild(cells[up].children, cell.name, cell.instance, node))][node := cell]
  }

  /** A node that belongs at q: new, and with the fields q calls for. */
  ghost predicate Insertable(tree: Tree, cells: Cells, q: Path, node: Node, cell: Cell) {
    && TreeOk(tree, cells) && q !in tree && node !in cells && ValidPath(q)
    && cell.path == q && cell.children == map[]
    && (q == [] ==> cell.parent == null && cell.name == S_SEPARATOR && cell.instance == NONE)
    && (q != [] ==>
        Parent(q) in tree && cell.parent == tree[Parent(q)] && Component(cell.name, cell.instance) == Last(q))
  }

  lemma InsertableMeans(tree: Tree, cells: Cells, q: Path, node: Node, cell: Cell)
    requires Insertable(tree, cells, q, node, cell)
    ensures TreeOk(tree, cells) && q !in tree && node !in cells && ValidPath(q)
    ensures cell.parent == if q == [] then null else if Parent(q) in tree then tree[Parent(q)] else null
    ensures q != [] ==> Parent(q) in tree && Component(cell.name, cell.instance) == Last(q)
  {
  }

  lemma ValuesWith(tree: Tree, q: Path, node: Node)
    requires q !in tree
    ensures tree[q := node].Values == tree.Values + {node}
  {
    var tree' := tree[q := node];
    forall n | n in tree.Values ensures n in tree'.Values {
      var r :| r in tree && tree[r] == n;
      assert r in tree' && tree'[r] == n;
    }
    assert q in tree' && tree'[q] == node;
  }

  lemma NodesDiffer(tree: Tree, cells: Cells, p: Path, r: Path)
    requires TreeOk(tree, cells) && r in tree && p in tree && p != r
    ensures tree[r] != tree[p]
  {
    assert NodeOk(tree, cells, r) && NodeOk(tree, cells, p);
  }

  lemma InsertedNode(tree: Tree, cells: Cells, q: Path, node: Node, cell: Cell, r: Path)
    requires Insertable(tree, cells, q, node, cell) && (r == q || r in tree)
    ensures tree[q := node].Values <= CellsWith(tree, cells, q, node, cell).Keys
    ensures NodeOk(tree[q := node], CellsWith(tree, cells, q, node, cell), r)
  {
    hide ValidPath;
    ValuesWith(tree, q, node);
    if r in tree {
      assert NodeOk(tree, cells, r);
    }
  }

  lemma InsertedTables(tree: Tree, cells: Cells, q: Path, node: Node, cell: Cell, r: Path)
    requires Insertable(tree, cells, q, node, cell) && (r == q || r in tree)
    ensures tree[q := node].Values <= CellsWith(tree, cells, q, node, cell).Keys
    ensures TablesOk(tree[q := node], CellsWith(tree, cells, q, node, cell), r)
  {
    hide ValidPath;
    ValuesWith(tree, q, node);
    if r in tree {
      assert TablesOk(tree, cells, r);
      if q != [] && r == Parent(q) {
        InsertedUnderParent(tree, cells, q, node, cell);
      } else if q != [] {
        NodesDiffer(tree, cells, Parent(q), r);
      }
    }
  }

  lemma InsertedUnderParent(tree: Tree, cells: Cells, q: Path, node: Node, cell: Cell)
    requires Insertable(tree, cells, q, node, cell) && q != []
    ensures tree[q := node].Values <= CellsWith(tree, cells, q, node, cell).Keys
    ensures TablesOk(tree[q := node], CellsWith(tree, cells, q, node, cell), Parent(q))
  {
    hide ValidPath;
    var p := Parent(q);
    var t := cells[tree[p]].children;
    var t' := WithChild(t, cell.name, cell.instance, node);
    ValuesWith(tree, q, node);
    assert TablesOk(tree, cells, p);
    assert cell.instance in t'[cell.name];
    assert q == p + [Component(cell.name, cell.instance)];
    forall name, instance | name in t' && instance in t'[name]
      ensures p + [Component(name, instance)] in tree[q := node]
      ensures t'[name][instance] == tree[q := node][p + [Component(name, instance)]]
    {
      var r := p + [Component(name, instance)];
      assert Last(r) == Component(name, instance);
      if r != q {
        assert name in t && instance in t[name];
      }
    }
  }

  /** Hanging a new node on its parent, and nothing else, keeps everything in agreement. */
  lemma InsertOk(tree: Tree, cells: Cells, q: Path, node: Node, cell: Cell)
    requires Insertable(tree, cells, q, node, cell)
    ensures TreeOk(tree[q := node], CellsWith(tree, cells, q, node, cell))
  {
    hide NodeOk, TablesOk, ValidPath;
    var tree', cells' := tree[q := node], CellsWith(tree, cells, q, node, cell);
    ValuesWith(tree, q, node);
    forall r | r in tree' ensures NodeOk(tree', cells', r) && TablesOk(tree', cells', r) {
      InsertedNode(tree, cells, q, node, cell, r);
      InsertedTables(tree, cells, q, node, cell, r);
    }
  }

  lemma IndexInsert(tree: Tree, index: map<string, Node>, q: Path, node: Node)
    requires IndexOk(tree, index, {}) && q !in tree && ValidPath(q) && forall p | p in tree :: ValidPath(p)
    ensures IndexOk(tree[q := node], HashAppend(index, Render(q), node), {})
  {
    hide Render, ValidPath;
    IndexedAt(tree, index, {}, q);
    var tree', index' := tree[q := node], HashAppend(index, Render(q), node);
    forall p | p in tree' ensures Render(p) in index' && index'[Render(p)] == tree'[p] {
      if p != q && Render(p) == Render(q) {
        RenderInjective(p, q);
      }
    }
    forall k | k in index' ensures exists p | p in tree' && p !in {} :: Render(p) == k {
      if k != Render(q) {
        var p :| p in tree && Render(p) == k;
        assert p in tree';
      } else {
        assert q in tree';
      }
    }
  }

  // ---- removal ----

  /** The tree without p and everything below it. */
  ghost function Pruned(tree: Tree, p: Path): Tree {
    map q | q in tree && !(p <= q) :: tree[q]
  }

  /** The log of departures from below p that turned one tree into the other: every
      node that is gone, once, and none before the node it hung on. */
  ghost predicate Departed(before: Tree, after: Tree, p: Path, log: seq<Path>) {
    && (forall i, j :: 0 <= i < j < |log| ==> log[i] != log[j])
    && (forall q :: q in log <==> q in before && q !in after)
    && (forall i | 0 <= i < |log| :: log[i] != [] && (Parent(log[i]) == p || Parent(log[i]) in log[..i]))
  }

  ghost predicate Logged(log: seq<Path>, log': seq<Path>, before: Tree, after: Tree, p: Path) {
    log <= log' && Departed(before, after, p, log'[|log|..])
  }

  lemma LoggedNothing(log: seq<Path>, tree: Tree, p: Path)
    ensures Logged(log, log, tree, tree, p)
  {
  }

  /** No path twice in either log, and none in both. */
  lemma DistinctTogether(s: seq<Path>, t: seq<Path>)
    requires forall i, j :: 0 <= i < j < |s| ==> s[i] != s[j]
    requires forall i, j :: 0 <= i < j < |t| ==> t[i] != t[j]
    requires forall q | q in s :: q !in t
    ensures forall i, j :: 0 <= i < j < |s + t| ==> (s + t)[i] != (s + t)[j]
  {
    forall i, j | 0 <= i < j < |s + t| ensures (s + t)[i] != (s + t)[j] {
      if i < |s| && |s| <= j {
        assert (s + t)[i] in s && (s + t)[j] in t;
      }
    }
  }

  /** What is gone after the first log cannot go in the second. */
  lemma DistinctInTurn(s: seq<Path>, t: seq<Path>, a: Tree, b: Tree, c: Tree, p: Path)
    requires Departed(a, b, p, s) && Departed(b, c, p, t) && Thinned(a, b, p) && Thinned(b, c, p)
    ensures forall q | q in s :: q !in t
    ensures forall q :: q in s || q in t <==> q in a && q !in c
  {
  }

  lemma DepartedAgain(s: seq<Path>, t: seq<Path>, a: Tree, b: Tree, c: Tree, p: Path)
    requires Departed(a, b, p, s) && Departed(b, c, p, t) && Thinned(a, b, p) && Thinned(b, c, p)
    ensures Departed(a, c, p, s + t)
  {
    hide Thinned;
    DistinctInTurn(s, t, a, b, c, p);
    DistinctTogether(s, t);
    var u := s + t;
    forall i | 0 <= i < |u| ensures u[i] != [] && (Parent(u[i]) == p || Parent(u[i]) in u[..i]) {
      if i < |s| {
        assert u[..i] == s[..i];
      } else {
        assert u[i] == t[i - |s|] && u[..i] == s + t[..i - |s|];
      }
    }
  }

  lemma LoggedAgain(l0: seq<Path>, l1: seq<Path>, l2: seq<Path>, a: Tree, b: Tree, c: Tree, p: Path)
    requires Logged(l0, l1, a, b, p) && Logged(l1, l2, b, c, p) && Thinned(a, b, p) && Thinned(b, c, p)
    ensures Logged(l0, l2, a, c, p)
  {
    hide Departed, Thinned;
    assert l2[|l0|..] == l1[|l0|..] + l2[|l1|..];
    DepartedAgain(l1[|l0|..], l2[|l1|..], a, b, c, p);
  }

  lemma LoggedWithout(l0: seq<Path>, l1: seq<Path>, a: Tree, b: Tree, p: Path)
    requires Logged(l0, l1, a, b, p) && p in b
    ensures Logged(l0, l1, a - {p}, b - {p}, p)
  {
  }

  lemma DepartedChild(t: seq<Path>, b: Tree, c: Tree, p: Path, q: Path)
    requires q != [] && Parent(q) == p && q in b && q !in c && Departed(b - {q}, c, q, t)
    ensures Departed(b, c, p, [q] + t)
  {
    var u := [q] + t;
    forall i, j | 0 <= i < j < |u| ensures u[i] != u[j] {
      assert u[j] in t;
    }
    forall i | 0 <= i < |u| ensures u[i] != [] && (Parent(u[i]) == p || Parent(u[i]) in u[..i]) {
      if i > 0 {
        assert u[i] == t[i - 1] && u[..i] == [q] + t[..i - 1];
      }
    }
  }

  lemma LoggedChild(l0: seq<Path>, l1: seq<Path>, b: Tree, c: Tree, p: Path, q: Path)
    requires q != [] && Parent(q) == p && q in b && q !in c && Logged(l0 + [q], l1, b - {q}, c, q)
    ensures Logged(l0, l1, b, c, p)
  {
    hide Departed;
    var t := l1[|l0 + [q]|..];
    assert l1[|l0|..] == [q] + t;
    DepartedChild(t, b, c, p, q);
  }

  /** Only nodes strictly below p are gone. */
  ghost predicate Thinned(before: Tree, after: Tree, p: Path) {
    && (forall q | q in after :: q in before && after[q] == before[q])
    && (forall q | q in before && q !in after :: p < q)
  }

  lemma ThinnedAgain(a: Tree, b: Tree, c: Tree, p: Path)
    ensures Thinned(a, a, p)
    ensures Thinned(a, b, p) && Thinned(b, c, p) ==> Thinned(a, c, p)
    ensures Thinned(a, b, p) ==> b.Values <= a.Values
  {
  }

  /** The tables of one node that getKeys is asked about when children called `name`,
      or all children, are wanted: fewer entries than a TTValue can hold. */
  ghost predicate ListableFor(tree: Tree, p: Path, name: string) {
    && |NamesUsed(tree, p)| < MAX_VALUES
    && forall n | name == S_WILDCARD || n == name :: |Used(tree, p, n)| < MAX_VALUES
  }

  ghost predicate Listable(tree: Tree, p: Path) {
    ListableFor(tree, p, S_WILDCARD)
  }

  /** So everywhere at and below p. */
  ghost predicate AllListable(tree: Tree, p: Path) {
    forall q | q in tree && p <= q :: Listable(tree, q)
  }

  lemma UsedFewer(tree: Tree, tree': Tree, p: Path, name: string)
    requires tree'.Keys <= tree.Keys
    ensures |Used(tree', p, name)| <= |Used(tree, p, name)| && |NamesUsed(tree', p)| <= |NamesUsed(tree, p)|
  {
    SubsetSize(Used(tree', p, name), Used(tree, p, name));
    SubsetSize(NamesUsed(tree', p), NamesUsed(tree, p));
  }

  lemma ListableAt(tree: Tree, p: Path)
    requires AllListable(tree, p) && p in tree
    ensures Listable(tree, p)
  {
  }

  lemma ListableFewer(tree: Tree, tree': Tree, p: Path, q: Path)
    requires AllListable(tree, p) && tree'.Keys <= tree.Keys && p <= q
    ensures AllListable(tree', q)
  {
    hide Used, NamesUsed;
    forall r | r in tree' && q <= r ensures Listable(tree', r) {
      assert Listable(tree, r);
      UsedFewer(tree, tree', r, "");
      forall name ensures |Used(tree', r, name)| < MAX_VALUES {
        UsedFewer(tree, tree', r, name);
      }
    }
  }

  /** What the destructors work on, as a value. */
  datatype Snapshot = Snapshot(tree: Tree, index: map<string, Node>, departures: seq<Path>, notified: seq<Notice>)

  /** The work of the destructors below p: only nodes there are gone, each departure is
      logged and told to those who hear of it, and the index follows. */
  ghost predicate Cleared(observers: Observers, a: Snapshot, b: Snapshot, p: Path, dying: set<Path>) {
    && Thinned(a.tree, b.tree, p) && Logged(a.departures, b.departures, a.tree, b.tree, p)
    && IndexOk(b.tree, b.index, dying) && b.index.Keys <= a.index.Keys
    && Told(observers, AddressDestroyed, a.departures, b.departures, a.notified, b.notified)
  }

  lemma ClearedNothing(observers: Observers, a: Snapshot, p: Path, dying: set<Path>)
    requires IndexOk(a.tree, a.index, dying)
    ensures Cleared(observers, a, a, p, dying)
  {
    hide IndexOk, Told, Logged;
    LoggedNothing(a.departures, a.tree, p);
    ToldNothing(observers, AddressDestroyed, a.departures, a.notified);
  }

  lemma ClearedAgain(observers: Observers, a: Snapshot, b: Snapshot, c: Snapshot, p: Path, dying: set<Path>)
    requires Cleared(observers, a, b, p, dying) && Cleared(observers, b, c, p, dying)
    ensures Cleared(observers, a, c, p, dying)
  {
    hide IndexOk, Told, Logged, Thinned;
    ThinnedAgain(a.tree, b.tree, c.tree, p);
    LoggedAgain(a.departures, b.departures, c.departures, a.tree, b.tree, c.tree, p);
    ToldAgain(observers, AddressDestroyed,
      a.departures, b.departures, c.departures, a.notified, b.notified, c.notified);
  }

  lemma ClearedMeans(observers: Observers, a: Snapshot, b: Snapshot, p: Path, dying: set<Path>)
    requires Cleared(observers, a, b, p, dying)
    ensures IndexOk(b.tree, b.index, dying) && |b.index| <= |a.index|
    ensures b.tree.Keys <= a.tree.Keys && b.tree.Values <= a.tree.Values && (p in a.tree ==> p in b.tree)
    ensures forall q | q in b.tree :: b.tree[q] == a.tree[q]
    ensures AllListable(a.tree, p) ==> AllListable(b.tree, p)
  {
    hide IndexOk, Told, Logged, AllListable;
    SubsetSize(b.index.Keys, a.index.Keys);
    ThinnedAgain(a.tree, b.tree, b.tree, p);
    if AllListable(a.tree, p) {
      ListableFewer(a.tree, b.tree, p, p);
    }
  }

  /** One child subtree gone. */
  lemma ClearedChild(observers: Observers, a: Snapshot, b: Snapshot, p: Path, q: Path, dying: set<Path>)
    requires q != [] && Parent(q) == p && q in a.tree && q !in b.tree
    requires Thinned(a.tree, b.tree, p) && IndexOk(b.tree, b.index, dying) && b.index.Keys <= a.index.Keys
    requires Logged(a.departures + [q], b.departures, a.tree - {q}, b.tree, q)
    requires Told(observers, AddressDestroyed, a.departures, b.departures, a.notified, b.notified)
    ensures Cleared(observers, a, b, p, dying)
  {
    hide IndexOk, Told, Logged, Thinned;
    LoggedChild(a.departures, b.departures, a.tree, b.tree, p, q);
  }

  /** All children gone: with the node itself the whole subtree is. */
  lemma ClearedAll(observers: Observers, a: Snapshot, b: Snapshot, p: Path, dying: set<Path>)
    requires Cleared(observers, a, b, p, dying) && p in b.tree && Leaf(b.tree, p) && p in dying
    ensures b.tree - {p} == Pruned(a.tree, p) && IndexOk(b.tree - {p}, b.index, dying - {p})
    ensures Logged(a.departures, b.departures, a.tree - {p}, b.tree - {p}, p) && b.index.Keys <= a.index.Keys
    ensures Told(observers, AddressDestroyed, a.departures, b.departures, a.notified, b.notified)
  {
    hide IndexOk, Told, Logged, Thinned, Leaf, Pruned;
    PrunedLeaf(a.tree, b.tree, p);
    IndexEnd(b.tree, b.index, dying, p);
    LoggedWithout(a.departures, b.departures, a.tree, b.tree, p);
  }

  lemma KeysCanonical(tree: Tree, index: map<string, Node>, dying: set<Path>)
    requires IndexOk(tree, index, dying) && forall q | q in tree :: ValidPath(q)
    ensures forall k | k in index :: Canonical(k)
  {
    hide Render, Canonical, ValidPath;
    forall k | k in index ensures Canonical(k) {
      var q :| q in tree && Render(q) == k;
      ParseOfRender(q);
    }
  }

  ghost predicate Leaf(tree: Tree, p: Path) {
    forall q | q in tree :: !(p < q)
  }

  ghost function CellsWithout(tree: Tree, cells: Cells, q: Path): Cells
    requires tree.Values <= cells.Keys && q in tree && q != [] && Parent(q) in tree
  {
    var up, c := tree[Parent(q)], cells[tree[q]];
    cells[up := cells[up].(children := WithoutChild(cells[up].children, c.name, c.instance))] - {tree[q]}
  }

  lemma WithoutCells(tree: Tree, cells: Cells, q: Path, above: Cell)
    requires tree.Values <= cells.Keys && q in tree && q != [] && Parent(q) in tree && tree[q] != tree[Parent(q)]
    requires var up, c := cells[tree[Parent(q)]], cells[tree[q]];
      above == up.(children := WithoutChild(up.children, c.name, c.instance))
    ensures var cells' := CellsWithout(tree, cells, q);
      && cells'.Keys == cells.Keys - {tree[q]} && cells'[tree[Parent(q)]] == above
      && forall n | n in cells' && n != tree[Parent(q)] :: cells'[n] == cells[n]
  {
    hide WithoutChild;
  }

  /** What the cell of a node that stays is. */
  lemma RemovedCell(tree: Tree, cells: Cells, q: Path, r: Path, above: Cell)
    requires TreeOk(tree, cells) && q in tree && q != [] && r in tree && r != q && Parent(q) in tree
    requires var up := cells[tree[Parent(q)]];
      above == up.(children := WithoutChild(up.children, Last(q).name, Last(q).instance))
    ensures tree[r] in CellsWithout(tree, cells, q)
    ensures CellsWithout(tree, cells, q)[tree[r]] == if r == Parent(q) then above else cells[tree[r]]
  {
    hide ValidPath, WithoutChild, CellsWithout, TreeOk, TablesOk, NodeOk;
    NodeOkAt(tree, cells, r);
    CellOfChild(tree, cells, q);
    WithoutCells(tree, cells, q, above);
    NodesDiffer(tree, cells, q, r);
    if r != Parent(q) {
      NodesDiffer(tree, cells, Parent(q), r);
    }
  }

  /** The parent of a node that stays still lists it. */
  lemma RemovedHolds(tree: Tree, cells: Cells, q: Path, r: Path)
    requires TreeOk(tree, cells) && q in tree && q != [] && Leaf(tree, q) && r in tree && r != q && r != []
    requires Parent(q) in tree && Parent(r) in tree
    ensures tree[Parent(r)] in CellsWithout(tree, cells, q) && Parent(r) != q
    ensures Holds(CellsWithout(tree, cells, q)[tree[Parent(r)]].children, Last(r).name, Last(r).instance)
  {
    hide ValidPath, WithoutChild, CellsWithout, TreeOk, TablesOk, Holds;
    NodeOkAt(tree, cells, r);
    assert Parent(r) != q by { assert Parent(r) < r; }
    var up := cells[tree[Parent(q)]];
    var above := up.(children := WithoutChild(up.children, Last(q).name, Last(q).instance));
    RemovedCell(tree, cells, q, Parent(r), above);
    if Parent(r) == Parent(q) {
      assert r == Parent(r) + [Last(r)] && q == Parent(q) + [Last(q)];
      StillHeld(up.children, Last(q).name, Last(q).instance, Last(r).name, Last(r).instance);
    }
  }

  lemma RemovedNode(tree: Tree, cells: Cells, q: Path, r: Path)
    requires TreeOk(tree, cells) && q in tree && q != [] && Leaf(tree, q) && r in tree && r != q
    requires Parent(q) in tree && (tree - {q}).Values <= CellsWithout(tree, cells, q).Keys
    ensures NodeOk(tree - {q}, CellsWithout(tree, cells, q), r)
  {
    hide ValidPath, WithoutChild, CellsWithout, TreeOk, TablesOk, Holds, Leaf;
    NodeOkAt(tree, cells, r);
    var up := cells[tree[Parent(q)]];
    RemovedCell(tree, cells, q, r, up.(children := WithoutChild(up.children, Last(q).name, Last(q).instance)));
    if r != [] {
      RemovedHolds(tree, cells, q, r);
    }
  }

  lemma StillHeld(t: Tables, name: string, instance: string, name': string, instance': string)
    ensures Holds(WithoutChild(t, name, instance), name', instance')
      <==> Holds(t, name', instance') && (name' != name || instance' != instance)
    ensures Holds(WithoutChild(t, name, instance), name', instance') ==>
      WithoutChild(t, name, instance)[name'][instance'] == t[name'][instance']
    ensures name' in WithoutChild(t, name, instance) ==>
      name' in t && (t[name'] != map[] ==> WithoutChild(t, name, instance)[name'] != map[])
  {
    if name in t {
      var table := t[name] - {instance};
      assert instance' in t[name] && instance' != instance ==> instance' in table;
      assert |table| == 0 ==> table.Keys == {};
    }
  }

  /** The parent's tables once the entry is out. */
  lemma RemovedAbove(tree: Tree, cells: Cells, q: Path)
    requires TreeOk(tree, cells) && q in tree && q != [] && Leaf(tree, q)
    requires Parent(q) in tree && (tree - {q}).Values <= CellsWithout(tree, cells, q).Keys
    ensures Parent(q) != q && TablesOk(tree - {q}, CellsWithout(tree, cells, q), Parent(q))
  {
    hide ValidPath, WithoutChild, CellsWithout, TreeOk, NodeOk;
    NodeOkAt(tree, cells, q);
    var p := Parent(q);
    var up, cell := cells[tree[p]], cells[tree[q]];
    CellOfChild(tree, cells, q);
    var t := up.children;
    var t' := WithoutChild(t, cell.name, cell.instance);
    WithoutCells(tree, cells, q, up.(children := t'));
    assert q == p + [Component(cell.name, cell.instance)];
    forall name | name in t' ensures t'[name] != map[] {
      StillHeld(t, cell.name, cell.instance, name, "");
    }
    forall name, instance | name in t' && instance in t'[name]
      ensures p + [Component(name, instance)] in tree - {q}
      ensures t'[name][instance] == (tree - {q})[p + [Component(name, instance)]]
    {
      StillHeld(t, cell.name, cell.instance, name, instance);
      assert Last(p + [Component(name, instance)]) == Component(name, instance);
    }
  }

  lemma CellOfChild(tree: Tree, cells: Cells, q: Path)
    requires TreeOk(tree, cells) && q in tree && q != []
    ensures Parent(q) in tree && tree[q] != tree[Parent(q)] && Parent(q) != q
    ensures cells[tree[q]].name == Last(q).name && cells[tree[q]].instance == Last(q).instance
    ensures q == Parent(q) + [Component(Last(q).name, Last(q).instance)]
    ensures TablesOk(tree, cells, Parent(q))
  {
    NodesApart(tree, cells, q);
    assert NodeOk(tree, cells, q);
    assert |Parent(q)| < |q|;
  }

  /** A table that does not list q, with q gone. */
  lemma TablesElsewhere(tree: Tree, cells: Cells, cells': Cells, q: Path, r: Path)
    requires q in tree && q != [] && r in tree && r != q && r != Parent(q)
    requires tree.Values <= cells.Keys && (tree - {q}).Values <= cells'.Keys && TablesOk(tree, cells, r)
    requires tree[r] in cells' && cells'[tree[r]].children == cells[tree[r]].children
    ensures TablesOk(tree - {q}, cells', r)
  {
    var t := cells[tree[r]].children;
    forall name, instance | name in t && instance in t[name]
      ensures r + [Component(name, instance)] in tree - {q}
    {
      assert Parent(r + [Component(name, instance)]) == r;
    }
  }

  lemma RemovedTables(tree: Tree, cells: Cells, q: Path, r: Path)
    requires TreeOk(tree, cells) && q in tree && q != [] && Leaf(tree, q) && r in tree && r != q
    requires Parent(q) in tree && (tree - {q}).Values <= CellsWithout(tree, cells, q).Keys
    ensures TablesOk(tree - {q}, CellsWithout(tree, cells, q), r)
  {
    hide ValidPath, WithoutChild, CellsWithout, TreeOk, TablesOk, NodeOk, Leaf;
    if r == Parent(q) {
      RemovedAbove(tree, cells, q);
    } else {
      NodeOkAt(tree, cells, r);
      var up := cells[tree[Parent(q)]];
      RemovedCell(tree, cells, q, r, up.(children := WithoutChild(up.children, Last(q).name, Last(q).instance)));
      TablesElsewhere(tree, cells, CellsWithout(tree, cells, q), q, r);
    }
  }

  lemma ValuesWithout(tree: Tree, cells: Cells, q: Path)
    requires TreeOk(tree, cells) && q in tree
    ensures (tree - {q}).Values == tree.Values - {tree[q]}
  {
    forall n | n in tree.Values - {tree[q]} ensures n in (tree - {q}).Values {
      var r :| r in tree && tree[r] == n;
      assert r in tree - {q} && (tree - {q})[r] == n;
    }
    forall n | n in (tree - {q}).Values ensures n != tree[q] {
      var r :| r in tree - {q} && (tree - {q})[r] == n;
      NodesDiffer(tree, cells, q, r);
    }
  }

  /** Taking a leaf out of its parent's table, with the table when it was the
      last, keeps everything in agreement. */
  lemma RemoveOk(tree: Tree, cells: Cells, q: Path)
    requires TreeOk(tree, cells) && q in tree && q != [] && Leaf(tree, q)
    ensures Parent(q) in tree && TreeOk(tree - {q}, CellsWithout(tree, cells, q))
  {
    hide ValidPath, WithoutChild, Holds;
    assert NodeOk(tree, cells, q);
    ValuesWithout(tree, cells, q);
    assert Parent(q) < q;
    NodesDiffer(tree, cells, q, Parent(q));
    var tree', cells' := tree - {q}, CellsWithout(tree, cells, q);
    assert cells'.Keys == tree'.Values;
    forall r | r in tree' ensures NodeOk(tree', cells', r) && TablesOk(tree', cells', r) {
      RemovedNode(tree, cells, q, r);
      RemovedTables(tree, cells, q, r);
    }
  }

  /** A node without children tables has nothing below it. */
  lemma NoTablesNoDescendants(tree: Tree, cells: Cells, p: Path)
    requires TreeOk(tree, cells) && p in tree && cells[tree[p]].children == map[]
    ensures Leaf(tree, p)
  {
    forall q | q in tree ensures !(p < q) {
      if p < q {
        var child := q[..|p| + 1];
        PrefixesPresent(tree, cells, q);
        assert Parent(child) == p;
        TablesAreTree(tree, cells, child);
      }
    }
  }

  lemma IndexBegin(tree: Tree, index: map<string, Node>, dying: set<Path>, p: Path)
    requires IndexOk(tree, index, dying) && p in tree && forall q | q in tree :: ValidPath(q)
    ensures IndexOk(tree, index - {Render(p)}, dying + {p})
  {
    hide Render, ValidPath;
    forall q | q in tree && q !in dying + {p}
      ensures Render(q) in index - {Render(p)} && (index - {Render(p)})[Render(q)] == tree[q]
    {
      if Render(q) == Render(p) {
        RenderInjective(p, q);
      }
    }
    forall k | k in index - {Render(p)}
      ensures exists q | q in tree && q !in dying + {p} :: Render(q) == k
    {
      var q :| q in tree && q !in dying && Render(q) == k;
    }
  }

  lemma IndexEnd(tree: Tree, index: map<string, Node>, dying: set<Path>, p: Path)
    requires IndexOk(tree, index, dying) && p in dying
    ensures IndexOk(tree - {p}, index, dying - {p})
  {
    hide Render;
    forall k | k in index
      ensures exists q | q in tree - {p} && q !in dying - {p} :: Render(q) == k
    {
      var q :| q in tree && q !in dying && Render(q) == k;
      assert q in tree - {p};
    }
  }

  /** An address in the index leads to the node whose address it is. */
  lemma FoundInIndex(tree: Tree, index: map<string, Node>, dying: set<Path>, address: string)
    requires IndexOk(tree, index, dying) && address in index
    ensures exists p | p in tree && p !in dying :: address == Render(p) && index[address] == tree[p]
  {
    hide Render;
    var p :| p in tree && p !in dying && Render(p) == address;
  }

  /** With one child subtree pruned, a node's tables have lost that child and gained nothing. */
  lemma TablesShrink(before: Tree, cells: Cells, after: Tree, cells': Cells, p: Path, q: Path)
    requires TreeOk(before, cells) && TreeOk(after, cells') && p in before
    requires q != [] && Parent(q) == p && after == Pruned(before, q)
    ensures p in after && after[p] == before[p] && Thinned(before, after, p) && q !in after
    ensures forall name, instance | Holds(cells'[after[p]].children, name, instance) ::
      Holds(cells[before[p]].children, name, instance) && Component(name, instance) != Last(q)
    ensures cells'[after[p]].children.Keys <= cells[before[p]].children.Keys
  {
    assert p < q;
    var t, t' := cells[before[p]].children, cells'[after[p]].children;
    forall name, instance | Holds(t', name, instance)
      ensures Holds(t, name, instance) && Component(name, instance) != Last(q)
    {
      var r := p + [Component(name, instance)];
      assert Parent(r) == p && Last(r) == Component(name, instance);
      TablesAreTree(after, cells', r);
      TablesAreTree(before, cells, r);
    }
    forall name | name in t' ensures name in t {
      NoEmptyTable(after, cells', p, name);
    }
  }

  lemma NoEmptyTable(tree: Tree, cells: Cells, p: Path, name: string)
    requires TreeOk(tree, cells) && p in tree && name in cells[tree[p]].children
    ensures exists instance :: Holds(cells[tree[p]].children, name, instance)
  {
    assert TablesOk(tree, cells, p);
    var table := cells[tree[p]].children[name];
    assert table.Keys != {};
    var instance :| instance in table;
    assert Holds(cells[tree[p]].children, name, instance);
  }

  lemma PrunedLeaf(before: Tree, after: Tree, p: Path)
    requires Thinned(before, after, p) && p in after && Leaf(after, p)
    ensures after - {p} == Pruned(before, p)
  {
    assert forall q | q in before :: p <= q <==> p < q || q == p;
  }

  /** A key that is the address or starts with it and a separator. */
  predicate Under(key: string, address: string) {
    key == address || address + "/" <= key
  }

  lemma {:induction false} RelativePrefix(p: Path, q: Path)
    requires ValidPath(p) && ValidPath(q) && p != [] && q != []
    ensures p < q <==> Relative(p) + "/" <= Relative(q)
    decreases |p|
  {
    hide RenderComponent, ValidComponent;
    assert p[0] in p && q[0] in q;
    ComponentText(p[0]);
    ComponentText(q[0]);
    var a, b := RenderComponent(p[0]), RenderComponent(q[0]);
    var x, y := (if |p| == 1 then "" else Relative(p[1..]) + "/"), (if |q| == 1 then "" else Relative(q[1..]));
    assert Relative(p) + "/" == a + "/" + x by {
      if |p| > 1 {
        Assoc(a + "/", Relative(p[1..]), "/");
      }
    }
    if |q| == 1 {
      SeparatorInPrefix(a, x, b);
    } else {
      assert Relative(q) == b + "/" + y;
      FirstLevelPrefix(a, x, b, y);
      if a == b {
        assert p[0] == q[0];
        if |p| > 1 {
          RelativePrefix(p[1..], q[1..]);
          assert p < q <==> p[1..] < q[1..];
        }
      } else {
        assert !(p < q);
      }
    }
  }

  lemma SeparatorInPrefix(a: string, x: string, b: string)
    requires C_SEPARATOR !in b
    ensures !(a + "/" + x <= b)
  {
    assert (a + "/" + x)[|a|] == C_SEPARATOR;
  }

  /** Strings with a separator are compared level by level. */
  lemma FirstLevelPrefix(a: string, x: string, b: string, y: string)
    requires C_SEPARATOR !in a && C_SEPARATOR !in b
    ensures a + "/" + x <= b + "/" + y <==> a == b && x <= y
  {
    var u, v := a + "/" + x, b + "/" + y;
    assert u[|a|] == C_SEPARATOR && v[|b|] == C_SEPARATOR;
    assert |a| < |b| ==> v[|a|] == b[|a|];
    assert |b| < |a| ==> u[|b|] == a[|b|];
    assert a == u[..|a|] && b == v[..|b|] && x == u[|a| + 1..] && y == v[|b| + 1..];
    if a == b && x <= y {
      assert v[..|u|] == u;
    }
  }

  /** Descent in the tree is what the addresses show. */
  lemma UnderIsDescent(p: Path, q: Path)
    requires ValidPath(p) && ValidPath(q) && p != []
    ensures p <= q <==> Under(Render(q), Render(p))
  {
    hide Relative;
    assert p <= q <==> p == q || p < q;
    if Render(p) == Render(q) {
      RenderInjective(p, q);
    }
    if q == [] {
      assert !(Render(p) + "/" <= Render(q));
    } else {
      RelativePrefix(p, q);
      Assoc("/", Relative(p), "/");
      assert Render(p) + "/" <= Render(q) <==> Relative(p) + "/" <= Relative(q) by {
        PrefixAfter("/", Relative(p) + "/", Relative(q));
      }
    }
  }

  lemma PrefixAfter(head: string, x: string, y: string)
    ensures head + x <= head + y <==> x <= y
  {
    assert x == (head + x)[|head|..] && y == (head + y)[|head|..];
    if x <= y {
      assert (head + y)[..|head + x|] == head + x;
    }
  }

  /** Removal deletes exactly the entries at and below the address and leaves every
      other one as it was. */
  lemma IndexAfterRemoval(tree: Tree, index: map<string, Node>, index': map<string, Node>, dying: set<Path>, p: Path)
    requires IndexOk(tree, index, dying) && IndexOk(Pruned(tree, p), index', dying)
    requires p in tree && p != [] && forall q | q in tree :: ValidPath(q)
    ensures index' == map k | k in index && !Under(k, Render(p)) :: index[k]
  {
    hide Render, ValidPath, Under;
    var after := Pruned(tree, p);
    forall k | k in index && !Under(k, Render(p))
      ensures k in index' && index'[k] == index[k]
    {
      var q :| q in tree && q !in dying && Render(q) == k;
      UnderIsDescent(p, q);
      assert q in after;
    }
    forall k | k in index'
      ensures k in index && !Under(k, Render(p))
    {
      var q :| q in after && q !in dying && Render(q) == k;
      UnderIsDescent(p, q);
      assert q in tree;
    }
  }

  // ---- renaming ----

  /** Where a path goes when the node at p becomes the node at p'. */
  ghost function Move(q: Path, p: Path, p': Path): Path {
    if p <= q then p' + q[|p|..] else q
  }

  /** Sibling paths, and no node already at or below the new one. */
  ghost predicate Movable(tree: Tree, p: Path, p': Path) {
    && p != [] && p' != [] && Parent(p) == Parent(p') && p in tree
    && (p' == p || forall q | q in tree :: !(p' <= q))
  }

  lemma MoveBack(q: Path, p: Path, p': Path)
    requires p != [] && p' != [] && Parent(p) == Parent(p') && (p' == p || !(p' <= q))
    ensures Move(Move(q, p, p'), p', p) == q
    ensures Move(q, p, p') == q <==> p == p' || !(p <= q)
  {
    assert |p| == |p'|;
    var r := Move(q, p, p');
    if p <= q {
      assert q == p + q[|p|..] && p' <= r && r[|p'|..] == q[|p|..];
      if p != p' {
        assert r[..|p'|] == p' && q[..|p|] == p;
      }
    }
  }

  /** The whole subtree moved along. */
  ghost function Moved(tree: Tree, p: Path, p': Path): Tree
    requires Movable(tree, p, p')
  {
    map r | r in (set q | q in tree :: Move(q, p, p')) && Move(r, p', p) in tree :: tree[Move(r, p', p)]
  }

  lemma MovedIs(tree: Tree, p: Path, p': Path)
    requires Movable(tree, p, p')
    ensures forall q | q in tree ::
      Move(q, p, p') in Moved(tree, p, p') && Moved(tree, p, p')[Move(q, p, p')] == tree[q]
    ensures forall r | r in Moved(tree, p, p') ::
      Move(r, p', p) in tree && r == Move(Move(r, p', p), p, p') && Moved(tree, p, p')[r] == tree[Move(r, p', p)]
    ensures Moved(tree, p, p').Values == tree.Values
  {
    hide Move;
    var after := Moved(tree, p, p');
    forall q | q in tree ensures Move(q, p, p') in after && after[Move(q, p, p')] == tree[q] {
      MoveBack(q, p, p');
    }
    forall r | r in after ensures r == Move(Move(r, p', p), p, p') {
      var q :| q in tree && r == Move(q, p, p');
      MoveBack(q, p, p');
    }
    forall n | n in tree.Values ensures n in after.Values {
      var q :| q in tree && tree[q] == n;
      assert after[Move(q, p, p')] == n;
    }
  }

  lemma MovedAt(tree: Tree, p: Path, p': Path, q: Path)
    requires Movable(tree, p, p') && q in tree
    ensures Move(q, p, p') in Moved(tree, p, p') && Moved(tree, p, p')[Move(q, p, p')] == tree[q]
  {
    hide Move;
    MovedIs(tree, p, p');
  }

  /** Cutting off a head and putting another in front leaves the last component. */
  lemma MoveBelow(q: Path, k: nat, head: Path)
    requires k < |q|
    ensures (head + q[k..]) != [] && Last(head + q[k..]) == Last(q)
    ensures Parent(head + q[k..]) == head + Parent(q)[k..]
  {
    assert (head + q[k..])[|head| + |q| - k - 1] == q[|q| - 1];
  }

  lemma MoveValid(q: Path, p: Path, p': Path)
    requires ValidPath(q) && ValidPath(p')
    ensures ValidPath(Move(q, p, p'))
  {
    hide ValidComponent;
    if p <= q {
      assert forall c | c in q[|p|..] :: c in q;
    }
  }

  lemma MoveSteps(q: Path, p: Path, p': Path)
    requires p != [] && p' != [] && Parent(p) == Parent(p')
    ensures Move(q, p, p') == [] <==> q == []
    ensures q != [] && q != p ==> Parent(Move(q, p, p')) == Move(Parent(q), p, p') && Last(Move(q, p, p')) == Last(q)
    ensures Move(p, p, p') == p' && Move(Parent(p), p, p') == Parent(p)
    ensures ValidPath(q) && ValidPath(p') ==> ValidPath(Move(q, p, p'))
  {
    hide ValidPath;
    assert |p| == |p'|;
    assert !(p <= Parent(p));
    assert p[|p|..] == [] && p' + [] == p';
    if q != [] && q != p {
      if p <= q {
        assert |p| < |q| && p <= Parent(q);
        MoveBelow(q, |p|, p');
      } else {
        assert !(p <= Parent(q));
      }
    }
    if ValidPath(q) && ValidPath(p') {
      MoveValid(q, p, p');
    }
  }

  /** The parent's table with one child under its new name and instance. */
  ghost predicate TableMoved(t: Tables, t': Tables, c: Component, c': Component, node: Node) {
    && (forall name | name in t' :: t'[name] != map[])
    && (forall name, instance | Holds(t', name, instance) ::
        if Component(name, instance) == c' then t'[name][instance] == node
        else Holds(t, name, instance) && Component(name, instance) != c && t'[name][instance] == t[name][instance])
    && (forall name, instance | Holds(t, name, instance) && Component(name, instance) != c :: Holds(t', name, instance))
    && Holds(t', c'.name, c'.instance)
  }

  ghost function MovedCells(tree: Tree, cells: Cells, p: Path, p': Path, t': Tables): Cells
    requires Movable(tree, p, p') && Parent(p) in tree
  {
    map n | n in cells ::
      var c := cells[n].(path := Move(cells[n].path, p, p'));
      if n == tree[p] then c.(name := Last(p').name, instance := Last(p').instance)
      else if n == tree[Parent(p)] then c.(children := t')
      else c
  }

  /** One node's table of children replaced, and another node's component. */
  ghost function Replaced(cells: Cells, up: Node, t: Tables, n: Node, c: Component): Cells
    requires up in cells && n in cells && n != up
  {
    cells[up := cells[up].(children := t)][n := cells[n].(name := c.name, instance := c.instance)]
  }

  lemma ReplacedTwice(cells: Cells, up: Node, s: Tables, t: Tables, n: Node, c: Component, d: Component)
    requires up in cells && n in cells && n != up
    ensures up in Replaced(cells, up, s, n, c) && n in Replaced(cells, up, s, n, c)
    ensures Replaced(Replaced(cells, up, s, n, c), up, t, n, d) == Replaced(cells, up, t, n, d)
  {
  }

  ghost function Relabelled(cells: Cells, p: Path, p': Path): (cells': Cells)
    ensures cells'.Keys == cells.Keys
  {
    map n | n in cells :: cells[n].(path := Move(cells[n].path, p, p'))
  }

  lemma RelabelledCells(tree: Tree, cells: Cells, p: Path, p': Path, t': Tables, mid: Cells)
    requires Movable(tree, p, p') && Parent(p) in tree && tree.Values <= cells.Keys && tree[p] != tree[Parent(p)]
    requires mid == Replaced(cells, tree[Parent(p)], t', tree[p], Last(p'))
    ensures MovedCells(tree, cells, p, p', t') == Relabelled(mid, p, p')
  {
    hide Move;
  }

  /** What a moved node's cell is. */
  lemma MovedFields(tree: Tree, cells: Cells, p: Path, p': Path, t': Tables, q: Path)
    requires TreeOk(tree, cells) && Movable(tree, p, p') && Parent(p) in tree && q in tree
    ensures tree[q] in MovedCells(tree, cells, p, p', t')
    ensures var c, c' := cells[tree[q]], MovedCells(tree, cells, p, p', t')[tree[q]];
      && c'.parent == c.parent && c'.path == Move(q, p, p')
      && (if q == p then c'.name == Last(p').name && c'.instance == Last(p').instance
          else c'.name == c.name && c'.instance == c.instance)
      && c'.children == if q == Parent(p) then t' else c.children
  {
    hide Move, ValidPath;
    assert NodeOk(tree, cells, q);
    NodesApart(tree, cells, p);
    if q != p {
      NodesDiffer(tree, cells, p, q);
    }
    if q != Parent(p) {
      NodesDiffer(tree, cells, Parent(p), q);
    }
  }

  lemma MovableMeans(tree: Tree, p: Path, p': Path)
    requires Movable(tree, p, p')
    ensures p != [] && p' != [] && Parent(p) == Parent(p') && p in tree
  {
  }

  lemma EntryAfterMove(t: Tables, t': Tables, c: Component, c': Component, node: Node, d: Component)
    requires TableMoved(t, t', c, c', node)
    ensures Holds(t', d.name, d.instance) ==>
      if d == c' then t'[d.name][d.instance] == node
      else Holds(t, d.name, d.instance) && d != c && t'[d.name][d.instance] == t[d.name][d.instance]
  {
    assert Component(d.name, d.instance) == d;
  }

  lemma HeldAfterMove(t: Tables, t': Tables, c: Component, c': Component, node: Node, d: Component)
    requires TableMoved(t, t', c, c', node)
    ensures Holds(t, d.name, d.instance) && d != c ==> Holds(t', d.name, d.instance)
    ensures Holds(t', c'.name, c'.instance)
  {
    assert Component(d.name, d.instance) == d;
  }

  lemma NodeOkAt(tree: Tree, cells: Cells, q: Path)
    requires TreeOk(tree, cells) && q in tree
    ensures cells.Keys == tree.Values && NodeOk(tree, cells, q) && TablesOk(tree, cells, q)
  {
  }

  lemma SameParent(p: Path, q: Path)
    requires p != [] && q != [] && Parent(p) == Parent(q)
    ensures Last(p) == Last(q) <==> p == q
  {
    assert q == Parent(q) + [Last(q)] && p == Parent(p) + [Last(p)];
  }

  /** The parent of a moved node still lists it. */
  lemma MovedHolds(tree: Tree, cells: Cells, p: Path, p': Path, t': Tables, q: Path)
    requires TreeOk(tree, cells) && Movable(tree, p, p')
    requires Parent(p) in tree && q in tree && q != [] && Parent(q) in tree
    requires TableMoved(cells[tree[Parent(p)]].children, t', Last(p), Last(p'), tree[p])
    ensures var c := if q == p then Last(p') else Last(q);
      Holds(if Parent(q) == Parent(p) then t' else cells[tree[Parent(q)]].children, c.name, c.instance)
  {
    hide ValidPath, Holds, TableMoved, TreeOk, Movable, TablesOk;
    MovableMeans(tree, p, p');
    NodeOkAt(tree, cells, q);
    HeldAfterMove(cells[tree[Parent(p)]].children, t', Last(p), Last(p'), tree[p], Last(q));
    if Parent(q) == Parent(p) {
      SameParent(p, q);
    }
  }

  lemma MovedNode(tree: Tree, cells: Cells, p: Path, p': Path, t': Tables, q: Path)
    requires TreeOk(tree, cells) && Movable(tree, p, p') && ValidPath(p') && Parent(p) in tree && q in tree
    requires TableMoved(cells[tree[Parent(p)]].children, t', Last(p), Last(p'), tree[p])
    requires Moved(tree, p, p').Values == tree.Values && Move(q, p, p') in Moved(tree, p, p')
    ensures NodeOk(Moved(tree, p, p'), MovedCells(tree, cells, p, p', t'), Move(q, p, p'))
  {
    hide Move, ValidPath, Moved, MovedCells, Holds, TableMoved, TreeOk, Movable, TablesOk;
    MovableMeans(tree, p, p');
    MovedAt(tree, p, p', q);
    MoveSteps(q, p, p');
    NodeOkAt(tree, cells, q);
    MovedFields(tree, cells, p, p', t', q);
    if q != [] {
      MovedHolds(tree, cells, p, p', t', q);
      MovedFields(tree, cells, p, p', t', Parent(q));
      MovedAt(tree, p, p', Parent(q));
    }
  }

  lemma MovedTables(tree: Tree, cells: Cells, p: Path, p': Path, t': Tables, q: Path)
    requires TreeOk(tree, cells) && Movable(tree, p, p') && ValidPath(p') && Parent(p) in tree && q in tree
    requires TableMoved(cells[tree[Parent(p)]].children, t', Last(p), Last(p'), tree[p])
    requires Moved(tree, p, p').Values == tree.Values && Move(q, p, p') in Moved(tree, p, p')
    ensures TablesOk(Moved(tree, p, p'), MovedCells(tree, cells, p, p', t'), Move(q, p, p'))
  {
    hide Move, ValidPath, Moved, MovedCells, TreeOk;
    var tree', cells' := Moved(tree, p, p'), MovedCells(tree, cells, p, p', t');
    MovedAt(tree, p, p', q);
    NodeOkAt(tree, cells, q);
    MovedFields(tree, cells, p, p', t', q);
    var r, t := Move(q, p, p'), cells'[tree[q]].children;
    assert tree'[r] == tree[q];
    forall name, instance | name in t && instance in t[name]
      ensures r + [Component(name, instance)] in tree' && t[name][instance] == tree'[r + [Component(name, instance)]]
    {
      MovedEntry(tree, cells, p, p', t', q, Component(name, instance));
    }
  }

  /** One entry of a table leads to the moved place of what it led to. */
  lemma MovedEntry(tree: Tree, cells: Cells, p: Path, p': Path, t': Tables, q: Path, c: Component)
    requires TreeOk(tree, cells) && Movable(tree, p, p') && Parent(p) in tree && q in tree
    requires TableMoved(cells[tree[Parent(p)]].children, t', Last(p), Last(p'), tree[p])
    requires Holds(if q == Parent(p) then t' else cells[tree[q]].children, c.name, c.instance)
    ensures var t := if q == Parent(p) then t' else cells[tree[q]].children;
      var child := Move(q, p, p') + [c];
      child in Moved(tree, p, p') && Moved(tree, p, p')[child] == t[c.name][c.instance]
  {
    hide Move, ValidPath, Moved, TreeOk, Movable, TableMoved, NodeOk, TablesOk;
    MovableMeans(tree, p, p');
    NodeOkAt(tree, cells, q);
    EntryAfterMove(cells[tree[Parent(p)]].children, t', Last(p), Last(p'), tree[p], c);
    ChildMoves(q, p, p', c);
    if q == Parent(p) && c == Last(p') {
      MovedAt(tree, p, p', p);
    } else {
      EntryOf(tree, cells, q, c);
      MovedAt(tree, p, p', q + [c]);
    }
  }

  lemma EntryOf(tree: Tree, cells: Cells, q: Path, c: Component)
    requires q in tree && tree.Values <= cells.Keys && TablesOk(tree, cells, q)
    requires Holds(cells[tree[q]].children, c.name, c.instance)
    ensures q + [c] in tree && cells[tree[q]].children[c.name][c.instance] == tree[q + [c]]
  {
    assert Component(c.name, c.instance) == c;
  }

  /** Where a child goes when its parent does. */
  lemma ChildMoves(q: Path, p: Path, p': Path, c: Component)
    requires p != [] && p' != [] && Parent(p) == Parent(p')
    ensures q == Parent(p) && c == Last(p') ==> Move(q, p, p') + [c] == Move(p, p, p')
    ensures q + [c] == p <==> q == Parent(p) && c == Last(p)
    ensures q + [c] != p ==> Move(q, p, p') + [c] == Move(q + [c], p, p')
  {
    hide Move;
    var x := q + [c];
    assert Parent(x) == q && Last(x) == c;
    assert p == Parent(p) + [Last(p)] && p' == Parent(p') + [Last(p')];
    MoveSteps(p, p, p');
    MoveSteps(x, p, p');
    if x != p {
      var child := Move(x, p, p');
      assert child == Parent(child) + [Last(child)];
    }
  }

  /** The whole subtree moved: tree and nodes still agree. */
  lemma MoveOk(tree: Tree, cells: Cells, p: Path, p': Path, t': Tables)
    requires TreeOk(tree, cells) && Movable(tree, p, p') && ValidPath(p') && Parent(p) in tree
    requires TableMoved(cells[tree[Parent(p)]].children, t', Last(p), Last(p'), tree[p])
    ensures TreeOk(Moved(tree, p, p'), MovedCells(tree, cells, p, p', t'))
  {
    hide Move, ValidPath, Moved, Movable, TableMoved, NodeOk, TablesOk;
    var tree', cells' := Moved(tree, p, p'), MovedCells(tree, cells, p, p', t');
    MovedIs(tree, p, p');
    forall r | r in tree' ensures NodeOk(tree', cells', r) && TablesOk(tree', cells', r) {
      var q := Move(r, p', p);
      MovedNode(tree, cells, p, p', t', q);
      MovedTables(tree, cells, p, p', t', q);
    }
  }

  lemma RelabelOk(tree: Tree, cells: Cells, p: Path, p': Path, t': Tables, mid: Cells)
    requires TreeOk(tree, cells) && Movable(tree, p, p') && ValidPath(p') && Parent(p) in tree
    requires tree[Parent(p)] != tree[p]
    requires TableMoved(cells[tree[Parent(p)]].children, t', Last(p), Last(p'), tree[p])
    requires mid == Replaced(cells, tree[Parent(p)], t', tree[p], Last(p'))
    ensures TreeOk(Moved(tree, p, p'), Relabelled(mid, p, p'))
    ensures Moved(tree, p, p').Values == tree.Values
    ensures p' in Moved(tree, p, p') && Moved(tree, p, p')[p'] == tree[p]
  {
    hide TreeOk, ValidPath, Move, Moved, TableMoved, MovedCells, Movable, Relabelled;
    MovableMeans(tree, p, p');
    NodeOkAt(tree, cells, p);
    MoveOk(tree, cells, p, p', t');
    MovedIs(tree, p, p');
    MoveSteps(p, p, p');
    RelabelledCells(tree, cells, p, p', t', mid);
  }

  /** The index after the one key of the moved node was replaced. */
  ghost function Rekeyed(
      index: map<string, Node>, oldAddress: string, newAddress: string, node: Node): map<string, Node>
  {
    (index - {oldAddress})[newAddress := node]
  }

  lemma LeafMoves(tree: Tree, p: Path, p': Path)
    requires Movable(tree, p, p') && (p == p' || Leaf(tree, p))
    ensures forall q | q in tree && (q != p || p == p') :: Move(q, p, p') == q && Move(q, p', p) == q
    ensures Move(p, p, p') == p' && Move(p', p', p) == p
  {
    MoveSteps(p, p, p');
    MoveSteps(p', p', p);
    forall q | q in tree && (q != p || p == p') ensures Move(q, p, p') == q && Move(q, p', p) == q {
      if p == p' && p <= q {
        assert p + q[|p|..] == q;
      }
    }
  }

  lemma MovedLeaf(tree: Tree, p: Path, p': Path)
    requires Movable(tree, p, p') && (p == p' || Leaf(tree, p))
    ensures Moved(tree, p, p') == if p == p' then tree else (tree - {p})[p' := tree[p]]
  {
    hide Move, Leaf;
    LeafMoves(tree, p, p');
    var moves := set q | q in tree :: Move(q, p, p');
    if p == p' {
      assert moves == tree.Keys;
    } else {
      assert p' in moves;
      assert moves == tree.Keys - {p} + {p'};
    }
  }

  lemma RekeyedLeaf(tree: Tree, index: map<string, Node>, p: Path, p': Path)
    requires IndexOk(tree, index, {}) && Movable(tree, p, p') && ValidPath(p') && forall q | q in tree :: ValidPath(q)
    requires p == p' || Leaf(tree, p)
    ensures IndexOk(Moved(tree, p, p'), Rekeyed(index, Render(p), Render(p'), tree[p]), {})
  {
    hide Render, ValidPath, Moved, IndexOk;
    MovedLeaf(tree, p, p');
    IndexedAt(tree, index, {}, p);
    if p == p' {
      assert Rekeyed(index, Render(p), Render(p'), tree[p]) == index;
    } else {
      var without := index - {Render(p)};
      IndexBegin(tree, index, {}, p);
      IndexEnd(tree, without, {} + {p}, p);
      assert {} + {p} - {p} == {};
      assert p' !in tree - {p};
      IndexedAt(tree - {p}, without, {}, p');
      IndexInsert(tree - {p}, without, p', tree[p]);
    }
  }

  lemma RekeyedInner(tree: Tree, index: map<string, Node>, p: Path, p': Path)
    requires IndexOk(tree, index, {}) && Movable(tree, p, p') && ValidPath(p') && forall q | q in tree :: ValidPath(q)
    requires p != p' && !Leaf(tree, p)
    ensures !IndexOk(Moved(tree, p, p'), Rekeyed(index, Render(p), Render(p'), tree[p]), {})
  {
    hide Render, ValidPath, Moved;
    var q :| q in tree && p < q;
    var r := Move(q, p, p');
    MovedAt(tree, p, p', q);
    MoveSteps(q, p, p');
    assert r != p' && p' <= r;
    var index' := Rekeyed(index, Render(p), Render(p'), tree[p]);
    if Render(r) in index' {
      if Render(r) == Render(p') {
        RenderInjective(r, p');
      }
      var x :| x in tree && Render(x) == Render(r);
      RenderInjective(x, r);
    }
  }

  /** After a rename the index still agrees exactly when nothing hangs below the
      node or its address did not change: the keys of its descendants are left. */
  lemma RekeyedExactly(tree: Tree, index: map<string, Node>, p: Path, p': Path)
    requires IndexOk(tree, index, {}) && Movable(tree, p, p') && ValidPath(p') && forall q | q in tree :: ValidPath(q)
    ensures IndexOk(Moved(tree, p, p'), Rekeyed(index, Render(p), Render(p'), tree[p]), {})
      <==> p == p' || Leaf(tree, p)
  {
    if p == p' || Leaf(tree, p) {
      RekeyedLeaf(tree, index, p, p');
    } else {
      RekeyedInner(tree, index, p, p');
    }
  }

  /** The parent's table with one entry taken out; the table of instances it was
      in may be left empty when it is the one under `name`. */
  ghost predicate TakenOut(t: Tables, s: Tables, c: Component, name: string) {
    && (forall d: Component :: Holds(s, d.name, d.instance) <==> Holds(t, d.name, d.instance) && d != c)
    && (forall d: Component | Holds(s, d.name, d.instance) :: s[d.name][d.instance] == t[d.name][d.instance])
    && (forall n | n in s && n != name :: s[n] != map[])
  }

  lemma TakenOutByName(t: Tables, c: Component, name: string)
    requires forall n | n in t :: t[n] != map[]
    ensures TakenOut(t, WithoutChild(t, c.name, c.instance), c, name)
  {
    hide WithoutChild;
    var s := WithoutChild(t, c.name, c.instance);
    forall d: Component
      ensures Holds(s, d.name, d.instance) <==> Holds(t, d.name, d.instance) && d != c
      ensures Holds(s, d.name, d.instance) ==> s[d.name][d.instance] == t[d.name][d.instance]
    {
      StillHeld(t, c.name, c.instance, d.name, d.instance);
    }
    forall n | n in s ensures s[n] != map[] {
      StillHeld(t, c.name, c.instance, n, "");
    }
  }

  lemma TakenOutByInstance(t: Tables, c: Component)
    requires (forall n | n in t :: t[n] != map[]) && c.name in t
    ensures TakenOut(t, t[c.name := t[c.name] - {c.instance}], c, c.name)
  {
  }

  lemma PutBack(t: Tables, s: Tables, c: Component, c': Component, node: Node)
    requires TakenOut(t, s, c, c'.name) && !Holds(s, c'.name, c'.instance)
    ensures TableMoved(t, WithChild(s, c'.name, c'.instance, node), c, c', node)
  {
    var t' := WithChild(s, c'.name, c'.instance, node);
    assert c'.instance in t'[c'.name];
    forall name, instance | Holds(t', name, instance)
      ensures if Component(name, instance) == c' then t'[name][instance] == node
        else Holds(t, name, instance) && Component(name, instance) != c && t'[name][instance] == t[name][instance]
    {
      var d := Component(name, instance);
      assert d != c' ==> Holds(s, d.name, d.instance);
    }
    forall name, instance | Holds(t, name, instance) && Component(name, instance) != c
      ensures Holds(t', name, instance)
    {
      var d := Component(name, instance);
      assert Holds(s, d.name, d.instance);
    }
  }

  lemma NoTrailingSeparator(q: Path, k: string)
    requires ValidPath(q) && Render(q) == k && k != "/"
    ensures k[|k| - 1] != C_SEPARATOR
  {
    hide Render;
    RenderIsRootOnly(q);
    var c := Last(q);
    assert q == Parent(q) + [c] && c in q;
    RenderSnoc(Parent(q), c);
    ComponentText(c);
  }

  lemma NoSeparatorLeft(oldAddress: string, oldKey: string)
    requires Canonical(oldKey) && oldAddress != "" && oldAddress != S_SEPARATOR && oldAddress <= oldKey
    ensures var t := oldKey[|oldAddress|..]; t != S_SEPARATOR && (t == "" <==> oldKey == oldAddress)
  {
    hide Render, ValidPath;
    var q := Parse(oldKey);
    var t := oldKey[|oldAddress|..];
    assert oldKey == oldAddress + t;
    if oldKey != S_SEPARATOR {
      NoTrailingSeparator(q, oldKey);
    }
  }

  lemma RekeyedSize(m: map<string, Node>, a: string, b: string)
    requires a in m && (b == a || b !in m)
    ensures |Rekeyed(m, a, b, m[a])| == |m|
  {
    assert Rekeyed(m, a, b, m[a]).Keys == m.Keys - {a} + {b};
  }

  /** Where a rename takes the node at p: to the component wished for, or, when a
      sibling has that one, to the same name with a generated instance. */
  ghost predicate Renamed(tree: Tree, p: Path, wished: Component, p': Path, created: bool)
    requires p != []
  {
    && p' != [] && Parent(p') == Parent(p) && Last(p').name == wished.name
    && (created <==> Parent(p) + [wished] in tree - {p})
    && if created then Generated(Used(tree - {p}, Parent(p), wished.name), Last(p').instance) else Last(p') == wished
  }

  /** When a rename leaves the path as it was. */
  lemma RenamedInPlace(tree: Tree, p: Path, wished: Component, p': Path, created: bool)
    requires p != [] && Renamed(tree, p, wished, p', created)
    ensures wished.name != Last(p).name ==> p' != p
    ensures wished.name == Last(p).name ==> (p' == p <==>
      wished == Last(p) || (Parent(p) + [wished] in tree - {p}
                            && Generated(Used(tree - {p}, Parent(p), wished.name), Last(p).instance)))
  {
    hide Used, Generated;
    assert p == Parent(p) + [Last(p)] && p' == Parent(p') + [Last(p')];
    var used := Used(tree - {p}, Parent(p), wished.name);
    if created && wished.name == Last(p).name && Generated(used, Last(p).instance) {
      GeneratedUnique(used, Last(p).instance, Last(p').instance);
    }
  }

  lemma SiblingUsed(tree: Tree, p: Path, q: Path, name: string)
    requires p != [] && q != [] && Parent(q) == Parent(p) && Last(q).name == name
    ensures q in tree - {p} ==> Last(q).instance in Used(tree - {p}, Parent(p), name)
  {
  }

  lemma PrefixPresent(tree: Tree, cells: Cells, p: Path, q: Path)
    requires TreeOk(tree, cells) && q in tree
    ensures p <= q ==> p in tree
  {
    hide TreeOk;
    PrefixesPresent(tree, cells, q);
    assert p <= q ==> q[..|p|] == p;
  }

  lemma RenamedMovable(tree: Tree, cells: Cells, p: Path, wished: Component, p': Path, created: bool)
    requires TreeOk(tree, cells) && p in tree && p != [] && ValidComponent(wished)
    requires Renamed(tree, p, wished, p', created)
    ensures Movable(tree, p, p') && ValidPath(p') && Parent(p) in tree
    ensures p' == p || p' !in tree
  {
    hide Generated;
    var used := Used(tree - {p}, Parent(p), wished.name);
    if created {
      GeneratedIsFree(used, Last(p').instance);
      GeneratedIsPlain(used, Last(p').instance);
    }
    assert NodeOk(tree, cells, p);
    assert p' == Parent(p') + [Last(p')] && p == Parent(p) + [Last(p)];
    SiblingUsed(tree, p, p', wished.name);
    forall q | q in tree && p' != p ensures !(p' <= q) {
      PrefixPresent(tree, cells, p', q);
    }
  }

  /** The instances in the parent's table once the node itself is out of it. */
  lemma UsedWithout(tree: Tree, cells: Cells, p: Path, s: Tables, name: string)
    requires TreeOk(tree, cells) && p in tree && p != [] && Parent(p) in tree
    requires TakenOut(cells[tree[Parent(p)]].children, s, Last(p), name)
    ensures Used(tree - {p}, Parent(p), name) == if name in s then s[name].Keys else {}
    ensures forall instance :: Holds(s, name, instance) <==> Parent(p) + [Component(name, instance)] in tree - {p}
  {
    hide TreeOk;
    var used := Used(tree - {p}, Parent(p), name);
    assert p == Parent(p) + [Last(p)];
    forall instance
      ensures instance in used <==> Holds(s, name, instance)
      ensures Holds(s, name, instance) <==> Parent(p) + [Component(name, instance)] in tree - {p}
    {
      var d := Component(name, instance);
      var q := Parent(p) + [d];
      assert Parent(q) == Parent(p) && Last(q) == d;
      TablesAreTree(tree, cells, q);
      assert Holds(s, d.name, d.instance) <==> q in tree && q != p;
      if instance in used {
        var x :| x in tree - {p} && x != [] && Parent(x) == Parent(p)
          && Last(x).name == name && Last(x).instance == instance;
        assert x == Parent(x) + [Last(x)];
      }
    }
  }

  lemma NodesApart(tree: Tree, cells: Cells, q: Path)
    requires TreeOk(tree, cells) && q in tree && q != []
    ensures Parent(q) in tree && tree[q] != tree[Parent(q)]
  {
    assert NodeOk(tree, cells, q);
    assert |Parent(q)| < |q|;
    NodesDiffer(tree, cells, q, Parent(q));
  }

  // ---- creation ----

  /** Creation changes no entry and adds exactly the addresses of the new nodes. */
  lemma IndexAfterCreation(tree: Tree, tree': Tree, index: map<string, Node>, index': map<string, Node>)
    requires IndexOk(tree, index, {}) && IndexOk(tree', index', {})
    requires forall q | q in tree :: q in tree' && tree'[q] == tree[q]
    ensures forall k | k in index :: k in index' && index'[k] == index[k]
    ensures index'.Keys == index.Keys + set q | q in tree' && q !in tree :: Render(q)
  {
    hide Render;
    forall k | k in index ensures k in index' && index'[k] == index[k] {
      var q :| q in tree && Render(q) == k;
      assert q in tree';
    }
    forall k | k in index' && k !in index
      ensures exists q | q in tree' && q !in tree :: Render(q) == k
    {
      var q :| q in tree' && Render(q) == k;
    }
  }

  /** The index is closed under the parent address that splitOSCAddress reports. */
  lemma IndexParentClosed(tree: Tree, cells: Cells, index: map<string, Node>, k: string)
    requires TreeOk(tree, cells) && IndexOk(tree, index, {}) && k in index && k != S_SEPARATOR
    ensures Split(k).parent in index && index[Split(k).parent] == cells[index[k]].parent
  {
    hide Render, Split;
    FoundInIndex(tree, index, {}, k);
    var p :| p in tree && k == Render(p) && index[k] == tree[p];
    assert NodeOk(tree, cells, p);
    SplitOfPath(p);
    RenderIsRootOnly(p);
    assert Render(Parent(p)) in index;
  }

  /** The instances in use under a name below p. */
  ghost function Used(tree: Tree, p: Path, name: string): set<string> {
    set q | q in tree && q != [] && Parent(q) == p && Last(q).name == name :: Last(q).instance
  }

  /** The names in use below p. */
  ghost function NamesUsed(tree: Tree, p: Path): set<string> {
    set q | q in tree && q != [] && Parent(q) == p :: Last(q).name
  }

  /** The nodes created on the way are empty containers; `node` may be what the caller asked for. */
  ghost predicate Containers(before: Tree, after: Tree, node: Node?) {
    forall q | q in after && q !in before && after[q] != node ::
      after[q].kind == "container" && after[q].object_ == null && after[q].context == null
  }

  lemma SplitOfPath(p: Path)
    requires ValidPath(p)
    ensures Split(Render(p)) == PartsOf(p, NONE)
    ensures p != [] ==> ValidPath(Parent(p)) && ValidComponent(Last(p))
  {
    hide Render, Split;
    SplitOfRender(p, NONE);
  }

  /** The path with another instance. */
  function Sibling(p: Path, instance: string): Path {
    if p == [] then [] else Parent(p) + [Component(Last(p).name, instance)]
  }

  lemma SiblingValid(p: Path, instance: string)
    requires ValidPath(p) && (p != [] ==> PlainText(instance))
    ensures ValidPath(Sibling(p, instance))
  {
    if p != [] {
      assert Last(p) in p;
    }
  }

  /** The missing nodes on the way to p, from the top down. */
  ghost function Missing(tree: Tree, p: Path): seq<Path> {
    if p in tree then [] else if p == [] then [[]] else Missing(tree, Parent(p)) + [p]
  }

  /** The prefixes that are missing, the shortest first. */
  lemma {:induction false} MissingInOrder(tree: Tree, cells: Cells, p: Path)
    requires TreeOk(tree, cells)
    ensures |Missing(tree, p)| <= |p| + 1
    ensures forall i | 0 <= i < |Missing(tree, p)| :: Missing(tree, p)[i] == p[..|p| + 1 - |Missing(tree, p)| + i]
    ensures forall i | 0 <= i <= |p| :: p[..i] in tree <==> i + |Missing(tree, p)| < |p| + 1
    decreases |p|
  {
    hide TreeOk;
    assert p[..|p|] == p;
    if p in tree {
      PrefixesPresent(tree, cells, p);
    } else if p != [] {
      MissingInOrder(tree, cells, Parent(p));
      var above := Missing(tree, Parent(p));
      forall i | 0 <= i < |p| ensures p[..i] == Parent(p)[..i] {
      }
    }
  }

  lemma MissingNext(tree: Tree, p: Path)
    ensures p in tree ==> Missing(tree, p) == []
    ensures p != [] && Parent(p) in tree ==> Missing(tree, Parent(p)) == []
    ensures p !in tree ==> Missing(tree, p) == if p == [] then [p] else Missing(tree, Parent(p)) + [p]
  {
  }

  /** What TTNodeCreate does to the tree: a free path is filled, with every missing
      prefix; for a taken one exactly one sibling appears, with a generated instance. */
  ghost predicate Created(before: Tree, after: Tree, p: Path, q: Path) {
    if p in before then
      && p != [] && q != [] && q == Sibling(p, Last(q).instance)
      && Generated(Used(before, Parent(p), Last(p).name), Last(q).instance)
      && Grew(before, after, {q})
    else q == p && Grew(before, after, Prefixes(p))
  }

  /** Written out: what a creation adds to the tree, and what the ancestors it made are. */
  lemma CreatedMeans(before: Tree, after: Tree, p: Path, q: Path, node: Node)
    requires Created(before, after, p, q) && Containers(before, after, node)
    ensures before.Keys <= after.Keys && forall x | x in before :: after[x] == before[x]
    ensures p !in before ==> q == p && forall x :: x in after && x !in before <==> x !in before && x <= p
    ensures p in before ==> q !in before && p != [] && q != [] && q[..|q| - 1] == p[..|p| - 1]
    ensures p in before ==> q[|q| - 1].name == p[|p| - 1].name && after.Keys == before.Keys + {q}
    ensures forall x | x in after && x !in before && after[x] != node ::
      after[x].kind == "container" && after[x].object_ == null && after[x].context == null
  {
    if p !in before {
      forall x | x <= p ensures x in Prefixes(p) {
        assert x == p[..|x|];
      }
    }
  }

  lemma EmptyOk(cells: Cells)
    requires cells == map[]
    ensures TreeOk(map[], cells) && IndexOk(map[], map[], {})
  {
    var none: Tree := map[];
    assert none.Values == {};
  }

  /** The node reached by following the parent pointer k times. */
  ghost function Climb(cells: Cells, n: Node?, k: nat): Node? {
    if k == 0 then n else if n == null || n !in cells then null else Climb(cells, cells[n].parent, k - 1)
  }

  /** Every chain of parent pointers leads up through the ancestors, in order. */
  lemma {:induction false} ParentsLeadUp(tree: Tree, cells: Cells, p: Path, k: nat)
    requires TreeOk(tree, cells) && p in tree && k <= |p|
    ensures p[..|p| - k] in tree && Climb(cells, tree[p], k) == tree[p[..|p| - k]]
    decreases |p|
  {
    hide TreeOk, TablesOk, ValidPath;
    NodeOkAt(tree, cells, p);
    if k == 0 {
      assert p[..|p|] == p;
    } else {
      ParentsLeadUp(tree, cells, Parent(p), k - 1);
      assert Parent(p)[..|p| - k] == p[..|p| - k];
    }
  }

  /** Every chain of parent pointers ends at the root, which has no parent. */
  lemma RootPresent(tree: Tree, cells: Cells)
    requires TreeOk(tree, cells)
    ensures tree == map[] || [] in tree
    ensures forall p | p in tree :: Climb(cells, tree[p], |p|) == tree[[]] && Climb(cells, tree[p], |p| + 1) == null
  {
    hide TablesOk, ValidPath, Climb;
    if tree != map[] {
      assert tree.Keys != {};
      var q :| q in tree;
      PrefixesPresent(tree, cells, q);
      assert q[..0] == [];
    }
    forall p | p in tree
      ensures Climb(cells, tree[p], |p|) == tree[[]] && Climb(cells, tree[p], |p| + 1) == null
    {
      ParentsLeadUp(tree, cells, p, |p|);
      assert p[..0] == [];
      ClimbOnce(cells, tree[p], |p|);
      assert NodeOk(tree, cells, []);
    }
  }

  lemma {:induction false} ClimbOnce(cells: Cells, n: Node?, k: nat)
    ensures Climb(cells, n, k + 1) ==
      var m := Climb(cells, n, k); if m == null || m !in cells then null else cells[m].parent
  {
    if k > 0 && n != null && n in cells {
      ClimbOnce(cells, cells[n].parent, k - 1);
    }
  }

  lemma RootInserted(tree: Tree, cells: Cells, node: Node)
    requires TreeOk(tree, cells) && [] !in tree
    ensures tree == map[] && Missing(tree, []) == [[]]
    ensures Created(tree, tree[[] := node], [], []) && Containers(tree, tree[[] := node], node)
  {
    var root: Path := [];
    RootPresent(tree, cells);
    assert root[..0] == root && Prefixes(root) == {root};
  }

  lemma RootCreated(tree: Tree, index: map<string, Node>, q: Path)
    requires Created(map[], tree, [], q) && IndexOk(tree, index, {})
    ensures tree.Keys == {[]} && q == [] && index.Keys == {S_SEPARATOR}
  {
    hide Render;
    var none: Tree := map[];
    var root: Path := [];
    assert root[..0] == root && Prefixes(root) == {root};
    assert IndexOk(none, map[], {});
    IndexAfterCreation(none, tree, map[], index);
    RenderRoot();
    assert (set r | r in tree && r !in none :: Render(r)) == {S_SEPARATOR};
  }

  /** The new path is still free after its ancestors were created. */
  lemma FreshSibling(before: Tree, after: Tree, p: Path, q: Path)
    requires p != [] && q != [] && Parent(q) == Parent(p) && Last(q).name == Last(p).name
    requires Grew(before, after, Prefixes(Parent(p)))
    requires if p in before then Generated(Used(before, Parent(p), Last(p).name), Last(q).instance) else q == p
    ensures q !in after
  {
    assert q in before ==> Last(q).instance in Used(before, Parent(p), Last(p).name);
    assert forall x | x in Prefixes(Parent(p)) :: |x| < |q|;
  }

  lemma CreatedByInsert(before: Tree, between: Tree, after: Tree, p: Path, q: Path, node: Node)
    requires p != [] && q != [] && q !in between && after == between[q := node] && q == Sibling(p, Last(q).instance)
    requires Grew(before, between, Prefixes(Parent(p))) && Containers(before, between, null)
    requires if p in before then
        Generated(Used(before, Parent(p), Last(p).name), Last(q).instance) && Prefixes(Parent(p)) <= before.Keys
      else q == p
    ensures Created(before, after, p, q) && Containers(before, after, node)
  {
    if p !in before {
      assert Prefixes(p) == Prefixes(Parent(p)) + {p} by {
        assert p[..|p|] == p;
        assert forall i | 0 <= i < |p| :: p[..i] == Parent(p)[..i];
      }
    }
  }

  // ---- observers ----

  type Observer = object // a TTCallback

  type Observers = map<string, seq<Observer>>

  datatype Flag = AddressDestroyed | AddressCreated

  datatype Notice = Notice(address: string, observer: Observer, flag: Flag)

  ghost predicate Enumerates(keys: seq<string>, s: set<string>) {
    && (forall k :: k in keys <==> k in s)
    && (forall i, j :: 0 <= i < j < |keys| ==> keys[i] != keys[j])
  }

  /** An observer at q hears of p: p matches q or lies below it. */
  ghost predicate Hears(q: Path, p: Path) {
    Compare(p, q) == Equal || Compare(p, q) == Lower
  }

  /** Among keys that are addresses, those reached are those that hear. */
  ghost predicate ReachedRightly(p: Path, keys: seq<string>, reached: set<string>) {
    forall q | ValidPath(q) && Render(q) in keys :: Render(q) in reached <==> Hears(q, p)
  }

  lemma ReachedNextKey(p: Path, keys: seq<string>, reached: set<string>, key: string, hears: bool)
    requires ReachedRightly(p, keys, reached) && key !in keys && key !in reached
    requires forall q | ValidPath(q) && Render(q) == key :: hears == Hears(q, p)
    ensures ReachedRightly(p, keys + [key], if hears then reached + {key} else reached)
  {
    hide Render, Hears, ValidPath;
  }

  /** Between nodes, whose names contain no wildcard: the observers at the node itself
      and at its ancestors, and no others. */
  lemma HearsSelfAndBelow(q: Path, p: Path)
    requires WildcardFree(p) && WildcardFree(q)
    ensures Hears(q, p) <==> q <= p
  {
    CompareIsDescent(p, q);
  }

  /** Written out: every level of the observed address is matched, a whole "*" by any name
      or instance; what follows below does not matter. */
  lemma HearsMeans(q: Path, p: Path)
    ensures Hears(q, p) <==> |q| <= |p| && forall i :: 0 <= i < |q| ==>
      && (p[i].name == q[i].name || p[i].name == "*" || q[i].name == "*")
      && (p[i].instance == q[i].instance || p[i].instance == "*" || q[i].instance == "*")
  {
    hide MatchesPrefix, Compare;
    CompareMeaning(p, q);
  }

  lemma {:induction false} NoticesOfOthers(
      observers: map<string, seq<Observer>>, keys: seq<string>, reached: set<string>,
      key: string, address: string, flag: Flag)
    requires key !in keys
    ensures Notices(observers, keys, reached + {key}, address, flag) == Notices(observers, keys, reached, address, flag)
  {
    if keys != [] {
      NoticesOfOthers(observers, keys[..|keys| - 1], reached, key, address, flag);
    }
  }

  ghost function NoticesOf(list: seq<Observer>, address: string, flag: Flag): seq<Notice> {
    seq(|list|, i requires 0 <= i < |list| => Notice(address, list[i], flag))
  }

  /** What notifying the reached lists, key by key, amounts to. */
  ghost function Notices(
      observers: map<string, seq<Observer>>, keys: seq<string>, reached: set<string>,
      address: string, flag: Flag): seq<Notice>
  {
    if keys == [] then []
    else
      var k := keys[|keys| - 1];
      Notices(observers, keys[..|keys| - 1], reached, address, flag)
      + if k in reached && k in observers then NoticesOf(observers[k], address, flag) else []
  }

  lemma SeqAssoc<T>(a: seq<T>, b: seq<T>, c: seq<T>)
    ensures (a + b) + c == a + (b + c)
    ensures a + [] == a
  {
  }

  lemma NoneNotified(observers: map<string, seq<Observer>>, address: string, flag: Flag)
    ensures Notices(observers, [], {}, address, flag) == []
  {
  }

  lemma {:induction false} NobodyToNotify(order: seq<string>, reached: set<string>, address: string, flag: Flag)
    ensures Notices(map[], order, reached, address, flag) == []
  {
    if order != [] {
      NobodyToNotify(order[..|order| - 1], reached, address, flag);
    }
  }

  lemma ToldNobody(log: seq<Path>, notified: seq<Notice>)
    requires log == [[]] && Told(map[], AddressCreated, [], log, [], notified)
    ensures notified == []
  {
    hide Render;
    var none: Observers := map[];
    assert log[|log[..0]|..] == log && notified[|notified[..0]|..] == notified && log[..0] == [];
    var k :| 0 <= k <= |notified| && TellsAll(none, AddressCreated, log[..0], notified[..k])
      && Tells(none, AddressCreated, log[0], notified[k..]);
    var order, reached :| Enumerates(order, none.Keys) && reached <= none.Keys
      && notified[k..] == Notices(none, order, reached, Render(log[0]), AddressCreated);
    NobodyToNotify(order, reached, Render(log[0]), AddressCreated);
    assert notified == notified[..k] + notified[k..];
  }

  lemma NoObservers(observers: Observers, flag: Flag, p: Path)
    requires |observers| == 0
    ensures Enumerates([], observers.Keys) && ReachedRightly(p, [], {})
    ensures Notices(observers, [], {}, Render(p), flag) == []
  {
    hide Render;
    assert observers.Keys == {};
  }

  lemma NoticesNextKey(
      observers: map<string, seq<Observer>>, keys: seq<string>, reached: set<string>, key: string, hears: bool,
      address: string, flag: Flag)
    requires key !in keys && key !in reached && key in observers
    ensures Notices(observers, keys + [key], if hears then reached + {key} else reached, address, flag)
      == Notices(observers, keys, reached, address, flag)
        + if hears then NoticesOf(observers[key], address, flag) else []
  {
    NoticesOfOthers(observers, keys, reached, key, address, flag);
    assert (keys + [key])[..|keys|] == keys;
  }

  /** The loop over the observer keys, after these. */
  ghost predicate NotifiedSoFar(observers: Observers, p: Path, address: string, flag: Flag,
      keys: seq<string>, reached: set<string>, err: bool, told: seq<Notice>)
  {
    && (forall k | k in reached :: k in keys && k in observers) && ReachedRightly(p, keys, reached)
    && told == Notices(observers, keys, reached, address, flag)
    && (err <==> forall k | k in reached :: observers[k] == [])
  }

  lemma NotifiedNone(observers: Observers, p: Path, address: string, flag: Flag)
    ensures NotifiedSoFar(observers, p, address, flag, [], {}, true, [])
  {
    hide Hears;
    NoneNotified(observers, address, flag);
  }

  lemma NotifiedNext(observers: Observers, p: Path, address: string, flag: Flag,
      keys: seq<string>, reached: set<string>, err: bool, told: seq<Notice>, key: string, hears: bool)
    requires NotifiedSoFar(observers, p, address, flag, keys, reached, err, told) && key !in keys && key in observers
    requires forall q | ValidPath(q) && Render(q) == key :: hears == Hears(q, p)
    ensures NotifiedSoFar(observers, p, address, flag, keys + [key], if hears then reached + {key} else reached,
      err && (hears ==> observers[key] == []), told + if hears then NoticesOf(observers[key], address, flag) else [])
  {
    hide Render, ValidPath, Hears, NoticesOf, Notices, ReachedRightly;
    ReachedNextKey(p, keys, reached, key, hears);
    NoticesNextKey(observers, keys, reached, key, hears, address, flag);
  }

  lemma NotifiedAll(observers: Observers, p: Path, address: string, flag: Flag,
      keys: seq<string>, reached: set<string>, err: bool, told: seq<Notice>)
    requires NotifiedSoFar(observers, p, address, flag, keys, reached, err, told)
    ensures reached <= observers.Keys && ReachedRightly(p, keys, reached)
    ensures told == Notices(observers, keys, reached, address, flag)
    ensures err <==> forall k | k in reached :: observers[k] == []
  {
    hide ReachedRightly, Notices;
  }

  /** What is told when a node comes or goes: the lists at the keys that hear of it,
      key after key in an order the hash decides. */
  ghost predicate Tells(observers: Observers, flag: Flag, p: Path, told: seq<Notice>) {
    exists order: seq<string>, reached: set<string> ::
      && Enumerates(order, observers.Keys) && reached <= observers.Keys && ReachedRightly(p, order, reached)
      && told == Notices(observers, order, reached, Render(p), flag)
  }

  /** What is told of a log of nodes, one after the other. */
  ghost predicate TellsAll(observers: Observers, flag: Flag, log: seq<Path>, told: seq<Notice>)
    decreases |log|
  {
    if log == [] then told == []
    else exists k | 0 <= k <= |told| ::
      && TellsAll(observers, flag, log[..|log| - 1], told[..k])
      && Tells(observers, flag, log[|log| - 1], told[k..])
  }

  /** Between two states: what was notified is what had to be told of the log's new entries. */
  ghost predicate Told(
      observers: Observers, flag: Flag, log: seq<Path>, log': seq<Path>, notified: seq<Notice>, notified': seq<Notice>)
  {
    log <= log' && notified <= notified' && TellsAll(observers, flag, log'[|log|..], notified'[|notified|..])
  }

  lemma ToldNothing(observers: Observers, flag: Flag, log: seq<Path>, notified: seq<Notice>)
    ensures Told(observers, flag, log, log, notified, notified)
  {
  }

  lemma ToldOnce(observers: Observers, flag: Flag, log: seq<Path>, p: Path, notified: seq<Notice>, told: seq<Notice>)
    requires Tells(observers, flag, p, told)
    ensures Told(observers, flag, log, log + [p], notified, notified + told)
  {
    hide Tells;
    var one: seq<Path> := [p];
    assert (log + one)[|log|..] == one && (notified + told)[|notified|..] == told;
    assert one[..0] == [] && told[..0] == [] && told[0..] == told;
    assert TellsAll(observers, flag, one[..|one| - 1], told[..0]);
  }

  lemma {:induction false} TellsAllAgain(
      observers: Observers, flag: Flag, log: seq<Path>, more: seq<Path>, told: seq<Notice>, further: seq<Notice>)
    requires TellsAll(observers, flag, log, told) && TellsAll(observers, flag, more, further)
    ensures TellsAll(observers, flag, log + more, told + further)
    decreases |more|
  {
    hide Tells;
    if more == [] {
      assert log + more == log && told + further == told;
    } else {
      var init, p := more[..|more| - 1], more[|more| - 1];
      var k :| 0 <= k <= |further| && TellsAll(observers, flag, init, further[..k])
        && Tells(observers, flag, p, further[k..]);
      TellsAllAgain(observers, flag, log, init, told, further[..k]);
      var all, m := told + further, |told| + k;
      assert (log + more)[..|log + more| - 1] == log + init;
      assert all[..m] == told + further[..k] && all[m..] == further[k..];
    }
  }

  lemma ToldAgain(
      observers: Observers, flag: Flag,
      l0: seq<Path>, l1: seq<Path>, l2: seq<Path>, n0: seq<Notice>, n1: seq<Notice>, n2: seq<Notice>)
    requires Told(observers, flag, l0, l1, n0, n1) && Told(observers, flag, l1, l2, n1, n2)
    ensures Told(observers, flag, l0, l2, n0, n2)
  {
    hide TellsAll;
    TellsAllAgain(observers, flag, l1[|l0|..], l2[|l1|..], n1[|n0|..], n2[|n1|..]);
    assert l2[|l0|..] == l1[|l0|..] + l2[|l1|..];
    assert n2[|n0|..] == n1[|n0|..] + n2[|n1|..];
  }

  lemma {:induction false} NoticesMean(
      observers: Observers, keys: seq<string>, reached: set<string>, address: string, flag: Flag, n: Notice)
    requires forall k | k in keys :: k in observers
    ensures n in Notices(observers, keys, reached, address, flag) <==>
      n.address == address && n.flag == flag && exists k :: k in keys && k in reached && n.observer in observers[k]
  {
    if keys != [] {
      var init, k := keys[..|keys| - 1], keys[|keys| - 1];
      NoticesMean(observers, init, reached, address, flag, n);
      assert keys == init + [k];
      var own := NoticesOf(observers[k], address, flag);
      assert n in own <==> n.address == address && n.flag == flag && n.observer in observers[k] by {
        if n.address == address && n.flag == flag && n.observer in observers[k] {
          var i :| 0 <= i < |observers[k]| && observers[k][i] == n.observer;
          assert own[i] == n;
        }
      }
    }
  }

  /** The observers of these lists, one list after the other. */
  ghost function Listed(observers: Observers, keys: seq<string>): seq<Observer>
    requires forall k | k in keys :: k in observers
  {
    if keys == [] then [] else Listed(observers, keys[..|keys| - 1]) + observers[keys[|keys| - 1]]
  }

  /** One notice for each observer, in order. */
  ghost predicate OneForEach(told: seq<Notice>, list: seq<Observer>, address: string, flag: Flag) {
    |told| == |list| && forall i | 0 <= i < |list| :: told[i] == Notice(address, list[i], flag)
  }

  lemma {:induction false} NoticesInOrder(
      observers: Observers, order: seq<string>, reached: set<string>, address: string, flag: Flag)
    returns (keys: seq<string>)
    requires (forall k | k in order :: k in observers) && forall i, j :: 0 <= i < j < |order| ==> order[i] != order[j]
    ensures forall i, j :: 0 <= i < j < |keys| ==> keys[i] != keys[j]
    ensures forall k :: k in keys <==> k in order && k in reached
    ensures OneForEach(Notices(observers, order, reached, address, flag), Listed(observers, keys), address, flag)
  {
    hide NoticesOf, Listed, OneForEach;
    keys := [];
    if order == [] {
      ListedNone(observers, address, flag);
    } else {
      var init, k := order[..|order| - 1], order[|order| - 1];
      assert order == init + [k];
      keys := NoticesInOrder(observers, init, reached, address, flag);
      if k in reached {
        ListedNext(observers, keys, k, Notices(observers, init, reached, address, flag), address, flag);
        keys := keys + [k];
      } else {
        var none: seq<Notice> := [];
        SeqAssoc(Notices(observers, init, reached, address, flag), none, none);
      }
    }
  }

  lemma ListedNone(observers: Observers, address: string, flag: Flag)
    ensures OneForEach([], Listed(observers, []), address, flag)
  {
  }

  lemma ListedNext(observers: Observers, keys: seq<string>, k: string, told: seq<Notice>, address: string, flag: Flag)
    requires (forall key | key in keys :: key in observers) && k in observers
    requires OneForEach(told, Listed(observers, keys), address, flag)
    ensures forall key | key in keys + [k] :: key in observers
    ensures OneForEach(
      told + NoticesOf(observers[k], address, flag), Listed(observers, keys + [k]), address, flag)
  {
    assert (keys + [k])[..|keys|] == keys;
    assert Listed(observers, keys + [k]) == Listed(observers, keys) + observers[k];
  }

  /** The keys that hear of a node, each once, in some order. */
  ghost predicate HearingKeys(observers: Observers, p: Path, keys: seq<string>) {
    && (forall i, j :: 0 <= i < j < |keys| ==> keys[i] != keys[j])
    && forall k :: k in keys <==> k in observers && Hears(Parse(k), p)
  }

  /** With every observer at a canonical address, what is told of a node is one notice for each
      observer in the lists at the keys that hear of it: list after list, each in its order. */
  lemma ToldInOrder(observers: Observers, flag: Flag, p: Path, told: seq<Notice>) returns (keys: seq<string>)
    requires Tells(observers, flag, p, told) && forall k | k in observers :: Canonical(k)
    ensures HearingKeys(observers, p, keys)
    ensures |told| == |Listed(observers, keys)|
    ensures forall i | 0 <= i < |told| :: told[i] == Notice(Render(p), Listed(observers, keys)[i], flag)
  {
    hide Render, ValidPath, Hears, Notices, Parse, Listed;
    var order, reached :| Enumerates(order, observers.Keys) && reached <= observers.Keys
      && ReachedRightly(p, order, reached) && told == Notices(observers, order, reached, Render(p), flag);
    keys := NoticesInOrder(observers, order, reached, Render(p), flag);
    forall k ensures k in keys <==> k in observers && Hears(Parse(k), p) {
      if k in observers {
        assert Canonical(k) && Render(Parse(k)) == k;
      }
    }
  }

  /** When one key alone hears, its observers are told, once each and in order. */
  lemma ToldOneList(observers: Observers, flag: Flag, p: Path, told: seq<Notice>, key: string)
    requires Tells(observers, flag, p, told) && forall k | k in observers :: Canonical(k)
    requires forall k :: k in observers && Hears(Parse(k), p) <==> k == key
    ensures key in observers && |told| == |observers[key]|
    ensures forall i | 0 <= i < |told| :: told[i] == Notice(Render(p), observers[key][i], flag)
  {
    hide Render, Hears, Parse, Tells, Canonical;
    var keys := ToldInOrder(observers, flag, p, told);
    OnlyKey(keys, key);
    assert Listed(observers, keys[..0]) == [];
  }

  lemma OnlyKey(keys: seq<string>, key: string)
    requires forall i, j :: 0 <= i < j < |keys| ==> keys[i] != keys[j]
    requires forall k :: k in keys <==> k == key
    ensures keys == [key]
  {
    assert key in keys;
    assert keys[0] in keys && keys[|keys| - 1] in keys;
  }

  lemma TimesSnoc<T>(s: seq<T>, last: T, x: T)
    ensures multiset(s + [last])[x] == multiset(s)[x] + if x == last then 1 else 0
  {
  }

  lemma {:induction false} TimesTold(told: seq<Notice>, list: seq<Observer>, address: string, flag: Flag, n: Notice)
    requires OneForEach(told, list, address, flag)
    ensures multiset(told)[n] == if n.address == address && n.flag == flag then multiset(list)[n.observer] else 0
  {
    if told != [] {
      var init, last := told[..|told| - 1], told[|told| - 1];
      var front, o := list[..|list| - 1], list[|list| - 1];
      TimesTold(init, front, address, flag, n);
      TimesSnoc(init, last, n);
      TimesSnoc(front, o, n.observer);
      assert told == init + [last] && list == front + [o] && last == Notice(address, o, flag);
    }
  }

  /** So each notice is sent as often as its observer is listed at the keys that hear, and
      those told are exactly the observers at the addresses that hear. */
  lemma ToldExactly(observers: Observers, flag: Flag, p: Path, told: seq<Notice>, n: Notice)
    requires Tells(observers, flag, p, told) && forall k | k in observers :: Canonical(k)
    ensures exists keys :: (
      && HearingKeys(observers, p, keys)
      && multiset(told)[n] ==
        if n.address == Render(p) && n.flag == flag then multiset(Listed(observers, keys))[n.observer] else 0)
    ensures n in told <==> (
      && n.address == Render(p) && n.flag == flag
      && exists q :: ValidPath(q) && Hears(q, p) && Render(q) in observers && n.observer in observers[Render(q)])
  {
    hide Render, ValidPath, Hears, Parse, Tells, Listed;
    var keys := ToldInOrder(observers, flag, p, told);
    TimesTold(told, Listed(observers, keys), Render(p), flag, n);
    ToldAmong(observers, flag, p, told, n);
  }

  lemma ToldAmong(observers: Observers, flag: Flag, p: Path, told: seq<Notice>, n: Notice)
    requires Tells(observers, flag, p, told) && forall k | k in observers :: Canonical(k)
    ensures n in told <==> (
      && n.address == Render(p) && n.flag == flag
      && exists q :: ValidPath(q) && Hears(q, p) && Render(q) in observers && n.observer in observers[Render(q)])
  {
    hide Render, ValidPath, Hears, Notices, Parse;
    var order, reached :| Enumerates(order, observers.Keys) && reached <= observers.Keys
      && ReachedRightly(p, order, reached) && told == Notices(observers, order, reached, Render(p), flag);
    NoticesMean(observers, order, reached, Render(p), flag, n);
    forall k | k in reached ensures exists q :: ValidPath(q) && Hears(q, p) && Render(q) == k {
      assert Canonical(k) && Render(Parse(k)) == k;
    }
  }

  /** What is told of a log of nodes is what is told of its first part, then of the rest; of
      one node it is what that node's observers are told. */
  lemma {:induction false} TellsAllSplits(
      observers: Observers, flag: Flag, log: seq<Path>, more: seq<Path>, told: seq<Notice>)
    returns (k: nat)
    requires TellsAll(observers, flag, log + more, told)
    ensures k <= |told| && TellsAll(observers, flag, log, told[..k]) && TellsAll(observers, flag, more, told[k..])
    ensures |more| == 1 ==> Tells(observers, flag, more[0], told[k..])
    ensures more == [] ==> told[k..] == []
    decreases |more|
  {
    hide Tells;
    if more == [] {
      assert log + more == log;
      k := |told|;
      assert told[..k] == told;
    } else {
      var init, p, whole := more[..|more| - 1], more[|more| - 1], log + more;
      assert whole[..|whole| - 1] == log + init;
      var m :| 0 <= m <= |told| && TellsAll(observers, flag, log + init, told[..m])
        && Tells(observers, flag, p, told[m..]);
      k := TellsAllSplits(observers, flag, log, init, told[..m]);
      assert told[..m][..k] == told[..k];
      assert told[k..][..m - k] == told[..m][k..] && told[k..][m - k..] == told[m..];
    }
  }

  // ---- printing ----

  /** The address of a path with the separator before the next component. */
  ghost function Opened(p: Path): string {
    if p == [] then "/" else Render(p) + "/"
  }

  lemma RenderRoot()
    ensures Render([]) == S_SEPARATOR
  {
  }

  lemma OpenedRoot()
    ensures Opened([]) == S_SEPARATOR
  {
  }

  lemma OpenedNext(p: Path, i: nat)
    requires 0 < i < |p|
    ensures Opened(p[..i]) == Opened(p[..i - 1]) + RenderComponent(p[i - 1]) + "/"
  {
    hide Render;
    OpenedThen(p[..i - 1], p[i - 1]);
    assert p[..i] == p[..i - 1] + [p[i - 1]];
  }

  method PrintNode(before: string, name: string, instance: string) returns (address: string)
    ensures address == before + RenderComponent(Component(name, instance))
  {
    address := before;
    if name != NONE {
      address := address + name;
    }
    assert address == before + name;
    if instance != NONE {
      address := address + ".";
      address := address + instance;
      Assoc(before + name, ".", instance);
      Assoc(before, name, "." + instance);
      Assoc(name, ".", instance);
    }
  }

  lemma OpenedThen(p: Path, c: Component)
    ensures Opened(p) + RenderComponent(c) == Render(p + [c])
  {
    RenderSnoc(p, c);
  }

  // ---- nodes ----

  class Node {
    var name: string
    var instance: string
    const kind: string
    const object_: Pointer
    const context: Pointer
    var parent: Node?
    var children: Tables
    const directory: Directory
    ghost var path: Path

    constructor (name: string, instance: string, kind: string, object_: Pointer, context: Pointer, directory: Directory)
      ensures this.name == name && this.instance == instance && this.kind == kind
      ensures this.object_ == object_ && this.context == context && this.directory == directory
      ensures parent == null && children == map[]
    {
      this.name, this.instance, this.kind := name, instance, kind;
      this.object_, this.context, this.directory := object_, context, directory;
      parent, children, path := null, map[], [];
    }

    method SetChild(child: Node) returns (err: bool)
      modifies this`children
      ensures err <==> Holds(old(children), child.name, child.instance)
      ensures children == if err then old(children) else WithChild(old(children), child.name, child.instance, child)
    {
      if child.name !in children {
        var table := HashAppend<Node>(map[], child.instance, child);
        children := HashAppend<map<string, Node>>(children, child.name, table);
        err := false;
      } else if child.instance !in children[child.name] {
        var table := HashAppend<Node>(children[child.name], child.instance, child);
        children := children[child.name := table];
        err := false;
      } else {
        err := true;
      }
    }

    method GenerateInstance(childName: string) returns (err: bool, newInstance: string)
      requires childName in children ==> Room(children[childName].Keys)
      ensures err <==> childName !in children
      ensures !err ==> Generated(children[childName].Keys, newInstance)
    {
      hide Numeral, Decimal;
      newInstance := "";
      if childName !in children {
        return true, "";
      }
      var table := children[childName];
      ghost var free: nat :| free < 10_000_000 && Decimal(free) !in table.Keys;
      var i, found := 1, true;
      ghost var last := 0;
      while found
        invariant 0 <= i < UINT_RANGE
        invariant !found ==> 0 <= last < UINT_RANGE && newInstance == Numeral(last) && newInstance !in table
        invariant !found ==> forall m | 0 < m < (if last == 0 then UINT_RANGE else last) :: Numeral(m) in table
        invariant found ==> forall m | 0 < m < (if i == 0 then UINT_RANGE else i) :: Numeral(m) in table
        invariant found && i == 0 ==> Numeral(0) !in table
        decreases found, if i == 0 then 0 else UINT_RANGE - i
      {
        newInstance := Numeral(i);
        found := newInstance in table;
        last := i;
        i := (i + 1) % UINT_RANGE;
        if found && i == 0 {
          ShortNumeral(free);
          assert free == 0;
        }
      }
      FoundIsGenerated(table.Keys, last);
      err := false;
    }

    /** The first part of getOscAddress: how many ancestors there are. */
    method CountAncestors() returns (nbAncestor: nat)
      requires directory.TreeValid() && Live()
      ensures nbAncestor == |path|
    {
      hide Directory.TreeValid;
      nbAncestor := 0;
      var ptr: Node := this;
      directory.Around(ptr);
      while ptr.parent != null
        invariant ptr.Live() && ptr.directory == directory && nbAncestor + |ptr.path| == |path|
        invariant ptr.parent == null <==> ptr.path == []
        decreases |ptr.path|
      {
        directory.Around(ptr);
        ptr := ptr.parent;
        nbAncestor := nbAncestor + 1;
        directory.Around(ptr);
      }
    }

    /** The second part: the ancestors, the root first. */
    method CollectAncestors(nbAncestor: nat) returns (ancestor: array<Node>)
      requires directory.TreeValid() && Live() && nbAncestor == |path|
      ensures fresh(ancestor) && ancestor.Length == nbAncestor
      ensures forall k | 0 <= k < nbAncestor :: path[..k] in directory.tree && ancestor[k] == directory.tree[path[..k]]
    {
      hide Directory.TreeValid;
      ancestor := new Node[nbAncestor](_ => this);
      var ptr: Node := this;
      var i := nbAncestor;
      while ptr.parent != null
        invariant 0 <= i <= nbAncestor && ptr.path == path[..i] && ptr.Live() && ptr.directory == directory
        invariant forall k | i <= k < nbAncestor ::
          path[..k] in directory.tree && ancestor[k] == directory.tree[path[..k]]
        decreases i
      {
        directory.Around(ptr);
        i := i - 1;
        ptr := ptr.parent;
        ancestor[i] := ptr;
      }
      directory.Around(ptr);
    }

    /** getOscAddress: counts the ancestors, collects them, then prints from the root down. */
    method GetOscAddress() returns (address: string)
      requires directory.TreeValid() && Live()
      ensures address == Render(path)
    {
      hide Render, Opened, Directory.TreeValid;
      var nbAncestor := CountAncestors();
      directory.Around(this);
      if nbAncestor == 0 {
        RenderRoot();
        return S_SEPARATOR;
      }
      var ancestor := CollectAncestors(nbAncestor);
      assert path[..0] == [];
      directory.AtPath([]);
      address := ancestor[0].name;
      OpenedRoot();
      var i := 1;
      while i < nbAncestor
        invariant 1 <= i <= nbAncestor && address == Opened(path[..i - 1])
        invariant forall k | 0 <= k < nbAncestor ::
          path[..k] in directory.tree && ancestor[k] == directory.tree[path[..k]]
      {
        directory.AtPath(path[..i]);
        assert Last(path[..i]) == path[i - 1];
        address := PrintNode(address, ancestor[i].name, ancestor[i].instance);
        address := address + S_SEPARATOR;
        OpenedNext(path, i);
        i := i + 1;
      }
      address := PrintNode(address, name, instance);
      OpenedThen(Parent(path), Last(path));
      assert path == Parent(path) + [Last(path)];
    }

    /** setParent: finds the parent in the index, or has it created as a container. */
    method SetParent(address: string, ghost p: Path) returns (err: bool, parentCreated: bool)
      requires directory.Valid() && this !in directory.tree.Values
      requires ValidPath(p) && address == Render(p) && Countable(directory.mObservers)
      modifies this`parent
      modifies directory`tree, directory`mDirectory, directory`notified, directory`arrivals
      modifies directory.tree.Values`children
      ensures directory.Valid() && !err && !parentCreated
      ensures Grew(old(directory.tree), directory.tree, Prefixes(p))
      ensures p in directory.tree && parent == directory.tree[p]
      ensures fresh(directory.tree.Values - old(directory.tree.Values))
      ensures Containers(old(directory.tree), directory.tree, null)
      ensures directory.arrivals == old(directory.arrivals) + Missing(old(directory.tree), p)
      ensures Told(directory.mObservers, AddressCreated, old(directory.arrivals), directory.arrivals,
                   old(directory.notified), directory.notified)
      decreases |address|, 2
    {
      hide Countable, Render, ValidPath, Prefixes, Generated, Used, Room, Told, Grew, Missing;
      hide Directory.Valid, Directory.TreeValid, Directory.Cells;
      parentCreated := false;
      ToldNothing(directory.mObservers, AddressCreated, directory.arrivals, directory.notified);
      directory.FoundAt(address, p);
      if address !in directory.mDirectory {
        var e, node, c := directory.TTNodeCreate(address, "container", null, null, p);
        // the error answer for a created parent that has an instance is never
        // given: a parent that was not found is not a new instance
        parent, parentCreated := node, c;
      } else {
        parent := directory.mDirectory[address];
      }
      err := false;
    }

    /** The loop of setName and setInstance: its parent takes the node, if need be
        under a generated instance. */
    method EnterParent() returns (newInstance: string, newInstanceCreated: bool)
      requires parent != null && parent != this
      requires Holds(parent.children, name, instance) ==> Room(parent.children[name].Keys)
      modifies this`instance, parent`children
      ensures newInstanceCreated <==> Holds(old(parent.children), name, old(instance))
      ensures !newInstanceCreated ==> instance == old(instance)
      ensures newInstanceCreated ==> instance == newInstance && Generated(old(parent.children)[name].Keys, instance)
      ensures parent.children == WithChild(old(parent.children), name, instance, this)
    {
      hide Room, Generated;
      newInstance, newInstanceCreated := "", false;
      var taken := parent.SetChild(this);
      while taken
        invariant taken ==> !newInstanceCreated && parent.children == old(parent.children) && instance == old(instance)
        invariant taken ==> Holds(parent.children, name, instance)
        invariant newInstanceCreated ==> instance == newInstance && Holds(old(parent.children), name, old(instance))
        invariant newInstanceCreated ==> Generated(old(parent.children)[name].Keys, instance)
        invariant !newInstanceCreated ==>
          instance == old(instance) && (taken <==> Holds(old(parent.children), name, instance))
        invariant !taken ==> parent.children == WithChild(old(parent.children), name, instance, this)
        decreases taken
      {
        var e, generated := parent.GenerateInstance(name);
        GeneratedIsFree(parent.children[name].Keys, generated);
        instance := generated;
        newInstance := instance;
        newInstanceCreated := true;
        taken := parent.SetChild(this);
      }
    }

    /** setName: the node moves under its new name, with a generated instance if need be;
        the keys of its descendants are not replaced. */
    method SetName(aName: string) returns (newInstance: string, newInstanceCreated: bool)
      requires directory.Valid() && Live() && path != [] && aName != "" && PlainText(aName)
      requires Parent(path) + [Component(aName, instance)] in directory.tree - {path} ==>
        Room(Used(directory.tree - {path}, Parent(path), aName))
      requires Countable(directory.mDirectory)
      modifies directory`tree, directory`mDirectory, directory.tree.Values
      ensures directory.TreeValid() && Live()
      ensures Renamed(old(directory.tree), old(path), Component(aName, old(instance)), path, newInstanceCreated)
      ensures newInstanceCreated ==> newInstance == instance
      ensures Movable(old(directory.tree), old(path), path)
      ensures directory.tree == Moved(old(directory.tree), old(path), path)
      ensures directory.mDirectory == Rekeyed(old(directory.mDirectory), Render(old(path)), Render(path), this)
      ensures directory.Valid() <==> aName == old(name) || Leaf(old(directory.tree), old(path))
    {
      hide Countable, Render, ValidPath, TreeOk, IndexOk, Leaf, Holds, Room, Renamed, Used, Moved, Rekeyed;
      hide Movable, TakenOut, Replaced, Directory.Cells;
      ghost var before, cells, p := directory.tree, directory.Cells(), path;
      AboutToMove();
      ghost var last := Last(p);
      var oldAddress := GetOscAddress();
      LoseName(aName);
      newInstance, newInstanceCreated := Reenter(oldAddress, before, cells, p);
      RenamedInPlace(before, p, Component(aName, last.instance), path, newInstanceCreated);
    }

    lemma AboutToMove()
      requires directory.TreeValid() && Live() && path != []
      ensures parent != null && parent != this && Parent(path) in directory.tree
      ensures parent == directory.tree[Parent(path)]
      ensures parent in directory.tree.Values && this in directory.tree.Values
      ensures name in parent.children && Last(path) == Component(name, instance)
      ensures PlainText(name) && PlainText(instance)
      ensures name != "" && directory.Cells().Keys == directory.tree.Values
      ensures directory.Cells()[parent].children == parent.children
      ensures forall n | n in parent.children :: parent.children[n] != map[]
      ensures forall n | n in directory.tree.Values :: n.directory == directory
    {
      hide TreeOk, ValidPath;
      var cells := directory.Cells();
      directory.Around(this);
      directory.CellsGive();
      NodesApart(directory.tree, cells, path);
      NodeOkAt(directory.tree, cells, path);
      NodeOkAt(directory.tree, cells, Parent(path));
      assert directory.tree[path] in directory.tree.Values && directory.tree[Parent(path)] in directory.tree.Values;
      assert cells[this] == Fields() && cells[parent] == parent.Fields();
      SplitOfPath(path);
    }

    /** Its old name goes from the parent's tables, and the new one is set. */
    method LoseName(aName: string)
      requires parent != null && parent != this && parent in directory.tree.Values && this in directory.tree.Values
      requires forall n | n in parent.children :: parent.children[n] != map[]
      modifies this`name, parent`children
      ensures name == aName && TakenOut(old(parent.children), parent.children, old(Component(name, instance)), aName)
      ensures directory.Cells()
        == Replaced(old(directory.Cells()), parent, parent.children, this, Component(name, instance))
    {
      hide Holds, TakenOut, WithoutChild, Directory.Cells;
      ghost var cells := directory.Cells();
      directory.CellsGive();
      TakenOutByName(parent.children, Component(name, instance), aName);
      parent.RemoveChild(name, instance);
      name := aName;
      directory.CellsAre(Replaced(cells, parent, parent.children, this, Component(name, instance)));
    }

    /** setInstance: the same with another instance.  The table of instances is kept
        even when the node was the last in it. */
    method SetInstance(anInstance: string) returns (newInstance: string, newInstanceCreated: bool)
      requires directory.Valid() && Live() && path != [] && PlainText(anInstance)
      requires Parent(path) + [Component(name, anInstance)] in directory.tree - {path} ==>
        Room(Used(directory.tree - {path}, Parent(path), name))
      requires Countable(directory.mDirectory)
      modifies directory`tree, directory`mDirectory, directory.tree.Values
      ensures directory.TreeValid() && Live()
      ensures Renamed(old(directory.tree), old(path), Component(old(name), anInstance), path, newInstanceCreated)
      ensures newInstanceCreated ==> newInstance == instance
      ensures Movable(old(directory.tree), old(path), path)
      ensures directory.tree == Moved(old(directory.tree), old(path), path)
      ensures directory.mDirectory == Rekeyed(old(directory.mDirectory), Render(old(path)), Render(path), this)
      ensures directory.Valid() <==> (
        || anInstance == old(instance) || Leaf(old(directory.tree), old(path))
        || (Parent(old(path)) + [Component(old(name), anInstance)] in old(directory.tree) - {old(path)}
            && Generated(Used(old(directory.tree) - {old(path)}, Parent(old(path)), old(name)), old(instance))))
    {
      hide Countable, Render, ValidPath, TreeOk, IndexOk, Leaf, Holds, Room, Renamed, Used, Moved, Rekeyed;
      hide Movable, TakenOut, Replaced, Directory.Cells;
      ghost var before, cells, p := directory.tree, directory.Cells(), path;
      AboutToMove();
      ghost var last := Last(p);
      var oldAddress := GetOscAddress();
      LoseInstance(anInstance);
      newInstance, newInstanceCreated := Reenter(oldAddress, before, cells, p);
      RenamedInPlace(before, p, Component(last.name, anInstance), path, newInstanceCreated);
    }

    method LoseInstance(anInstance: string)
      requires parent != null && parent != this && parent in directory.tree.Values && this in directory.tree.Values
      requires (forall n | n in parent.children :: parent.children[n] != map[]) && name in parent.children
      modifies this`instance, parent`children
      ensures instance == anInstance
      ensures TakenOut(old(parent.children), parent.children, old(Component(name, instance)), name)
      ensures directory.Cells()
        == Replaced(old(directory.Cells()), parent, parent.children, this, Component(name, instance))
    {
      hide Holds, TakenOut, Directory.Cells;
      ghost var cells := directory.Cells();
      directory.CellsGive();
      TakenOutByInstance(parent.children, Component(name, instance));
      if name in parent.children {
        parent.children := parent.children[name := parent.children[name] - {instance}];
      }
      instance := anInstance;
      directory.CellsAre(Replaced(cells, parent, parent.children, this, Component(name, instance)));
    }

    /** The while loop, and what it does to the fields of the nodes. */
    method EnterParentAgain() returns (newInstance: string, newInstanceCreated: bool)
      requires parent != null && parent != this && parent in directory.tree.Values && this in directory.tree.Values
      requires Holds(parent.children, name, instance) ==> Room(parent.children[name].Keys)
      modifies this`instance, parent`children
      ensures newInstanceCreated <==> Holds(old(parent.children), name, old(instance))
      ensures !newInstanceCreated ==> instance == old(instance)
      ensures newInstanceCreated ==> instance == newInstance && Generated(old(parent.children)[name].Keys, instance)
      ensures parent.children == WithChild(old(parent.children), name, instance, this)
      ensures directory.Cells()
        == Replaced(old(directory.Cells()), parent, parent.children, this, Component(name, instance))
    {
      hide Holds, Room, Generated, WithChild, Directory.Cells;
      ghost var cells := directory.Cells();
      directory.CellsGive();
      newInstance, newInstanceCreated := EnterParent();
      directory.CellsAre(Replaced(cells, parent, parent.children, this, Component(name, instance)));
    }

    /** The rest of setName, and of setInstance: the node, out of its parent's table and
        with the component wished for, enters it again and its key is replaced. */
    method Reenter(oldAddress: string, ghost before: Tree, ghost cells: Cells, ghost p: Path)
      returns (newInstance: string, newInstanceCreated: bool)
      requires TreeOk(before, cells) && IndexOk(before, directory.mDirectory, {})
      requires p != [] && p in before && before[p] == this && Parent(p) in before
      requires parent == before[Parent(p)] && parent != this
      requires oldAddress == Render(p) && name != "" && PlainText(name) && PlainText(instance)
      requires directory.tree == before && forall n | n in before.Values :: n.directory == directory
      requires TakenOut(cells[parent].children, parent.children, Last(p), name)
      requires directory.Cells() == Replaced(cells, parent, parent.children, this, Component(name, instance))
      requires Parent(p) + [Component(name, instance)] in before - {p} ==> Room(Used(before - {p}, Parent(p), name))
      requires Countable(directory.mDirectory)
      modifies directory`tree, directory`mDirectory, directory.tree.Values
      ensures directory.TreeValid() && Live()
      ensures Renamed(before, p, Component(old(name), old(instance)), path, newInstanceCreated)
      ensures newInstanceCreated ==> newInstance == instance
      ensures Movable(before, p, path)
      ensures directory.tree == Moved(before, p, path)
      ensures directory.mDirectory == Rekeyed(old(directory.mDirectory), Render(p), Render(path), this)
      ensures directory.Valid() <==> path == p || Leaf(before, p)
    {
      hide Countable, Render, ValidPath, TreeOk, IndexOk, Leaf, Room, Generated, Used, Moved, Rekeyed, Movable;
      hide TableMoved, TakenOut, WithChild, Directory.Cells, Replaced;
      ghost var s, wished := parent.children, Component(name, instance);
      NodeOkAt(before, cells, p);
      TreePaths(before, cells);
      ghost var t := cells[parent].children;
      UsedWithout(before, cells, p, s, name);
      newInstance, newInstanceCreated := EnterParentAgain();
      ReplacedTwice(cells, parent, s, parent.children, this, wished, Component(name, instance));
      ghost var p' := Parent(p) + [Component(name, instance)];
      assert Last(p') == Component(name, instance) && Parent(p') == Parent(p);
      assert Renamed(before, p, wished, p', newInstanceCreated);
      RenamedMovable(before, cells, p, wished, p', newInstanceCreated);
      PutBack(t, s, Last(p), Last(p'), this);
      directory.Relabel(cells, p, p', parent.children);
      directory.AtPath(p');
      RenameKey(oldAddress, before, p);
    }

    /** The end of them: the new address, and the loop over the keys. */
    method RenameKey(oldAddress: string, ghost before: Tree, ghost p: Path)
      requires directory.TreeValid() && Live() && IndexOk(before, directory.mDirectory, {})
      requires p in before && before[p] == this
      requires Movable(before, p, path) && directory.tree == Moved(before, p, path) && ValidPath(path)
      requires oldAddress == Render(p) && forall q | q in before :: ValidPath(q)
      requires Countable(directory.mDirectory)
      modifies directory`mDirectory
      ensures directory.TreeValid() && Live()
      ensures directory.mDirectory == Rekeyed(old(directory.mDirectory), Render(p), Render(path), this)
      ensures directory.Valid() <==> path == p || Leaf(before, p)
    {
      hide Countable, Render, ValidPath, TreeOk, IndexOk, Leaf, Moved, Canonical;
      var newAddress := GetOscAddress();
      IndexedAt(before, directory.mDirectory, {}, p);
      IndexedAt(before, directory.mDirectory, {}, path);
      KeysCanonical(before, directory.mDirectory, {});
      RenderIsRootOnly(p);
      RekeyedExactly(before, directory.mDirectory, p, path);
      directory.Rekey(oldAddress, newAddress);
    }

    /** The destructor ~TTNode: removes the children through the directory, walking
        snapshots of the keys while the tables shrink, then leaves the parent. */
    method Destroy(ghost dying: set<Path>)
      requires directory.TreeValid() && Live() && path != []
      requires IndexOk(directory.tree, directory.mDirectory, dying) && path in dying
      requires forall q | q in dying && path <= q :: q == path
      requires AllListable(directory.tree, path) && Countable(directory.mObservers)
      modifies directory`tree, directory`mDirectory, directory`notified, directory`departures
      modifies directory.tree.Values`children, directory.tree.Values`parent
      ensures directory.TreeValid() && directory.tree == Pruned(old(directory.tree), path)
      ensures IndexOk(directory.tree, directory.mDirectory, dying - {path})
      ensures directory.mDirectory.Keys <= old(directory.mDirectory.Keys)
      ensures Logged(old(directory.departures), directory.departures,
                     old(directory.tree) - {path}, directory.tree, path)
      ensures Told(directory.mObservers, AddressDestroyed, old(directory.departures), directory.departures,
                   old(directory.notified), directory.notified)
      decreases |directory.mDirectory|, 6
    {
      hide Countable, IndexOk, Cleared, Pruned, Logged, Told, Leaf, AllListable;
      hide Directory.TreeValid, Directory.Cells;
      ghost var start := directory.Now();
      ClearedNothing(directory.mObservers, start, path, dying);
      if |children| != 0 {
        DestroyChildren(dying);
      }
      ClearedMeans(directory.mObservers, start, directory.Now(), path, dying);
      Childless();
      directory.Around(this);
      ClearedAll(directory.mObservers, start, directory.Now(), path, dying);
      LeaveParent();
    }

    lemma Childless()
      requires directory.TreeValid() && Live() && |children| == 0
      ensures Leaf(directory.tree, path)
    {
      hide TreeOk, Leaf;
      assert children.Keys == {};
      directory.CellsGive();
      assert this in directory.tree.Values;
      NoTablesNoDescendants(directory.tree, directory.Cells(), path);
    }

    /** It is not a child of its parent anymore. */
    method LeaveParent()
      requires directory.TreeValid() && Live() && path != [] && Leaf(directory.tree, path)
      modifies directory`tree, this`parent, this`children, Up()`children
      ensures directory.TreeValid() && directory.tree == old(directory.tree) - {path}
      ensures parent == null && children == map[]
    {
      hide TreeOk, ValidPath, Holds, WithoutChild, Leaf, Directory.Cells, CellsWithout;
      ghost var before, cells, up := directory.tree, directory.Cells(), parent;
      directory.CellsGive();
      directory.Around(this);
      NodesDiffer(before, cells, path, Parent(path));
      RemoveOk(before, cells, path);
      ValuesWithout(before, cells, path);
      parent.RemoveChild(name, instance);
      directory.tree := directory.tree - {path};
      parent := null;
      children := map[];
      WithoutCells(before, cells, path, cells[up].(children := up.children));
      directory.CellsAre(CellsWithout(before, cells, path));
    }

    /** A child's entry removed, and with the last instance the table. */
    method RemoveChild(childName: string, childInstance: string)
      modifies this`children
      ensures children == WithoutChild(old(children), childName, childInstance)
    {
      if childName in children {
        var table := children[childName] - {childInstance};
        if |table| == 0 {
          children := children - {childName};
        } else {
          children := children[childName := table];
        }
      }
    }

    /** The two nested loops over the names and, under each, the instances. */
    method DestroyChildren(ghost dying: set<Path>)
      requires directory.TreeValid() && Live() && path in dying
      requires IndexOk(directory.tree, directory.mDirectory, dying)
      requires forall q | q in dying && path <= q :: q == path
      requires AllListable(directory.tree, path) && Countable(directory.mObservers)
      modifies directory`tree, directory`mDirectory, directory`notified, directory`departures
      modifies directory.tree.Values`children, directory.tree.Values`parent
      ensures directory.TreeValid() && Live() && |children| == 0
      ensures Cleared(directory.mObservers, old(directory.Now()), directory.Now(), path, dying)
      decreases |directory.mDirectory|, 5
    {
      hide Countable, Directory.TreeValid, IndexOk, Cleared, AllListable, Rest;
      ghost var start := directory.Now();
      AboutToClear(dying);
      var hk := GetKeys(children);
      RestStart(hk);
      RestEnd(hk);
      var i := 0;
      while i < |hk|
        invariant 0 <= i <= |hk|
        invariant directory.TreeValid() && Live() && directory.tree.Values <= start.tree.Values
        invariant Cleared(directory.mObservers, start, directory.Now(), path, dying)
        invariant children.Keys <= Rest(hk, i)
      {
        RestNext(hk, i);
        DestroyName(hk[i], dying, start);
        i := i + 1;
      }
      assert children.Keys == {};
    }

    lemma AboutToClear(dying: set<Path>)
      requires directory.TreeValid() && Live() && AllListable(directory.tree, path)
      requires IndexOk(directory.tree, directory.mDirectory, dying)
      ensures Cleared(directory.mObservers, directory.Now(), directory.Now(), path, dying)
      ensures Countable(children) && forall name | name in children :: Countable(children[name])
    {
      hide Countable, Directory.TreeValid, IndexOk, Cleared, AllListable, Listable;
      ClearedNothing(directory.mObservers, directory.Now(), path, dying);
      directory.TableSizes(path);
      ListableAt(directory.tree, path);
    }

    /** One name of the outer loop, if it still has children. */
    method DestroyName(key: string, ghost dying: set<Path>, ghost start: Snapshot)
      requires directory.TreeValid() && Live() && path in dying && path in start.tree
      requires forall q | q in dying && path <= q :: q == path
      requires AllListable(start.tree, path) && Countable(directory.mObservers)
      requires Cleared(directory.mObservers, start, directory.Now(), path, dying)
      modifies directory`tree, directory`mDirectory, directory`notified, directory`departures
      modifies directory.tree.Values`children, directory.tree.Values`parent
      ensures directory.TreeValid() && Live() && directory.tree.Values <= start.tree.Values
      ensures Cleared(directory.mObservers, start, directory.Now(), path, dying)
      ensures children.Keys <= old(children.Keys) - {key}
      decreases |start.index|, 4
    {
      hide Countable, Directory.TreeValid, IndexOk, Cleared, AllListable;
      ghost var now := directory.Now();
      ClearedMeans(directory.mObservers, start, now, path, dying);
      if key in children {
        DestroyInstances(key, dying);
        ClearedAgain(directory.mObservers, start, now, directory.Now(), path, dying);
        ClearedMeans(directory.mObservers, start, directory.Now(), path, dying);
      }
    }

    method DestroyInstances(key: string, ghost dying: set<Path>)
      requires directory.TreeValid() && Live() && path in dying && key in children
      requires IndexOk(directory.tree, directory.mDirectory, dying)
      requires forall q | q in dying && path <= q :: q == path
      requires AllListable(directory.tree, path) && Countable(directory.mObservers)
      modifies directory`tree, directory`mDirectory, directory`notified, directory`departures
      modifies directory.tree.Values`children, directory.tree.Values`parent
      ensures directory.TreeValid() && Live() && children.Keys <= old(children.Keys) - {key}
      ensures Cleared(directory.mObservers, old(directory.Now()), directory.Now(), path, dying)
      decreases |directory.mDirectory|, 3
    {
      hide Countable, Directory.TreeValid, IndexOk, Cleared, AllListable, InstancesIn, Holds, Rest;
      ghost var start := directory.Now();
      AboutToClear(dying);
      InstancesAre(children, key);
      var hkI := GetKeys(children[key]);
      RestStart(hkI);
      RestEnd(hkI);
      var j := 0;
      while j < |hkI|
        invariant 0 <= j <= |hkI|
        invariant directory.TreeValid() && Live() && directory.tree.Values <= start.tree.Values
        invariant Cleared(directory.mObservers, start, directory.Now(), path, dying)
        invariant children.Keys <= old(children.Keys)
        invariant InstancesIn(children, key) <= Rest(hkI, j)
      {
        RestNext(hkI, j);
        DestroyKey(key, hkI[j], dying, start);
        j := j + 1;
      }
      directory.NoEmptyTableAt(path, key);
      assert InstancesIn(children, key) == {};
    }

    /** One instance of the inner loop, if it is still there. */
    method DestroyKey(key: string, keyI: string, ghost dying: set<Path>, ghost start: Snapshot)
      requires directory.TreeValid() && Live() && path in dying && path in start.tree
      requires forall q | q in dying && path <= q :: q == path
      requires AllListable(start.tree, path) && Countable(directory.mObservers)
      requires Cleared(directory.mObservers, start, directory.Now(), path, dying)
      modifies directory`tree, directory`mDirectory, directory`notified, directory`departures
      modifies directory.tree.Values`children, directory.tree.Values`parent
      ensures directory.TreeValid() && Live() && directory.tree.Values <= start.tree.Values
      ensures Cleared(directory.mObservers, start, directory.Now(), path, dying)
      ensures children.Keys <= old(children.Keys)
      ensures InstancesIn(children, key) <= InstancesIn(old(children), key) - {keyI}
      decreases |start.index|, 2
    {
      hide Countable, Directory.TreeValid, IndexOk, Cleared, AllListable;
      ghost var now := directory.Now();
      ClearedMeans(directory.mObservers, start, now, path, dying);
      if key in children && keyI in children[key] {
        DestroyInstance(key, keyI, dying);
        ClearedAgain(directory.mObservers, start, now, directory.Now(), path, dying);
        ClearedMeans(directory.mObservers, start, directory.Now(), path, dying);
      }
    }

    /** One child removed properly, using the directory. */
    method DestroyInstance(key: string, keyI: string, ghost dying: set<Path>)
      requires directory.TreeValid() && Live() && path in dying && Holds(children, key, keyI)
      requires IndexOk(directory.tree, directory.mDirectory, dying)
      requires forall q | q in dying && path <= q :: q == path
      requires AllListable(directory.tree, path) && Countable(directory.mObservers)
      modifies directory`tree, directory`mDirectory, directory`notified, directory`departures
      modifies directory.tree.Values`children, directory.tree.Values`parent
      ensures directory.TreeValid() && Live() && children.Keys <= old(children.Keys)
      ensures forall name, instance | Holds(children, name, instance) ::
        Holds(old(children), name, instance) && (name != key || instance != keyI)
      ensures Cleared(directory.mObservers, old(directory.Now()), directory.Now(), path, dying)
      decreases |directory.mDirectory|, 1
    {
      hide Countable, Directory.TreeValid, IndexOk, Cleared, Render, ValidPath;
      hide Thinned, Pruned, Logged, Told, AllListable;
      ghost var q, start, cells := path + [Component(key, keyI)], directory.Now(), directory.Cells();
      directory.ChildAt(path, key, keyI, dying);
      ListableFewer(directory.tree, directory.tree, path, q);
      var address := children[key][keyI].GetOscAddress();
      ghost var removed;
      var e;
      e, removed := directory.TTNodeRemove(address, dying);
      RenderInjective(q, removed);
      directory.ShrunkAt(start.tree, cells, path, q);
      ClearedChild(directory.mObservers, start, directory.Now(), path, q, dying);
    }

    ghost function Up(): set<Node>
      reads this
    {
      if parent == null then {} else {parent}
    }

    ghost function Fields(): Cell
      reads this
    {
      Cell(name, instance, parent, children, path)
    }

    ghost predicate Live()
      reads this, directory
    {
      path in directory.tree && directory.tree[path] == this
    }
  }

  ghost method Repath(nodes: set<Node>, cells: Cells, p: Path, p': Path)
    requires cells.Keys == nodes && forall n | n in nodes :: n.Fields() == cells[n]
    modifies nodes`path
    ensures forall n | n in nodes :: n.Fields() == Relabelled(cells, p, p')[n]
  {
    hide Move;
    forall n | n in nodes {
      n.path := Move(n.path, p, p');
    }
  }

  // ---- the directory ----

  class Directory {
    var mRoot: Node?
    var mDirectory: map<string, Node>
    var mObservers: map<string, seq<Observer>>
    var notified: seq<Notice>        // the notify calls made so far
    ghost var tree: map<Path, Node>
    ghost var arrivals: seq<Path>    // the nodes announced as created, and as destroyed
    ghost var departures: seq<Path>

    /** A directory with nothing but its root. */
    constructor ()
      ensures Valid() && tree.Keys == {[]} && mRoot == tree[[]] && mDirectory.Keys == {S_SEPARATOR}
      ensures fresh(tree.Values) && mObservers == map[] && arrivals == [[]] && departures == [] && notified == []
    {
      mRoot, mDirectory, mObservers, notified := null, map[], map[], [];
      tree, arrivals, departures := map[], [], [];
      new;
      hide Render, TreeOk, Created;
      RenderRoot();
      EmptyOk(Cells());
      var e, root, c := TTNodeCreate(S_SEPARATOR, "container", this, this, []);
      mRoot := root;
      RootCreated(tree, mDirectory, root.path);
      ToldNobody(arrivals, notified);
    }

    /** notifyObservers: every observer list whose key the address equals or lies below. */
    method NotifyObservers(address: string, flag: Flag, ghost p: Path)
      returns (err: bool, ghost order: seq<string>, ghost reached: set<string>)
      requires ValidPath(p) && address == Render(p) && Countable(mObservers)
      modifies this`notified
      ensures reached <= mObservers.Keys
      ensures Enumerates(order, mObservers.Keys) && ReachedRightly(p, order, reached)
      ensures notified == old(notified) + Notices(mObservers, order, reached, address, flag)
      ensures err <==> forall k | k in reached :: mObservers[k] == []
      ensures Tells(mObservers, flag, p, notified[|old(notified)|..])
    {
      hide Render, ValidPath, Hears, Notices;
      err, order, reached := true, [], {};
      if |mObservers| > 0 {
        err, order, reached := NotifyKeys(address, flag, p);
      } else {
        NoObservers(mObservers, flag, p);
      }
      assert notified[|old(notified)|..] == Notices(mObservers, order, reached, address, flag);
    }

    /** The loop over the keys of the observer table. */
    method NotifyKeys(address: string, flag: Flag, ghost p: Path)
      returns (err: bool, ghost order: seq<string>, ghost reached: set<string>)
      requires ValidPath(p) && address == Render(p) && Countable(mObservers)
      modifies this`notified
      ensures reached <= mObservers.Keys
      ensures Enumerates(order, mObservers.Keys) && ReachedRightly(p, order, reached)
      ensures notified == old(notified) + Notices(mObservers, order, reached, address, flag)
      ensures err <==> forall k | k in reached :: mObservers[k] == []
    {
      hide Countable, Render, ValidPath, Hears, NoticesOf, Notices, NotifiedSoFar;
      var hk := GetKeys(mObservers);
      err, order, reached := true, hk, {};
      ghost var told: seq<Notice> := [];
      NotifiedNone(mObservers, p, address, flag);
      assert hk[..0] == [];
      var i := 0;
      while i < |mObservers|
        invariant 0 <= i <= |hk| && notified == old(notified) + told
        invariant NotifiedSoFar(mObservers, p, address, flag, hk[..i], reached, err, told)
      {
        var key := hk[i];
        var hears := CompareKey(address, key, p);
        NotifiedNext(mObservers, p, address, flag, hk[..i], reached, err, told, key, hears);
        assert hk[..i + 1] == hk[..i] + [key];
        ghost var more := if hears then NoticesOf(mObservers[key], address, flag) else [];
        if hears {
          reached := reached + {key};
          var isEmpty := Deliver(mObservers[key], address, flag);
          err := err && isEmpty;
        }
        SeqAssoc(old(notified), told, more);
        told := told + more;
        i := i + 1;
      }
      assert hk[..|hk|] == hk;
      NotifiedAll(mObservers, p, address, flag, hk, reached, err, told);
    }

    method CompareKey(address: string, key: string, ghost p: Path) returns (hears: bool)
      requires ValidPath(p) && address == Render(p)
      ensures forall q | ValidPath(q) && Render(q) == key :: hears == Hears(q, p)
    {
      hide Render, ValidPath, Names, Compare, CompareWith;
      var comp := CompareOSCAddress(address, key);
      hears := comp == Equal || comp == Lower;
      forall q | ValidPath(q) && Render(q) == key ensures hears == Hears(q, p) {
        AddressesName(p, NONE, q, NONE);
        CompareWithout(p, q);
      }
    }

    /** The loop over one observer list. */
    method Deliver(observers: seq<Observer>, address: string, flag: Flag) returns (isEmpty: bool)
      modifies this`notified
      ensures isEmpty <==> observers == []
      ensures old(notified) <= notified && |notified| == |old(notified)| + |observers|
      ensures forall j | 0 <= j < |observers| ::
        notified[|old(notified)| + j] == Notice(address, observers[j], flag)
      ensures notified == old(notified) + NoticesOf(observers, address, flag)
    {
      var j := 0;
      while j < |observers|
        invariant 0 <= j <= |observers|
        invariant notified == old(notified) + NoticesOf(observers, address, flag)[..j]
      {
        notified := notified + [Notice(address, observers[j], flag)];
        j := j + 1;
      }
      isEmpty := |observers| == 0;
    }

    /** TTNodeCreate: the address given, when it is free; otherwise the same name
        with a generated instance.  Missing ancestors are created on the way. */
    method TTNodeCreate(address: string, newType: string, newObject: Pointer, aContext: Pointer, ghost p: Path)
      returns (err: bool, returned: Node?, newInstanceCreated: bool)
      requires Valid() && ValidPath(p) && address == Render(p)
      requires p == [] ==> p !in tree
      requires p in tree ==> Room(Used(tree, Parent(p), Last(p).name))
      requires Countable(mObservers)
      modifies this`tree, this`mDirectory, this`notified, this`arrivals, tree.Values`children
      ensures Valid() && !err && returned != null && fresh(returned)
      ensures returned.path in tree && tree[returned.path] == returned
      ensures newInstanceCreated <==> p in old(tree)
      ensures Created(old(tree), tree, p, returned.path)
      ensures fresh(tree.Values - old(tree.Values)) && Containers(old(tree), tree, returned)
      ensures returned.kind == newType && returned.object_ == newObject && returned.context == aContext
      ensures arrivals == old(arrivals) + (if p in old(tree) then [returned.path] else Missing(old(tree), p))
      ensures Told(mObservers, AddressCreated, old(arrivals), arrivals, old(notified), notified)
      decreases |address|, 1
    {
      hide Countable, Render, ValidPath, Split, Generated, Room, Created;
      hide Used, TreeOk, IndexOk, Missing, Containers, Told;
      hide Valid, TreeValid, Cells;
      SplitOfPath(p);
      var parentAddress, name, instance, property := SplitOSCAddress(address);
      var newInstance;
      newInstance, newInstanceCreated := InstanceFor(address, instance, p);
      var node := new Node(name, newInstance, newType, newObject, aContext, this);
      node.path := Sibling(p, newInstance);
      if parentAddress != NONE {
        Place(node, parentAddress, p);
      } else {
        PlaceRoot(node);
      }
      return false, node, newInstanceCreated;
    }

    /** The new node is the root: no parent. */
    method PlaceRoot(node: Node)
      requires Valid() && [] !in tree && Countable(mObservers)
      requires node.directory == this && node !in tree.Values && node.children == map[] && node.parent == null
      requires node.path == [] && node.name == S_SEPARATOR && node.instance == NONE
      modifies this`tree, this`mDirectory, this`notified, this`arrivals
      ensures Valid() && node.path in tree && tree[node.path] == node
      ensures Created(old(tree), tree, [], []) && Containers(old(tree), tree, node)
      ensures tree.Values == old(tree.Values) + {node}
      ensures arrivals == old(arrivals) + Missing(old(tree), [])
      ensures Told(mObservers, AddressCreated, old(arrivals), arrivals, old(notified), notified)
    {
      hide Countable, Render, TreeOk, IndexOk, Missing, Created, Containers, Told;
      RootInserted(tree, Cells(), node);
      ValuesWith(tree, [], node);
      Enter(node);
    }

    /** Below the root: the path to the new node is ensured, then the node entered. */
    method Place(node: Node, parentAddress: string, ghost p: Path)
      requires Valid() && p != [] && ValidPath(p) && parentAddress == Render(Parent(p))
      requires node.directory == this && node !in tree.Values && node.children == map[] && node.parent == null
      requires node.path == Sibling(p, node.instance) && ValidPath(node.path) && node.name == Last(p).name
      requires if p in tree then Generated(Used(tree, Parent(p), Last(p).name), node.instance) else node.path == p
      requires Countable(mObservers)
      modifies this`tree, this`mDirectory, this`notified, this`arrivals, tree.Values`children, node`parent
      ensures Valid() && node.path in tree && tree[node.path] == node
      ensures Created(old(tree), tree, p, node.path) && Containers(old(tree), tree, node)
      ensures fresh(tree.Values - old(tree.Values) - {node})
      ensures arrivals == old(arrivals) + (if p in old(tree) then [node.path] else Missing(old(tree), p))
      ensures Told(mObservers, AddressCreated, old(arrivals), arrivals, old(notified), notified)
      decreases |Render(p)|, 0
    {
      hide Countable, Render, ValidPath, Generated, Used, Prefixes, Missing;
      hide Created, Containers, Grew, Told, Insertable;
      hide Valid, TreeValid, Cells, Sibling;
      MissingNext(tree, p);
      AboutToPlace(node, p);
      SplitOfPath(p);
      RenderParentShorter(p);
      var e, c := node.SetParent(parentAddress, Parent(p));
      FreshSibling(old(tree), tree, p, node.path);
      ReadyToEnter(node);
      ghost var before, added := tree, tree.Values - old(tree.Values);
      ghost var log, told := arrivals, notified;
      Enter(node);
      ToldAgain(mObservers, AddressCreated, old(arrivals), log, arrivals, old(notified), told, notified);
      SeqAssoc(old(arrivals), Missing(old(tree), Parent(p)), [node.path]);
      assert p in old(tree) ==> Missing(old(tree), Parent(p)) == [];
      CreatedByInsert(old(tree), before, tree, p, node.path, node);
      ValuesWith(before, node.path, node);
      assert tree.Values - old(tree.Values) - {node} <= added;
    }

    /** What placing a node starts from. */
    lemma AboutToPlace(node: Node, p: Path)
      requires Valid() && p != [] && ValidPath(p) && node.path == Sibling(p, node.instance)
      ensures node.path != [] && Parent(node.path) == Parent(p) && Last(node.path).name == Last(p).name
      ensures Last(node.path).instance == node.instance
      ensures p in tree ==> Parent(p) in tree && Prefixes(Parent(p)) <= tree.Keys
    {
      hide ValidPath, TreeOk, IndexOk;
      if p in tree {
        AtPath(p);
        PrefixesPresent(tree, Cells(), Parent(p));
      }
    }

    /** With its parent known a new node can be entered. */
    lemma ReadyToEnter(node: Node)
      requires Valid() && node !in tree.Values && node.path !in tree && ValidPath(node.path) && node.children == map[]
      requires node.path != [] && Parent(node.path) in tree && node.parent == tree[Parent(node.path)]
      requires Last(node.path) == Component(node.name, node.instance)
      ensures Insertable(tree, Cells(), node.path, node, node.Fields())
    {
      hide ValidPath, TreeOk, IndexOk;
    }

    /** TTNodeRemove.  The paths in `dying` are those of the destructors that are
        running; a caller from outside passes none. */
    method TTNodeRemove(address: string, ghost dying: set<Path> := {}) returns (err: bool, ghost removed: Path)
      requires TreeValid() && IndexOk(tree, mDirectory, dying)
      requires address in mDirectory ==> forall q | q in dying :: !(mDirectory[address].path <= q)
      requires Countable(mObservers)
      requires address in mDirectory && address != S_SEPARATOR ==> AllListable(tree, mDirectory[address].path)
      modifies this`tree, this`mDirectory, this`notified, this`departures
      modifies tree.Values`children, tree.Values`parent
      ensures TreeValid() && IndexOk(tree, mDirectory, dying)
      ensures err <==> address == S_SEPARATOR || address !in old(mDirectory)
      ensures err ==> tree == old(tree) && mDirectory == old(mDirectory)
      ensures !err ==> removed in old(tree) && Render(removed) == address && tree == Pruned(old(tree), removed)
      ensures !err ==> mDirectory == map k | k in old(mDirectory) && !Under(k, address) :: old(mDirectory)[k]
      ensures !err ==> Logged(old(departures) + [removed], departures, old(tree) - {removed}, tree, removed)
      ensures err ==> departures == old(departures)
      ensures Told(mObservers, AddressDestroyed, old(departures), departures, old(notified), notified)
      ensures mDirectory.Keys <= old(mDirectory.Keys)
      decreases |mDirectory|, 0
    {
      hide Countable, TreeOk, IndexOk, Render, ValidPath, Logged, Pruned, Under, Enumerates, ReachedRightly;
      hide Notices, Told, Tells, AllListable;
      removed := [];
      ToldNothing(mObservers, AddressDestroyed, departures, notified);
      if address == S_SEPARATOR {
        return true, [];
      }
      if address !in mDirectory {
        return true, [];
      }
      var oldNode := mDirectory[address];
      removed := oldNode.path;
      ToRemove(address, dying);
      ghost var log, before := departures, notified;
      var e, order, reached := NotifyObservers(address, AddressDestroyed, removed);
      departures := departures + [removed];
      ToldOnce(mObservers, AddressDestroyed, log, removed, before, notified[|before|..]);
      ghost var told := notified;
      assert told == before + told[|before|..];
      mDirectory := mDirectory - {address};
      oldNode.Destroy(dying + {removed});
      ToldAgain(mObservers, AddressDestroyed, log, log + [removed], departures, before, told, notified);
      assert dying + {removed} - {removed} == dying;
      IndexAfterRemoval(old(tree), old(mDirectory), mDirectory, dying, removed);
      err := false;
    }

    lemma ToRemove(address: string, dying: set<Path>)
      requires TreeValid() && IndexOk(tree, mDirectory, dying) && address in mDirectory && address != S_SEPARATOR
      ensures var node := mDirectory[address]; node.directory == this && node.Live() && node.path != []
      ensures var node := mDirectory[address]; address == Render(node.path) && ValidPath(node.path)
      ensures IndexOk(tree, mDirectory - {address}, dying + {mDirectory[address].path})
      ensures forall q | q in tree :: ValidPath(q)
    {
      hide TreeOk, IndexOk, Render, ValidPath;
      TreePaths(tree, Cells());
      FoundInIndex(tree, mDirectory, dying, address);
      var p :| p in tree && p !in dying && address == Render(p) && mDirectory[address] == tree[p];
      RenderIsRootOnly(p);
      AtPath(p);
      IndexBegin(tree, mDirectory, dying, p);
    }

    /** The nodes of a moved subtree learn their new paths. */
    ghost method Relabel(cells: Cells, p: Path, p': Path, t': Tables)
      requires TreeOk(tree, cells) && Movable(tree, p, p') && ValidPath(p') && Parent(p) in tree
      requires tree[Parent(p)] != tree[p]
      requires TableMoved(cells[tree[Parent(p)]].children, t', Last(p), Last(p'), tree[p])
      requires Cells() == Replaced(cells, tree[Parent(p)], t', tree[p], Last(p'))
      requires forall n | n in tree.Values :: n.directory == this
      modifies this`tree, tree.Values`path
      ensures tree == Moved(old(tree), p, p') && TreeValid()
      ensures p' in tree && tree[p'] == old(tree)[p]
    {
      hide TreeOk, ValidPath, Moved, TableMoved, Movable, Cells, Relabelled, Replaced;
      ghost var tree' := Moved(tree, p, p');
      ghost var mid := Cells();
      CellsGive();
      RelabelOk(tree, cells, p, p', t', mid);
      Repath(tree.Values, mid, p, p');
      tree := tree';
      CellsAre(Relabelled(mid, p, p'));
    }

    /** The loop of setName and setInstance over all the keys.  Besides the node's own
        key only keys that add a lone separator would follow, and there are none. */
    method Rekey(oldAddress: string, newAddress: string)
      requires oldAddress in mDirectory && oldAddress != "" && oldAddress != S_SEPARATOR
      requires Countable(mDirectory)
      requires newAddress == oldAddress || newAddress !in mDirectory
      requires forall k | k in mDirectory :: Canonical(k)
      modifies this`mDirectory
      ensures mDirectory == Rekeyed(old(mDirectory), oldAddress, newAddress, old(mDirectory)[oldAddress])
    {
      hide Countable, Canonical, Rekeyed;
      var hk := GetKeys(mDirectory);
      ghost var m0 := mDirectory;
      RekeyedSize(m0, oldAddress, newAddress);
      var i := 0;
      while i < |mDirectory|
        invariant 0 <= i <= |hk| && |mDirectory| == |hk|
        invariant mDirectory ==
          if oldAddress in hk[..i] then Rekeyed(m0, oldAddress, newAddress, m0[oldAddress]) else m0
        decreases |hk| - i
      {
        assert hk[i] == oldAddress ==> oldAddress !in hk[..i];
        RekeyOne(oldAddress, newAddress, hk[i]);
        assert hk[..i + 1] == hk[..i] + [hk[i]];
        i := i + 1;
      }
      assert hk[..|hk|] == hk;
    }

    /** One key of that loop. */
    method RekeyOne(oldAddress: string, newAddress: string, oldKey: string)
      requires Canonical(oldKey) && oldAddress != "" && oldAddress != S_SEPARATOR
      requires oldKey == oldAddress ==> oldKey in mDirectory && (newAddress == oldAddress || newAddress !in mDirectory)
      modifies this`mDirectory
      ensures oldKey == oldAddress ==>
        mDirectory == Rekeyed(old(mDirectory), oldAddress, newAddress, old(mDirectory)[oldAddress])
      ensures oldKey != oldAddress ==> mDirectory == old(mDirectory)
    {
      hide Canonical;
      if oldAddress <= oldKey {
        if oldKey in mDirectory {
          var n := mDirectory[oldKey];
          var temp := newAddress;
          var t := oldKey[|oldAddress|..];
          NoSeparatorLeft(oldAddress, oldKey);
          if t == S_SEPARATOR || t == "" {
            assert temp + t == newAddress;
            temp := temp + t;
            mDirectory := mDirectory - {oldKey};
            mDirectory := HashAppend(mDirectory, temp, n);
          }
        }
      }
    }

    /** A node is found by its address, with all its ancestors above it. */
    lemma FoundAt(address: string, p: Path)
      requires Valid() && ValidPath(p) && address == Render(p)
      ensures address in mDirectory <==> p in tree
      ensures p in tree ==> mDirectory[address] == tree[p] && Grew(tree, tree, Prefixes(p)) && Missing(tree, p) == []
    {
      hide Render, ValidPath, TreeOk, IndexOk;
      TreePaths(tree, Cells());
      IndexedAt(tree, mDirectory, {}, p);
      if p in tree {
        PrefixesPresent(tree, Cells(), p);
      }
    }

    /** The instance a new node gets: the one in the address, or a generated one
        when the address is taken. */
    method InstanceFor(address: string, instance: string, ghost p: Path) returns (newInstance: string, created: bool)
      requires Valid() && ValidPath(p) && address == Render(p)
      requires p == [] ==> p !in tree
      requires p in tree ==> Room(Used(tree, Parent(p), Last(p).name))
      requires p != [] ==> instance == Last(p).instance
      ensures created <==> p in tree
      ensures !created ==> newInstance == instance
      ensures created ==> Generated(Used(tree, Parent(p), Last(p).name), newInstance)
      ensures ValidPath(Sibling(p, newInstance))
    {
      hide Render, ValidPath, TreeOk, IndexOk, Generated;
      TreePaths(tree, Cells());
      IndexedAt(tree, mDirectory, {}, p);
      newInstance, created := instance, false;
      if address in mDirectory {
        var found := mDirectory[address];
        AtPath(p);
        Around(found);
        UsedIsTable(Parent(p), Last(p).name);
        TablesAreTree(tree, Cells(), p);
        var e;
        e, newInstance := found.parent.GenerateInstance(found.name);
        created := true;
        GeneratedIsPlain(Used(tree, Parent(p), Last(p).name), newInstance);
      }
      SplitOfPath(p);
      SiblingValid(p, newInstance);
    }

    /** The node becomes a child of its parent. */
    method Hang(node: Node)
      requires TreeValid() && node.directory == this && node !in tree.Values
      requires Insertable(tree, Cells(), node.path, node, node.Fields())
      modifies this`tree, node.Up()`children
      ensures TreeValid() && tree == old(tree)[node.path := node]
    {
      hide ValidPath, TreeOk, Holds, WithChild, Insertable, Cells;
      InsertableMeans(tree, Cells(), node.path, node, node.Fields());
      ghost var q, before, cells := node.path, tree, Cells();
      ghost var cells' := CellsWith(tree, cells, q, node, node.Fields());
      CellsGive();
      InsertOk(tree, cells, q, node, node.Fields());
      if node.parent != null {
        TablesAreTree(tree, cells, q);
        var failed := node.parent.SetChild(node);
      }
      ValuesWith(before, q, node);
      tree := tree[q := node];
      CellsAre(cells');
    }

    /** The node is added to its parent's children, then to the index under the
        address it really has. */
    method Enter(node: Node)
      requires Valid() && node.directory == this && node !in tree.Values
      requires Insertable(tree, Cells(), node.path, node, node.Fields())
      requires Countable(mObservers)
      modifies this`tree, this`mDirectory, this`notified, this`arrivals, node.Up()`children
      ensures Valid() && tree == old(tree)[node.path := node] && arrivals == old(arrivals) + [node.path]
      ensures Told(mObservers, AddressCreated, old(arrivals), arrivals, old(notified), notified)
    {
      hide Countable, Render, TreeOk, IndexOk, ValidPath, Insertable, Told;
      TreePaths(tree, Cells());
      InsertableMeans(tree, Cells(), node.path, node, node.Fields());
      IndexInsert(tree, mDirectory, node.path, node);
      Hang(node);
      Announce(node);
    }

    /** The effective address of a new node is added to the index, and announced. */
    method Announce(node: Node)
      requires TreeValid() && node.directory == this && node.Live() && ValidPath(node.path)
      requires IndexOk(tree, HashAppend(mDirectory, Render(node.path), node), {})
      requires Countable(mObservers)
      modifies this`mDirectory, this`notified, this`arrivals
      ensures Valid() && arrivals == old(arrivals) + [node.path]
      ensures Told(mObservers, AddressCreated, old(arrivals), arrivals, old(notified), notified)
    {
      hide Countable, Render, TreeOk, IndexOk, ValidPath, Told, Tells, Enumerates, ReachedRightly, Notices, HashAppend;
      var got := node.GetOscAddress();
      mDirectory := HashAppend(mDirectory, got, node);
      var e, order, reached := NotifyObservers(got, AddressCreated, node.path);
      arrivals := arrivals + [node.path];
      ToldOnce(mObservers, AddressCreated, old(arrivals), node.path, old(notified), notified[|old(notified)|..]);
      assert notified == old(notified) + notified[|old(notified)|..];
    }

    /** What the destructors work on. */
    ghost function Now(): Snapshot
      reads this
    {
      Snapshot(tree, mDirectory, departures, notified)
    }

    /** The sizes of a node's tables, as the tree has them. */
    lemma TableSizes(p: Path)
      requires TreeValid() && p in tree
      ensures tree[p].children.Keys == NamesUsed(tree, p) && |tree[p].children| == |NamesUsed(tree, p)|
      ensures forall name | name in tree[p].children ::
        tree[p].children[name].Keys == Used(tree, p, name) && |tree[p].children[name]| == |Used(tree, p, name)|
      ensures Listable(tree, p) ==> Countable(tree[p].children)
      ensures Listable(tree, p) ==> forall name | name in tree[p].children :: Countable(tree[p].children[name])
    {
      hide TreeOk, Used;
      var t := tree[p].children;
      CellsGive();
      forall name ensures name in t <==> name in NamesUsed(tree, p) {
        if name in t {
          NoEmptyTableAt(p, name);
          var instance :| Holds(t, name, instance);
          var q := p + [Component(name, instance)];
          assert Parent(q) == p && Last(q) == Component(name, instance);
          TablesAreTree(tree, Cells(), q);
        }
        if name in NamesUsed(tree, p) {
          var q :| q in tree && q != [] && Parent(q) == p && Last(q).name == name;
          TablesAreTree(tree, Cells(), q);
        }
      }
      forall name | name in t ensures t[name].Keys == Used(tree, p, name) {
        UsedIsTable(p, name);
      }
    }

    lemma NoEmptyTableAt(p: Path, name: string)
      requires TreeValid() && p in tree
      ensures name in tree[p].children ==> exists instance :: Holds(tree[p].children, name, instance)
      ensures name in tree[p].children ==> InstancesIn(tree[p].children, name) != {}
    {
      hide TreeOk;
      CellsGive();
      if name in tree[p].children {
        NoEmptyTable(tree, Cells(), p, name);
      }
    }

    /** A child listed in the tables, and what its removal finds. */
    lemma ChildAt(p: Path, name: string, instance: string, dying: set<Path>)
      requires TreeValid() && IndexOk(tree, mDirectory, dying) && p in tree && Holds(tree[p].children, name, instance)
      requires p in dying && forall q | q in dying && p <= q :: q == p
      ensures var q, node := p + [Component(name, instance)], tree[p].children[name][instance];
        && Parent(q) == p && Last(q) == Component(name, instance) && p < q && q in tree && q !in dying && ValidPath(q)
        && tree[q] == node && node.path == q && node.directory == this
        && Render(q) in mDirectory && mDirectory[Render(q)] == node && Render(q) != S_SEPARATOR
        && forall r | r in dying :: !(q <= r)
      ensures TreeOk(tree, Cells()) && forall r | r in tree :: ValidPath(r)
    {
      hide TreeOk, IndexOk, Render, ValidPath;
      var q := p + [Component(name, instance)];
      assert Parent(q) == p && Last(q) == Component(name, instance);
      TreePaths(tree, Cells());
      CellsGive();
      TablesAreTree(tree, Cells(), q);
      AtPath(q);
      IndexedAt(tree, mDirectory, dying, q);
      RenderIsRootOnly(q);
    }

    /** A node after one of its child subtrees is gone. */
    lemma ShrunkAt(before: Tree, cells: Cells, p: Path, q: Path)
      requires TreeOk(before, cells) && TreeValid() && p in before
      requires q != [] && Parent(q) == p && tree == Pruned(before, q)
      ensures p in tree && tree[p] == before[p] && tree[p].path == p && Thinned(before, tree, p) && q !in tree
      ensures tree[p].children.Keys <= cells[before[p]].children.Keys
      ensures forall name, instance | Holds(tree[p].children, name, instance) ::
        Holds(cells[before[p]].children, name, instance) && Component(name, instance) != Last(q)
    {
      hide TreeOk, Pruned, Thinned;
      CellsGive();
      TablesShrink(before, cells, tree, Cells(), p, q);
      AtPath(p);
    }

    ghost function Cells(): Cells
      reads this`tree, tree.Values
    {
      map n | n in tree.Values :: n.Fields()
    }

    lemma CellsAre(cells: Cells)
      requires cells.Keys == tree.Values && forall n | n in cells :: n.Fields() == cells[n]
      ensures Cells() == cells
    {
    }

    lemma CellsGive()
      ensures Cells().Keys == tree.Values && forall n | n in tree.Values :: Cells()[n] == n.Fields()
    {
    }

    /** The tree and the nodes agree. */
    ghost predicate TreeValid()
      reads this`tree, tree.Values
    {
      TreeOk(tree, Cells()) && forall n | n in tree.Values :: n.directory == this
    }

    ghost predicate Valid()
      reads this, tree.Values
    {
      TreeValid() && IndexOk(tree, mDirectory, {})
    }

    /** What a node of a valid tree knows about itself. */
    lemma Around(n: Node)
      requires TreeValid() && n.path in tree && tree[n.path] == n
      ensures n.directory == this && ValidPath(n.path)
      ensures n.path == [] ==> n.parent == null && n.name == S_SEPARATOR && n.instance == NONE
      ensures n.path != [] ==>
        && Parent(n.path) in tree && n.parent == tree[Parent(n.path)] && n.parent.path == Parent(n.path)
        && n.parent.directory == this
        && Component(n.name, n.instance) == Last(n.path)
    {
      var cells := Cells();
      assert NodeOk(tree, cells, n.path) && cells[n] == n.Fields();
      if n.path != [] {
        assert NodeOk(tree, cells, Parent(n.path)) && cells[n.parent] == n.parent.Fields();
      }
    }

    lemma AtPath(p: Path)
      requires TreeValid() && p in tree
      ensures tree[p].path == p && tree[p].directory == this && ValidPath(p)
      ensures p == [] ==> tree[p].name == S_SEPARATOR
      ensures p != [] ==> Parent(p) in tree && Component(tree[p].name, tree[p].instance) == Last(p)
    {
      assert NodeOk(tree, Cells(), p) && Cells()[tree[p]] == tree[p].Fields();
    }

    lemma UsedIsTable(p: Path, name: string)
      requires TreeValid() && p in tree
      ensures Used(tree, p, name) == if name in tree[p].children then tree[p].children[name].Keys else {}
    {
      var t := tree[p].children;
      var cells := Cells();
      assert cells[tree[p]] == tree[p].Fields();
      forall instance
        ensures instance in Used(tree, p, name) <==> Holds(t, name, instance)
      {
        var q := p + [Component(name, instance)];
        assert Parent(q) == p && Last(q) == Component(name, instance);
        TablesAreTree(tree, cells, q);
        if instance in Used(tree, p, name) {
          var x :| x in tree && x != [] && Parent(x) == p && Last(x).name == name && Last(x).instance == instance;
          assert x == Parent(x) + [Last(x)];
        }
      }
    }
  }
}
