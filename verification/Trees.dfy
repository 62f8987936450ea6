/** The containment tree of a catalog, built from a flat list of instances, and the path of
    an instance's ancestors. */
module Trees {
  import opened Domain
  import opened Digraph
  import opened Forest

  // ---- order of siblings ----

  /** Byte-wise string comparison. */
  predicate StrLess(a: string, b: string) {
    if b == "" then false
    else if a == "" then true
    else if a[0] != b[0] then a[0] < b[0]
    else StrLess(a[1..], b[1..])
  }

  /** The first difference decides. */
  lemma {:induction false} FirstDifferenceDecides(a: string, b: string, k: nat)
    requires k < |a| && k < |b| && a[..k] == b[..k] && a[k] != b[k]
    ensures StrLess(a, b) <==> a[k] < b[k]
  {
    if k > 0 {
      assert a[0] == a[..k][0] && b[0] == b[..k][0];
      assert a[1..][..k - 1] == a[..k][1..] && b[1..][..k - 1] == b[..k][1..];
      FirstDifferenceDecides(a[1..], b[1..], k - 1);
    }
  }

  /** Where there is none, the shorter text comes first. */
  lemma {:induction false} PrefixComesFirst(a: string, b: string)
    requires a <= b
    ensures StrLess(a, b) <==> |a| < |b|
    ensures !StrLess(b, a)
  {
    if a != "" {
      PrefixComesFirst(a[1..], b[1..]);
    }
  }

  lemma {:induction false} StrLessTotal(a: string, b: string)
    ensures StrLess(a, b) || StrLess(b, a) || a == b
    ensures !(StrLess(a, b) && StrLess(b, a))
  {
    if a != "" && b != "" && a[0] == b[0] {
      StrLessTotal(a[1..], b[1..]);
      assert a == [a[0]] + a[1..] && b == [b[0]] + b[1..];
    }
  }

  lemma {:induction false} StrLessTransitive(a: string, b: string, c: string)
    requires StrLess(a, b) && StrLess(b, c)
    ensures StrLess(a, c)
  {
    if a != "" && a[0] == b[0] && b[0] == c[0] {
      StrLessTransitive(a[1..], b[1..], c[1..]);
    }
  }

  datatype TreeNode = TreeNode(id: Id, typeName: string, name: string, children: seq<TreeNode>)

  /** By type name, then by name. */
  predicate NodeLess(x: TreeNode, y: TreeNode) {
    if x.typeName != y.typeName then StrLess(x.typeName, y.typeName) else StrLess(x.name, y.name)
  }

  lemma NodeLessTotal(x: TreeNode, y: TreeNode)
    ensures !(NodeLess(x, y) && NodeLess(y, x))
  {
    StrLessTotal(x.typeName, y.typeName);
    StrLessTotal(x.name, y.name);
  }

  /** "Not after" is transitive. */
  lemma NotAfterTransitive(x: TreeNode, y: TreeNode, z: TreeNode)
    requires !NodeLess(y, x) && !NodeLess(z, y)
    ensures !NodeLess(z, x)
  {
    StrLessTotal(x.typeName, y.typeName);
    StrLessTotal(y.typeName, z.typeName);
    StrLessTotal(x.typeName, z.typeName);
    StrLessTotal(x.name, y.name);
    StrLessTotal(y.name, z.name);
    StrLessTotal(x.name, z.name);
    if x.typeName != y.typeName && y.typeName != z.typeName {
      StrLessTransitive(x.typeName, y.typeName, z.typeName);
    }
    if StrLess(x.name, y.name) && StrLess(y.name, z.name) {
      StrLessTransitive(x.name, y.name, z.name);
    }
  }

  ghost predicate InOrder(nodes: seq<TreeNode>) {
    forall j, k :: 0 <= j < k < |nodes| ==> !NodeLess(nodes[k], nodes[j])
  }

  function Insert(n: TreeNode, nodes: seq<TreeNode>): seq<TreeNode> {
    if nodes == [] || NodeLess(n, nodes[0]) then [n] + nodes else [nodes[0]] + Insert(n, nodes[1..])
  }

  /** The library sort, up to the order of equal nodes. */
  function Sort(nodes: seq<TreeNode>): seq<TreeNode> {
    if nodes == [] then [] else Insert(nodes[0], Sort(nodes[1..]))
  }

  // ---- what a tree says ----

  /** Every id the trees hold, with multiplicity. */
  ghost function Bag(nodes: seq<TreeNode>): multiset<Id>
    decreases nodes
  {
    if nodes == [] then multiset{}
    else multiset{nodes[0].id} + Bag(nodes[0].children) + Bag(nodes[1..])
  }

  /** The node shows its instance, sits under the instance's parent, and so do its children, in order. */
  ghost predicate Shows(m: Instances, typeName: Id -> string, n: TreeNode, parent: Option<Id>)
    decreases n
  {
    && n.id in m && m[n.id].parent == parent
    && n.name == m[n.id].name && n.typeName == typeName(m[n.id].typeId)
    && InOrder(n.children)
    && forall k :: 0 <= k < |n.children| ==> Shows(m, typeName, n.children[k], Some(n.id))
  }

  lemma BagOfCons(n: TreeNode, nodes: seq<TreeNode>)
    ensures Bag([n] + nodes) == multiset{n.id} + Bag(n.children) + Bag(nodes)
  {
    assert ([n] + nodes)[1..] == nodes;
  }

  lemma {:induction false} InsertKeepsBag(n: TreeNode, nodes: seq<TreeNode>)
    ensures Bag(Insert(n, nodes)) == multiset{n.id} + Bag(n.children) + Bag(nodes)
  {
    hide NodeLess;
    if nodes == [] || NodeLess(n, nodes[0]) {
      BagOfCons(n, nodes);
    } else {
      InsertKeepsBag(n, nodes[1..]);
      BagOfCons(nodes[0], Insert(n, nodes[1..]));
    }
  }

  lemma {:induction false} InsertKeepsNodes(n: TreeNode, nodes: seq<TreeNode>)
    ensures multiset(Insert(n, nodes)) == multiset([n]) + multiset(nodes)
  {
    hide NodeLess;
    if nodes != [] && !NodeLess(n, nodes[0]) {
      InsertKeepsNodes(n, nodes[1..]);
      assert nodes == [nodes[0]] + nodes[1..];
    }
  }

  lemma PrependInOrder(n: TreeNode, nodes: seq<TreeNode>)
    requires InOrder(nodes) && forall k :: 0 <= k < |nodes| ==> !NodeLess(nodes[k], n)
    ensures InOrder([n] + nodes)
  {
    hide NodeLess;
  }

  lemma {:induction false} InsertKeepsOrder(n: TreeNode, nodes: seq<TreeNode>)
    requires InOrder(nodes)
    ensures InOrder(Insert(n, nodes))
  {
    hide NodeLess;
    if nodes == [] {
      assert Insert(n, nodes) == [n];
    } else if NodeLess(n, nodes[0]) {
      NodeLessTotal(n, nodes[0]);
      forall k | 0 <= k < |nodes|
        ensures !NodeLess(nodes[k], n)
      {
        if k > 0 {
          NotAfterTransitive(n, nodes[0], nodes[k]);
        }
      }
      PrependInOrder(n, nodes);
    } else {
      var rest := Insert(n, nodes[1..]);
      assert InOrder(nodes[1..]);
      InsertKeepsOrder(n, nodes[1..]);
      InsertKeepsNodes(n, nodes[1..]);
      HeadNotAfter(n, nodes, rest);
      PrependInOrder(nodes[0], rest);
    }
  }

  lemma HeadNotAfter(n: TreeNode, nodes: seq<TreeNode>, rest: seq<TreeNode>)
    requires nodes != [] && InOrder(nodes) && !NodeLess(n, nodes[0])
    requires multiset(rest) == multiset([n]) + multiset(nodes[1..])
    ensures forall k :: 0 <= k < |rest| ==> !NodeLess(rest[k], nodes[0])
  {
    hide NodeLess;
    forall k | 0 <= k < |rest|
      ensures !NodeLess(rest[k], nodes[0])
    {
      assert rest[k] in multiset(rest);
      if rest[k] != n {
        assert rest[k] in nodes[1..];
      }
    }
  }

  lemma {:induction false} SortFacts(nodes: seq<TreeNode>)
    ensures InOrder(Sort(nodes))
    ensures multiset(Sort(nodes)) == multiset(nodes)
    ensures Bag(Sort(nodes)) == Bag(nodes)
  {
    if nodes != [] {
      SortFacts(nodes[1..]);
      InsertKeepsBag(nodes[0], Sort(nodes[1..]));
      InsertKeepsNodes(nodes[0], Sort(nodes[1..]));
      InsertKeepsOrder(nodes[0], Sort(nodes[1..]));
      assert nodes == [nodes[0]] + nodes[1..];
    }
  }

  lemma {:induction false} BagOfAppend(nodes: seq<TreeNode>, n: TreeNode)
    ensures Bag(nodes + [n]) == Bag(nodes) + multiset{n.id} + Bag(n.children)
  {
    if nodes != [] {
      BagOfAppend(nodes[1..], n);
      assert (nodes + [n])[1..] == nodes[1..] + [n];
    } else {
      assert [] + [n] == [n] && [n][1..] == [];
    }
  }

  // ---- what lies below a parent ----

  /** Proper descendants; with no parent, everything whose climb ends at a root. */
  ghost function Below(m: Instances, parent: Option<Id>): set<Id> {
    match parent
    case Some(p) => Subtree(m, p) - {p}
    case None => set x | x in m && RootReached(m, x)
  }

  function ListedUnder(m: Instances, parent: Option<Id>): set<Id> {
    set c | c in m && m[c].parent == parent
  }

  lemma RootReachedMeansUnderARoot(m: Instances, x: Id)
    requires x in m
    ensures RootReached(m, x) <==> exists r :: r in ListedUnder(m, None) && x in Subtree(m, r)
  {
    if RootReached(m, x) {
      var k: nat :| Up(m, x, k).Some? && Up(m, x, k).value in m && m[Up(m, x, k).value].parent.None?;
      UpReaches(m, x, k);
      assert Up(m, x, k).value in ListedUnder(m, None);
    }
    if r :| r in ListedUnder(m, None) && x in Subtree(m, r) {
      var k := ReachedByClimbing(m, r, x);
    }
  }

  lemma RootReachedGoesDown(m: Instances, p: Id, c: Id)
    requires c in m && m[c].parent == Some(p) && RootReached(m, p)
    ensures RootReached(m, c)
  {
    var k: nat :| Up(m, p, k).Some? && Up(m, p, k).value in m && m[Up(m, p, k).value].parent.None?;
    UpAdds(m, c, 1, k);
    assert Up(m, c, 1 + k) == Up(m, p, k);
  }

  ghost predicate Buildable(m: Instances, parent: Option<Id>) {
    parent.Some? ==> parent.value in m && RootReached(m, parent.value)
  }

  /** Below a parent lie its children's subtrees, which are disjoint, each one child and what lies below it. */
  lemma BelowUnfolds(m: Instances, parent: Option<Id>, x: Id)
    requires Buildable(m, parent)
    ensures x in Below(m, parent) <==> exists c :: c in ListedUnder(m, parent) && x in Subtree(m, c)
  {
    match parent
    case None =>
      if x in m {
        RootReachedMeansUnderARoot(m, x);
      }
    case Some(p) =>
      RootedIsOffCycle(m, p);
      SubtreeUnfolds(m, p, x);
      if c :| c in ListedUnder(m, parent) && x in Subtree(m, c) {
        ChildSubtreeShrinks(m, p, c);
      }
  }

  lemma ChildFacts(m: Instances, parent: Option<Id>, c: Id)
    requires Buildable(m, parent) && c in ListedUnder(m, parent)
    ensures Buildable(m, Some(c))
    ensures Below(m, Some(c)) < Below(m, parent)
    ensures Subtree(m, c) == {c} + Below(m, Some(c)) && c !in Below(m, Some(c))
  {
    ReachesSelf(ParentEdges(m), c);
    if parent.Some? {
      RootReachedGoesDown(m, parent.value, c);
    } else {
      assert Up(m, c, 0) == Some(c);
    }
    forall x | x in Subtree(m, c)
      ensures x in Below(m, parent)
    {
      BelowUnfolds(m, parent, x);
    }
  }

  lemma ListedAreDisjoint(m: Instances, parent: Option<Id>, c: Id, d: Id)
    requires Buildable(m, parent) && c in ListedUnder(m, parent) && d in ListedUnder(m, parent) && c != d
    ensures Subtree(m, c) !! Subtree(m, d)
  {
    match parent
    case None => RootsAreDisjoint(m, c, d);
    case Some(p) =>
      RootedIsOffCycle(m, p);
      SiblingsAreDisjoint(m, p, c, d);
  }

  // ---- the builder ----

  type ChildIndex = map<Option<Id>, seq<Id>>

  function ChildrenAt(index: ChildIndex, parent: Option<Id>): seq<Id> {
    if parent in index then index[parent] else []
  }

  ghost predicate Indexes(m: Instances, index: ChildIndex) {
    forall parent :: Distinct(ChildrenAt(index, parent))
                     && forall c :: c in ChildrenAt(index, parent) <==> c in ListedUnder(m, parent)
  }

  method IndexChildren(m: Instances, order: seq<Id>) returns (index: ChildIndex)
    requires Distinct(order) && forall i :: i in order <==> i in m
    ensures Indexes(m, index)
  {
    index := map[];
    for k := 0 to |order|
      invariant forall parent :: Distinct(ChildrenAt(index, parent))
      invariant forall parent, c :: c in ChildrenAt(index, parent) <==> c in order[..k] && m[c].parent == parent
    {
      var i := order[k];
      var parent := m[i].parent;
      ghost var was := index;
      index := index[parent := ChildrenAt(index, parent) + [i]];
      assert order[..k + 1] == order[..k] + [i];
      assert i !in order[..k];
      forall q
        ensures Distinct(ChildrenAt(index, q))
        ensures forall c :: c in ChildrenAt(index, q) <==> c in order[..k + 1] && m[c].parent == q
      {
        assert forall c :: c in ChildrenAt(was, q) <==> c in order[..k] && m[c].parent == q;
        assert ChildrenAt(index, q) == ChildrenAt(was, q) + if q == parent then [i] else [];
      }
    }
    assert order[..|order|] == order;
  }

  method BuildNodes(m: Instances, typeName: Id -> string, index: ChildIndex, parent: Option<Id>)
    returns (nodes: seq<TreeNode>)
    requires Indexes(m, index) && Buildable(m, parent)
    ensures InOrder(nodes)
    ensures forall k :: 0 <= k < |nodes| ==> Shows(m, typeName, nodes[k], parent)
    ensures Bag(nodes) == multiset(Below(m, parent))
    decreases Below(m, parent)
  {
    hide *;
    var children := ChildrenAt(index, parent);
    nodes := [];
    ghost var covered: set<Id> := {};
    CoversNothing(m);
    assert children[..0] == [];
    for k := 0 to |children|
      invariant forall j :: 0 <= j < |nodes| ==> Shows(m, typeName, nodes[j], parent)
      invariant Covers(m, children[..k], covered)
      invariant Bag(nodes) == multiset(covered)
    {
      var c := children[k];
      ListedInM(m, index, parent, k);
      ChildFacts(m, parent, c);
      var below := BuildNodes(m, typeName, index, Some(c));
      var node := TreeNode(c, typeName(m[c].typeId), m[c].name, below);
      BagOfAppend(nodes, node);
      CoversMore(m, index, parent, k, covered);
      NodeShows(m, typeName, node, parent);
      covered := covered + Subtree(m, c);
      nodes := nodes + [node];
    }
    CoversAll(m, index, parent, covered);
    SortFacts(nodes);
    ghost var unsorted := nodes;
    nodes := Sort(nodes);
    forall k | 0 <= k < |nodes|
      ensures Shows(m, typeName, nodes[k], parent)
    {
      assert nodes[k] in multiset(unsorted);
    }
  }

  ghost predicate Covers(m: Instances, tops: seq<Id>, covered: set<Id>) {
    forall x :: x in covered <==> exists j :: 0 <= j < |tops| && x in Subtree(m, tops[j])
  }

  lemma CoversMore(m: Instances, index: ChildIndex, parent: Option<Id>, k: nat, covered: set<Id>)
    requires Indexes(m, index) && Buildable(m, parent) && k < |ChildrenAt(index, parent)|
    requires Covers(m, ChildrenAt(index, parent)[..k], covered)
    ensures var children := ChildrenAt(index, parent);
            var c := children[k];
            && Covers(m, children[..k + 1], covered + Subtree(m, c))
            && multiset(covered + Subtree(m, c)) == multiset(covered) + multiset{c} + multiset(Below(m, Some(c)))
  {
    hide Subtree, Below, ListedUnder;
    var children := ChildrenAt(index, parent);
    var c := children[k];
    ChildFacts(m, parent, c);
    var below := Below(m, Some(c));
    forall x | x in covered
      ensures x !in Subtree(m, c)
    {
      var j :| 0 <= j < k && x in Subtree(m, children[..k][j]);
      assert children[j] in children;
      ListedAreDisjoint(m, parent, children[j], c);
    }
    assert covered !! Subtree(m, c);
    assert multiset(covered + Subtree(m, c)) == multiset(covered) + multiset(Subtree(m, c));
    assert multiset({c} + below) == multiset{c} + multiset(below);
    var fewer, more := children[..k], children[..k + 1];
    forall x
      ensures x in covered + Subtree(m, c) <==> exists j :: 0 <= j < |more| && x in Subtree(m, more[j])
    {
      if x in covered {
        var j :| 0 <= j < k && x in Subtree(m, fewer[j]);
        assert more[j] == fewer[j];
      }
      if x in Subtree(m, c) {
        assert more[k] == c;
      }
      if j :| 0 <= j < |more| && x in Subtree(m, more[j]) {
        assert j < k ==> fewer[j] == more[j];
      }
    }
  }

  lemma CoversAll(m: Instances, index: ChildIndex, parent: Option<Id>, covered: set<Id>)
    requires Indexes(m, index) && Buildable(m, parent)
    requires Covers(m, ChildrenAt(index, parent)[..|ChildrenAt(index, parent)|], covered)
    ensures covered == Below(m, parent)
  {
    hide Subtree, Below, ListedUnder;
    var children := ChildrenAt(index, parent);
    assert children[..|children|] == children;
    forall x
      ensures x in covered <==> x in Below(m, parent)
    {
      BelowUnfolds(m, parent, x);
      if x in covered {
        var j :| 0 <= j < |children| && x in Subtree(m, children[j]);
        assert children[j] in children;
      }
      if c :| c in ListedUnder(m, parent) && x in Subtree(m, c) {
        assert c in children;
        var j :| 0 <= j < |children| && children[j] == c;
      }
    }
  }

  lemma ListedInM(m: Instances, index: ChildIndex, parent: Option<Id>, k: nat)
    requires Indexes(m, index) && k < |ChildrenAt(index, parent)|
    ensures var c := ChildrenAt(index, parent)[k];
            c in ListedUnder(m, parent) && c in m && m[c].parent == parent
  {
  }

  lemma CoversNothing(m: Instances)
    ensures Covers(m, [], {}) && Bag([]) == multiset{}
  {
  }

  lemma NodeShows(m: Instances, typeName: Id -> string, n: TreeNode, parent: Option<Id>)
    requires n.id in m && m[n.id].parent == parent
    requires n.name == m[n.id].name && n.typeName == typeName(m[n.id].typeId)
    requires InOrder(n.children)
    requires forall k :: 0 <= k < |n.children| ==> Shows(m, typeName, n.children[k], Some(n.id))
    ensures Shows(m, typeName, n, parent)
  {
  }

  /** Ends on every list of distinct instances, parent cycles included, and shows each
      instance whose climb reaches a root exactly once, under its parent, siblings in order. */
  method GetContainmentTree(m: Instances, order: seq<Id>, typeName: Id -> string) returns (roots: seq<TreeNode>)
    requires Distinct(order) && forall i :: i in order <==> i in m
    ensures InOrder(roots)
    ensures forall k :: 0 <= k < |roots| ==> Shows(m, typeName, roots[k], None)
    ensures Bag(roots) == multiset(set x | x in m && RootReached(m, x))
  {
    var index := IndexChildren(m, order);
    roots := BuildNodes(m, typeName, index, None);
  }

  // ---- the path of ancestors ----

  /** Walks up while the parent exists and has not been met, so it ends on any table; on a
      forest it stops only at a root or a missing parent, having listed exactly the proper
      ancestors, the topmost first. */
  method BuildParentPath(m: Instances, i: Id) returns (path: seq<string>)
    requires i in m
    ensures AncestorNames(m, i, path)
    ensures var next := Up(m, i, |path| + 1);
            next.None? || next.value !in m || Passed(m, i, |path|, next.value)
    ensures Acyclic(ParentEdges(m)) ==>
              var next := Up(m, i, |path| + 1); next.None? || next.value !in m
  {
    hide AncestorNames;
    path := [];
    var visited: set<Id> := {};
    var current := m[i].parent;
    assert current == Up(m, i, 1);
    NoAncestorsYet(m, i);
    while current.Some? && current.value in m && current.value !in visited
      invariant current == Up(m, i, |path| + 1)
      invariant visited <= m.Keys
      invariant Met(m, i, |path|, visited)
      invariant AncestorNames(m, i, path)
      decreases m.Keys - visited
    {
      OneMore(m, i, path, visited);
      visited := visited + {current.value};
      path := [m[current.value].name] + path;
      current := m[current.value].parent;
    }
    if current.Some? && current.value in m {
      ghost var k :| 1 <= k <= |path| && Up(m, i, k) == current;
      if Acyclic(ParentEdges(m)) {
        NoRepeat(m, i, k, |path| + 1);
      }
    }
  }

  ghost predicate Passed(m: Instances, i: Id, n: nat, x: Id) {
    exists k :: 1 <= k <= n && Up(m, i, k) == Some(x)
  }

  ghost predicate Met(m: Instances, i: Id, n: nat, visited: set<Id>) {
    forall x :: x in visited <==> Passed(m, i, n, x)
  }

  lemma NoAncestorsYet(m: Instances, i: Id)
    ensures AncestorNames(m, i, []) && Met(m, i, 0, {})
  {
  }

  lemma OneMore(m: Instances, i: Id, path: seq<string>, visited: set<Id>)
    requires AncestorNames(m, i, path) && Met(m, i, |path|, visited)
    requires Up(m, i, |path| + 1).Some? && Up(m, i, |path| + 1).value in m
    ensures var x := Up(m, i, |path| + 1).value;
            && AncestorNames(m, i, [m[x].name] + path)
            && Met(m, i, |path| + 1, visited + {x})
            && Up(m, i, |path| + 2) == m[x].parent
  {
    var n := |path| + 1;
    var x := Up(m, i, n).value;
    assert Up(m, i, n + 1) == m[x].parent;
    forall k | 1 <= k <= n
      ensures Up(m, i, k).Some? && Up(m, i, k).value in m
      ensures ([m[x].name] + path)[n - k] == m[Up(m, i, k).value].name
    {
      if k < n {
        assert ([m[x].name] + path)[n - k] == path[|path| - k];
      }
    }
    MetMore(m, i, n, visited, x);
  }

  lemma MetMore(m: Instances, i: Id, n: nat, visited: set<Id>, x: Id)
    requires n > 0 && Met(m, i, n - 1, visited) && Up(m, i, n) == Some(x)
    ensures Met(m, i, n, visited + {x})
  {
    hide Passed;
    forall y
      ensures y in visited + {x} <==> Passed(m, i, n, y)
    {
      PassedMore(m, i, n, y);
    }
  }

  lemma PassedMore(m: Instances, i: Id, n: nat, y: Id)
    requires n > 0
    ensures Passed(m, i, n, y) <==> Passed(m, i, n - 1, y) || Up(m, i, n) == Some(y)
  {
    hide Up;
  }

  /** The names of the first |path| ancestors of an instance, the nearest last. */
  ghost predicate AncestorNames(m: Instances, i: Id, path: seq<string>) {
    forall k :: 1 <= k <= |path| ==>
      && Up(m, i, k).Some? && Up(m, i, k).value in m
      && path[|path| - k] == m[Up(m, i, k).value].name
  }

  lemma NoRepeat(m: Instances, i: Id, j: nat, k: nat)
    requires Acyclic(ParentEdges(m)) && j < k && Up(m, i, j).Some?
    ensures Up(m, i, k) != Up(m, i, j)
  {
    if Up(m, i, k) == Up(m, i, j) {
      var a := Up(m, i, j).value;
      UpAdds(m, i, j, k - j);
      UpAdds(m, i, j, k - j - 1);
      var c := Up(m, a, k - j - 1).value;
      assert (a, c) in ParentEdges(m);
      UpReaches(m, a, k - j - 1);
      AcyclicMeansNoReturn(ParentEdges(m));
      assert false;
    }
  }
}
