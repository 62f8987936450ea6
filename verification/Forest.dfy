/** The parent relation of instances: climbing, subtrees, and when it is a forest. */
module Forest {
  import opened Domain
  import opened Digraph

  type Instances = map<Id, Instance>

  /** Edges from parent to child. */
  ghost function ParentEdges(m: Instances): (edges: set<Edge>)
    ensures forall e :: e in edges <==> e.1 in m && m[e.1].parent == Some(e.0)
  {
    set i | i in m && m[i].parent.Some? :: (m[i].parent.value, i)
  }

  /** The k-th parent of an instance. The last id met may belong to no instance. */
  function Up(m: Instances, i: Id, k: nat): Option<Id> {
    if k == 0 then Some(i)
    else
      match Up(m, i, k - 1)
      case None => None
      case Some(x) => if x in m then m[x].parent else None
  }

  ghost predicate RootReached(m: Instances, i: Id) {
    exists k: nat :: Up(m, i, k).Some? && Up(m, i, k).value in m && m[Up(m, i, k).value].parent.None?
  }

  ghost function Subtree(m: Instances, i: Id): set<Id> {
    set x | x in m && Reaches(ParentEdges(m), i, x)
  }

  function ChildrenIn(m: Instances, i: Id): set<Id> {
    set c | c in m && m[c].parent == Some(i)
  }

  /** No descent from the instance comes back to it. */
  ghost predicate OffCycle(m: Instances, i: Id) {
    forall c :: c in ChildrenIn(m, i) ==> !Reaches(ParentEdges(m), c, i)
  }

  // ---- climbing is walking backwards ----

  lemma {:induction false} UpAdds(m: Instances, i: Id, j: nat, k: nat)
    requires Up(m, i, j).Some?
    ensures Up(m, i, j + k) == Up(m, Up(m, i, j).value, k)
  {
    if k > 0 {
      UpAdds(m, i, j, k - 1);
    }
  }

  lemma {:induction false} UpStaysNone(m: Instances, i: Id, j: nat, k: nat)
    requires j <= k && Up(m, i, j).None?
    ensures Up(m, i, k).None?
  {
    if j < k {
      UpStaysNone(m, i, j, k - 1);
    }
  }

  lemma {:induction false} UpReaches(m: Instances, i: Id, k: nat)
    requires Up(m, i, k).Some?
    ensures Reaches(ParentEdges(m), Up(m, i, k).value, i)
  {
    if k == 0 {
      ReachesSelf(ParentEdges(m), i);
    } else {
      UpReaches(m, i, k - 1);
      var x := Up(m, i, k - 1).value;
      assert (m[x].parent.value, x) in ParentEdges(m);
      ReachesEdge(ParentEdges(m), m[x].parent.value, x);
      ReachesTransitive(ParentEdges(m), m[x].parent.value, x, i);
    }
  }

  lemma {:induction false} WalkClimbs(m: Instances, w: seq<Id>)
    requires IsWalk(ParentEdges(m), w)
    ensures Up(m, w[|w| - 1], |w| - 1) == Some(w[0])
  {
    if |w| > 1 {
      WalkTail(ParentEdges(m), w);
      WalkClimbs(m, w[1..]);
      assert (w[0], w[1]) in ParentEdges(m);
    }
  }

  lemma ReachedByClimbing(m: Instances, a: Id, i: Id) returns (k: nat)
    requires Reaches(ParentEdges(m), a, i)
    ensures Up(m, i, k) == Some(a)
    ensures a != i ==> k > 0
  {
    var w :| WalkFromTo(ParentEdges(m), w, a, i);
    WalkClimbs(m, w);
    k := |w| - 1;
  }

  /** Two ancestors of one instance are on one line. */
  lemma AncestorsOnOneLine(m: Instances, a: Id, b: Id, i: Id)
    requires Reaches(ParentEdges(m), a, i) && Reaches(ParentEdges(m), b, i)
    ensures Reaches(ParentEdges(m), a, b) || Reaches(ParentEdges(m), b, a)
  {
    var j := ReachedByClimbing(m, a, i);
    var k := ReachedByClimbing(m, b, i);
    if j <= k {
      UpAdds(m, i, j, k - j);
      UpReaches(m, a, k - j);
    } else {
      UpAdds(m, i, k, j - k);
      UpReaches(m, b, j - k);
    }
  }

  /** What reaches a child without being the child reaches its parent. */
  lemma ReachesThroughParent(m: Instances, a: Id, i: Id)
    requires i in m && Reaches(ParentEdges(m), a, i) && a != i
    ensures m[i].parent.Some? && Reaches(ParentEdges(m), a, m[i].parent.value)
  {
    var k := ReachedByClimbing(m, a, i);
    if m[i].parent.None? {
      UpStaysNone(m, i, 1, k);
      assert false;
    }
    UpAdds(m, i, 1, k - 1);
    UpReaches(m, m[i].parent.value, k - 1);
  }

  lemma {:induction false} LoopForever(m: Instances, i: Id, k: nat, n: nat)
    requires k > 0 && Up(m, i, k) == Some(i)
    ensures Up(m, i, n).Some?
    decreases n
  {
    if n > k {
      LoopForever(m, i, k, n - k);
      UpAdds(m, i, k, n - k);
    } else if Up(m, i, n).None? {
      UpStaysNone(m, i, n, k);
      assert false;
    }
  }

  /** An instance whose climb ends is on no cycle. */
  lemma RootedIsOffCycle(m: Instances, i: Id)
    requires RootReached(m, i)
    ensures OffCycle(m, i)
  {
    var n: nat :| Up(m, i, n).Some? && Up(m, i, n).value in m && m[Up(m, i, n).value].parent.None?;
    forall c | c in ChildrenIn(m, i)
      ensures !Reaches(ParentEdges(m), c, i)
    {
      if Reaches(ParentEdges(m), c, i) {
        var k := ReachedByClimbing(m, c, i);
        assert Up(m, i, k + 1) == Some(i);
        LoopForever(m, i, k + 1, n + 1);
        assert false;
      }
    }
  }

  /** A climb among some of the instances is the same climb among all of them. */
  lemma {:induction false} UpInLarger(small: Instances, large: Instances, i: Id, k: nat)
    requires forall x :: x in small ==> x in large && large[x] == small[x]
    requires Up(small, i, k).Some?
    ensures Up(large, i, k) == Up(small, i, k)
  {
    if k > 0 {
      UpInLarger(small, large, i, k - 1);
    }
  }

  lemma RootReachedInLarger(small: Instances, large: Instances, i: Id)
    requires forall x :: x in small ==> x in large && large[x] == small[x]
    requires RootReached(small, i)
    ensures RootReached(large, i)
  {
    var k: nat :| Up(small, i, k).Some? && Up(small, i, k).value in small && small[Up(small, i, k).value].parent.None?;
    UpInLarger(small, large, i, k);
  }

  // ---- subtrees ----

  /** A subtree is its root and the subtrees of the children. */
  lemma SubtreeUnfolds(m: Instances, i: Id, x: Id)
    requires i in m
    ensures x in Subtree(m, i) <==> x == i || exists c :: c in ChildrenIn(m, i) && x in Subtree(m, c)
  {
    var edges := ParentEdges(m);
    ReachesSelf(edges, i);
    if x in Subtree(m, i) && x != i {
      var w :| WalkFromTo(edges, w, i, x);
      WalkTail(edges, w);
      assert (w[0], w[1]) in edges;
      assert w[1] in ChildrenIn(m, i) && x in Subtree(m, w[1]);
    }
    forall c | c in ChildrenIn(m, i) && x in Subtree(m, c)
      ensures x in Subtree(m, i)
    {
      assert (i, c) in edges;
      ReachesEdge(edges, i, c);
      ReachesTransitive(edges, i, c, x);
    }
  }

  /** Off a cycle, a child's subtree is a proper part that does not hold the parent. */
  lemma ChildSubtreeShrinks(m: Instances, i: Id, c: Id)
    requires i in m && c in ChildrenIn(m, i) && OffCycle(m, i)
    ensures Subtree(m, c) < Subtree(m, i) && i !in Subtree(m, c) && c in Subtree(m, c)
    ensures OffCycle(m, c)
  {
    var edges := ParentEdges(m);
    forall x | x in Subtree(m, c)
      ensures x in Subtree(m, i)
    {
      SubtreeUnfolds(m, i, x);
    }
    SubtreeUnfolds(m, i, i);
    ReachesSelf(edges, c);
    forall d | d in ChildrenIn(m, c)
      ensures !Reaches(edges, d, c)
    {
      if Reaches(edges, d, c) {
        assert (c, d) in edges;
        ReachesEdge(edges, c, d);
        if d != c {
          ReachesThroughParent(m, d, c);
          ReachesTransitive(edges, c, d, i);
        }
        assert false;
      }
    }
  }

  /** Off a cycle, the subtrees of two children are disjoint. */
  lemma SiblingsAreDisjoint(m: Instances, i: Id, c: Id, d: Id)
    requires c in ChildrenIn(m, i) && d in ChildrenIn(m, i) && c != d && OffCycle(m, i)
    ensures Subtree(m, c) !! Subtree(m, d)
  {
    forall x | x in Subtree(m, c) && x in Subtree(m, d)
      ensures false
    {
      AncestorsOnOneLine(m, c, d, x);
      if Reaches(ParentEdges(m), c, d) {
        ReachesThroughParent(m, c, d);
      } else {
        ReachesThroughParent(m, d, c);
      }
      assert false;
    }
  }

  /** The subtrees of two roots are disjoint. */
  lemma RootsAreDisjoint(m: Instances, c: Id, d: Id)
    requires c in m && d in m && m[c].parent.None? && m[d].parent.None? && c != d
    ensures Subtree(m, c) !! Subtree(m, d)
  {
    forall x | x in Subtree(m, c) && x in Subtree(m, d)
      ensures false
    {
      AncestorsOnOneLine(m, c, d, x);
      if Reaches(ParentEdges(m), c, d) {
        ReachesThroughParent(m, c, d);
      } else {
        ReachesThroughParent(m, d, c);
      }
      assert false;
    }
  }

  // ---- forests ----

  /** In a finite forest whose parents all exist every climb ends at a root. */
  lemma {:induction false} ClimbEnds(m: Instances, i: Id, seen: set<Id>, from: Id, k: nat)
    requires Acyclic(ParentEdges(m))
    requires forall x :: x in m && m[x].parent.Some? ==> m[x].parent.value in m
    requires i in m && Up(m, i, k) == Some(from) && from in m && from in seen
    requires forall x :: x in seen ==> Reaches(ParentEdges(m), from, x)
    ensures RootReached(m, i)
    decreases m.Keys - seen
  {
    if m[from].parent.Some? {
      var p := m[from].parent.value;
      var edges := ParentEdges(m);
      assert (p, from) in edges;
      AcyclicMeansNoReturn(edges);
      assert p !in seen;
      ReachesEdge(edges, p, from);
      ReachesSelf(edges, p);
      forall x | x in seen + {p}
        ensures Reaches(edges, p, x)
      {
        if x in seen {
          ReachesTransitive(edges, p, from, x);
        }
      }
      assert p in m.Keys - seen;
      ClimbEnds(m, i, seen + {p}, p, k + 1);
    }
  }

  /** Moving an instance under a new parent keeps a forest a forest exactly when the new
      parent is not the instance itself or something below it. */
  lemma MoveKeepsForest(m: Instances, child: Id, parent: Id)
    requires child in m && Acyclic(ParentEdges(m))
    ensures Acyclic(ParentEdges(m[child := m[child].(parent := Some(parent))]))
       <==> !Reaches(ParentEdges(m), child, parent)
  {
    var moved := m[child := m[child].(parent := Some(parent))];
    var cut := m[child := m[child].(parent := None)];
    assert ParentEdges(moved) == ParentEdges(cut) + {(parent, child)};
    AcyclicSubset(ParentEdges(cut), ParentEdges(m));
    AddEdgeAcyclic(ParentEdges(cut), parent, child);
    if Reaches(ParentEdges(cut), child, parent) {
      ReachesMonotone(ParentEdges(cut), ParentEdges(m), child, parent);
    }
    if Reaches(ParentEdges(m), child, parent) {
      var w :| WalkFromTo(ParentEdges(m), w, child, parent);
      forall k | 0 <= k < |w| - 1
        ensures (w[k], w[k + 1]) in ParentEdges(cut)
      {
        assert (w[k], w[k + 1]) in ParentEdges(m);
        assert IsWalk(ParentEdges(m), w[..k + 2]);
        assert w[k + 1] != child;
      }
      assert WalkFromTo(ParentEdges(cut), w, child, parent);
    }
  }
}
