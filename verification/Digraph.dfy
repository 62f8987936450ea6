/** Walks, reachability and acyclicity of finite directed graphs. The containment
    graph of entity types and the parent relation of instances are both read this way. */
module Digraph {
  import opened Domain

  type Edge = (Id, Id)

  ghost predicate IsWalk(edges: set<Edge>, w: seq<Id>) {
    && |w| > 0
    && forall k :: 0 <= k < |w| - 1 ==> (w[k], w[k + 1]) in edges
  }

  ghost predicate WalkFromTo(edges: set<Edge>, w: seq<Id>, a: Id, b: Id) {
    IsWalk(edges, w) && w[0] == a && w[|w| - 1] == b
  }

  /** Reflexive and transitive. */
  ghost predicate Reaches(edges: set<Edge>, a: Id, b: Id) {
    exists w :: WalkFromTo(edges, w, a, b)
  }

  ghost predicate Acyclic(edges: set<Edge>) {
    forall w :: IsWalk(edges, w) && |w| >= 2 ==> w[0] != w[|w| - 1]
  }

  ghost predicate IsRoot(edges: set<Edge>, v: Id) {
    forall e :: e in edges ==> e.1 != v
  }

  lemma ReachesSelf(edges: set<Edge>, a: Id)
    ensures Reaches(edges, a, a)
  {
    assert WalkFromTo(edges, [a], a, a);
  }

  lemma ReachesEdge(edges: set<Edge>, a: Id, b: Id)
    requires (a, b) in edges
    ensures Reaches(edges, a, b)
  {
    assert WalkFromTo(edges, [a, b], a, b);
  }

  lemma ReachesTransitive(edges: set<Edge>, a: Id, b: Id, c: Id)
    requires Reaches(edges, a, b) && Reaches(edges, b, c)
    ensures Reaches(edges, a, c)
  {
    var v :| WalkFromTo(edges, v, a, b);
    var w :| WalkFromTo(edges, w, b, c);
    var joined := v + w[1..];
    forall k | 0 <= k < |joined| - 1
      ensures (joined[k], joined[k + 1]) in edges
    {
      if k == |v| - 1 {
        assert (w[0], w[1]) in edges;
      } else if k >= |v| {
        assert (w[k - |v| + 1], w[k - |v| + 2]) in edges;
      } else {
        assert (v[k], v[k + 1]) in edges;
      }
    }
    assert WalkFromTo(edges, joined, a, c);
  }

  lemma ReachesMonotone(small: set<Edge>, large: set<Edge>, a: Id, b: Id)
    requires small <= large && Reaches(small, a, b)
    ensures Reaches(large, a, b)
  {
    var w :| WalkFromTo(small, w, a, b);
    assert WalkFromTo(large, w, a, b);
  }

  lemma AcyclicSubset(small: set<Edge>, large: set<Edge>)
    requires small <= large && Acyclic(large)
    ensures Acyclic(small)
  {
    forall w | IsWalk(small, w) && |w| >= 2
      ensures w[0] != w[|w| - 1]
    {
      assert IsWalk(large, w);
    }
  }

  lemma WalkTail(edges: set<Edge>, w: seq<Id>)
    requires IsWalk(edges, w) && |w| >= 2
    ensures WalkFromTo(edges, w[1..], w[1], w[|w| - 1])
    ensures Reaches(edges, w[1], w[|w| - 1])
  {
    forall k | 0 <= k < |w[1..]| - 1
      ensures (w[1..][k], w[1..][k + 1]) in edges
    {
      assert (w[k + 1], w[k + 2]) in edges;
    }
    assert WalkFromTo(edges, w[1..], w[1], w[|w| - 1]);
  }

  /** A set closed under the edges holds everything its members reach. */
  lemma {:induction false} ClosedUnderReach(edges: set<Edge>, s: set<Id>, w: seq<Id>)
    requires IsWalk(edges, w) && w[0] in s
    requires forall e :: e in edges && e.0 in s ==> e.1 in s
    ensures w[|w| - 1] in s
  {
    if |w| > 1 {
      WalkTail(edges, w);
      assert (w[0], w[1]) in edges;
      ClosedUnderReach(edges, s, w[1..]);
    }
  }

  lemma ReturnClosesACycle(edges: set<Edge>, e: Edge)
    requires e in edges && Reaches(edges, e.1, e.0)
    ensures !Acyclic(edges)
  {
    var w :| WalkFromTo(edges, w, e.1, e.0);
    var loop := [e.0] + w;
    forall k | 0 <= k < |loop| - 1
      ensures (loop[k], loop[k + 1]) in edges
    {
      if k > 0 {
        assert (w[k - 1], w[k]) in edges;
      }
    }
    assert IsWalk(edges, loop);
  }

  /** No edge of an acyclic graph is closed by a return trip, and conversely. */
  lemma AcyclicMeansNoReturn(edges: set<Edge>)
    ensures Acyclic(edges) <==> forall e :: e in edges ==> !Reaches(edges, e.1, e.0)
  {
    forall e | e in edges && Reaches(edges, e.1, e.0)
      ensures !Acyclic(edges)
    {
      ReturnClosesACycle(edges, e);
    }
    if !Acyclic(edges) {
      var w :| IsWalk(edges, w) && |w| >= 2 && w[0] == w[|w| - 1];
      WalkTail(edges, w);
      var e := (w[0], w[1]);
      assert e in edges && Reaches(edges, e.1, e.0);
    }
  }

  /** What one more edge lets a walk do: go as before, or pass through the new edge. */
  lemma {:induction false} WalkWithEdge(edges: set<Edge>, s: Id, t: Id, w: seq<Id>)
    requires IsWalk(edges + {(s, t)}, w)
    ensures
      || Reaches(edges, w[0], w[|w| - 1])
      || (Reaches(edges, w[0], s) && Reaches(edges, t, w[|w| - 1]))
  {
    if |w| == 1 {
      ReachesSelf(edges, w[0]);
    } else {
      WalkTail(edges + {(s, t)}, w);
      WalkWithEdge(edges, s, t, w[1..]);
      var last := w[|w| - 1];
      if (w[0], w[1]) in edges {
        ReachesEdge(edges, w[0], w[1]);
        if Reaches(edges, w[1], last) {
          ReachesTransitive(edges, w[0], w[1], last);
        } else {
          ReachesTransitive(edges, w[0], w[1], s);
        }
      } else {
        ReachesSelf(edges, s);
      }
    }
  }

  /** Adding an edge keeps an acyclic graph acyclic exactly when its head does not
      already reach its tail (which covers the self-loop). */
  lemma AddEdgeAcyclic(edges: set<Edge>, s: Id, t: Id)
    requires Acyclic(edges)
    ensures Acyclic(edges + {(s, t)}) <==> !Reaches(edges, t, s)
  {
    var more := edges + {(s, t)};
    AcyclicMeansNoReturn(edges);
    AcyclicMeansNoReturn(more);
    if Reaches(edges, t, s) {
      ReachesMonotone(edges, more, t, s);
      assert (s, t) in more;
    } else {
      forall e | e in more
        ensures !Reaches(more, e.1, e.0)
      {
        if Reaches(more, e.1, e.0) {
          var w :| WalkFromTo(more, w, e.1, e.0);
          WalkWithEdge(edges, s, t, w);
          if e in edges && !Reaches(edges, e.1, e.0) {
            ReachesEdge(edges, e.0, e.1);
            ReachesTransitive(edges, t, e.0, e.1);
            ReachesTransitive(edges, t, e.1, s);
          }
        }
      }
    }
  }

  /** A map of nodes that carries edges to edges pulls acyclicity back. */
  lemma AcyclicByProjection(edges: set<Edge>, image: set<Edge>, f: Id -> Id)
    requires Acyclic(image)
    requires forall e :: e in edges ==> (f(e.0), f(e.1)) in image
    ensures Acyclic(edges)
  {
    forall w | IsWalk(edges, w) && |w| >= 2
      ensures w[0] != w[|w| - 1]
    {
      var v := seq(|w|, k requires 0 <= k < |w| => f(w[k]));
      forall k | 0 <= k < |v| - 1
        ensures (v[k], v[k + 1]) in image
      {
        assert (w[k], w[k + 1]) in edges;
      }
      assert IsWalk(image, v);
    }
  }

  /** The edges that end at a node not below "from". */
  function Inner(edges: set<Edge>, from: Id): set<Edge> {
    set e | e in edges && e.1 >= from
  }

  /** New nodes with edges among themselves and to old ones close a cycle only among themselves. */
  lemma AcyclicBeside(before: set<Edge>, added: set<Edge>, from: Id)
    requires forall e :: e in before ==> e.0 < from && e.1 < from
    requires forall e :: e in added ==> e.0 >= from
    ensures Acyclic(before + added) <==> Acyclic(before) && Acyclic(Inner(added, from))
  {
    if Acyclic(before + added) {
      AcyclicSubset(before, before + added);
      AcyclicSubset(Inner(added, from), before + added);
    }
    forall w | IsWalk(before + added, w) && |w| >= 2 && w[0] == w[|w| - 1]
      ensures !Acyclic(before) || !Acyclic(Inner(added, from))
    {
      StaysOnItsSide(before, added, from, w);
    }
  }

  /** A walk that comes back is all among old nodes or all among new ones. */
  lemma StaysOnItsSide(before: set<Edge>, added: set<Edge>, from: Id, w: seq<Id>)
    requires forall e :: e in before ==> e.0 < from && e.1 < from
    requires forall e :: e in added ==> e.0 >= from
    requires IsWalk(before + added, w) && |w| >= 2 && w[0] == w[|w| - 1]
    ensures IsWalk(before, w) || IsWalk(Inner(added, from), w)
  {
    if w[0] < from {
      OldFromHere(before, added, from, w, 0, |w| - 1);
      forall k | 0 <= k < |w| - 1
        ensures (w[k], w[k + 1]) in before
      {
        OldFromHere(before, added, from, w, 0, k);
        assert (w[k], w[k + 1]) in before + added;
      }
    } else {
      forall k | 0 <= k < |w| - 1
        ensures (w[k], w[k + 1]) in Inner(added, from)
      {
        if w[k] < from {
          OldFromHere(before, added, from, w, k, |w| - 1);
        }
        if w[k + 1] < from {
          OldFromHere(before, added, from, w, k + 1, |w| - 1);
        }
        assert (w[k], w[k + 1]) in before + added;
      }
    }
  }

  lemma {:induction false} OldFromHere(before: set<Edge>, added: set<Edge>, from: Id, w: seq<Id>, j: nat, k: nat)
    requires forall e :: e in before ==> e.0 < from && e.1 < from
    requires forall e :: e in added ==> e.0 >= from
    requires IsWalk(before + added, w) && j <= k < |w| && w[j] < from
    ensures w[k] < from
    decreases k
  {
    if j < k {
      OldFromHere(before, added, from, w, j, k - 1);
      assert (w[k - 1], w[k - 1 + 1]) in before + added;
    }
  }

  /** Above every node of an acyclic finite graph there is a root. "seen" is what the
      climb has passed. */
  lemma {:induction false} RootAbove(edges: set<Edge>, v: Id, top: Id, seen: set<Id>) returns (root: Id)
    requires Acyclic(edges)
    requires Reaches(edges, top, v) && top in seen
    requires forall x :: x in seen ==> Reaches(edges, top, x)
    ensures IsRoot(edges, root) && Reaches(edges, root, v)
    decreases (set e | e in edges :: e.0) - seen
  {
    if IsRoot(edges, top) {
      root := top;
    } else {
      var e :| e in edges && e.1 == top;
      ReachesEdge(edges, e.0, top);
      if e.0 in seen {
        AcyclicMeansNoReturn(edges);
        assert false;
      }
      ReachesTransitive(edges, e.0, top, v);
      ReachesSelf(edges, e.0);
      forall x | x in seen + {e.0}
        ensures Reaches(edges, e.0, x)
      {
        if x in seen {
          ReachesTransitive(edges, e.0, top, x);
        }
      }
      assert e.0 in (set d | d in edges :: d.0) - seen;
      root := RootAbove(edges, v, e.0, seen + {e.0});
    }
  }

  lemma EveryNodeUnderARoot(edges: set<Edge>, v: Id)
    requires Acyclic(edges)
    ensures exists root :: IsRoot(edges, root) && Reaches(edges, root, v)
  {
    ReachesSelf(edges, v);
    var root := RootAbove(edges, v, v, {v});
  }
}
