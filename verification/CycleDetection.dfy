/** The depth-first check that guards every new containment edge. */
module CycleDetection {
  import opened Domain
  import opened Digraph

  type Adjacency = map<Id, seq<Id>>

  ghost function EdgesOf(adj: Adjacency): set<Edge> {
    set a, k | a in adj && 0 <= k < |adj[a]| :: (a, adj[a][k])
  }

  ghost function EdgeSet(edges: seq<Edge>): set<Edge> {
    set e | e in edges
  }

  /** The recursive closure and the visited map it changes. */
  class CycleSearch {
    const adj: Adjacency
    const source: Id
    var visited: set<Id>

    constructor (adj: Adjacency, source: Id)
      ensures this.adj == adj && this.source == source && visited == {}
    {
      this.adj := adj;
      this.source := source;
      visited := {};
    }

    /** Everything visited has its successors visited too, except the nodes still open on the call stack. */
    ghost predicate ClosedExcept(open: set<Id>)
      reads this
    {
      && source !in visited
      && forall e :: e in EdgesOf(adj) && e.0 in visited && e.0 !in open ==> e.1 in visited
    }

    method HasCycle(node: Id, ghost open: set<Id>) returns (found: bool)
      requires open <= visited && ClosedExcept(open)
      modifies this`visited
      ensures old(visited) <= visited
      ensures found ==> Reaches(EdgesOf(adj), node, source)
      ensures !found ==> ClosedExcept(open) && node in visited
      decreases adj.Keys - visited
    {
      if node == source {
        ReachesSelf(EdgesOf(adj), node);
        return true;
      }
      if node in visited {
        return false;
      }
      visited := visited + {node};
      if node in adj {
        assert node in adj.Keys - old(visited);
        ghost var inner := open + {node};
        for k := 0 to |adj[node]|
          invariant old(visited) + {node} <= visited
          invariant ClosedExcept(inner)
          invariant forall j :: 0 <= j < k ==> adj[node][j] in visited
        {
          var next := adj[node][k];
          assert (node, next) in EdgesOf(adj);
          assert adj.Keys - visited < adj.Keys - old(visited);
          var hit := HasCycle(next, inner);
          if hit {
            ReachesEdge(EdgesOf(adj), node, next);
            ReachesTransitive(EdgesOf(adj), node, next, source);
            return true;
          }
        }
      }
      return false;
    }
  }

  method BuildAdjacency(edges: seq<Edge>) returns (adj: Adjacency)
    ensures EdgesOf(adj) == EdgeSet(edges)
  {
    adj := map[];
    for i := 0 to |edges|
      invariant EdgesOf(adj) == EdgeSet(edges[..i])
    {
      var e := edges[i];
      var before := if e.0 in adj then adj[e.0] else [];
      ghost var was := adj;
      adj := adj[e.0 := before + [e.1]];
      AppendEdge(was, e.0, e.1);
      assert edges[..i + 1] == edges[..i] + [e];
    }
    assert edges[..|edges|] == edges;
  }

  lemma AppendEdge(adj: Adjacency, a: Id, b: Id)
    ensures EdgesOf(adj[a := (if a in adj then adj[a] else []) + [b]]) == EdgesOf(adj) + {(a, b)}
  {
    var before := if a in adj then adj[a] else [];
    var after := adj[a := before + [b]];
    forall e | e in EdgesOf(adj) + {(a, b)}
      ensures e in EdgesOf(after)
    {
      if e in EdgesOf(adj) {
        var k :| e.0 in adj && 0 <= k < |adj[e.0]| && adj[e.0][k] == e.1;
        assert after[e.0][k] == e.1;
      } else {
        assert after[a][|before|] == b;
      }
    }
  }

  /** The check on a proposed edge from source to target rejects exactly when source is
      target or target already reaches source, on any edge list, cyclic or not. */
  method CheckContainmentCycle(edges: seq<Edge>, source: Id, target: Id) returns (rejected: bool)
    ensures rejected <==> source == target || Reaches(EdgeSet(edges), target, source)
  {
    if source == target {
      return true;
    }
    var adj := BuildAdjacency(edges);
    var out := if source in adj then adj[source] else [];
    ghost var was := adj;
    adj := adj[source := out + [target]];
    AppendEdge(was, source, target);
    ghost var all := EdgeSet(edges) + {(source, target)};
    assert EdgesOf(adj) == all;

    var search := new CycleSearch(adj, source);
    rejected := search.HasCycle(target, {});
    if rejected {
      ghost var w :| WalkFromTo(all, w, target, source);
      WalkWithEdge(EdgeSet(edges), source, target, w);
    } else if Reaches(EdgeSet(edges), target, source) {
      ReachesMonotone(EdgeSet(edges), all, target, source);
      ghost var w :| WalkFromTo(all, w, target, source);
      ClosedUnderReach(all, search.visited, w);
      assert false;
    }
  }

  /** On an acyclic graph the check accepts exactly the edges that keep it acyclic. */
  lemma AcceptedKeepsAcyclic(edges: seq<Edge>, source: Id, target: Id)
    requires Acyclic(EdgeSet(edges))
    ensures !(source == target || Reaches(EdgeSet(edges), target, source))
       <==> Acyclic(EdgeSet(edges) + {(source, target)})
  {
    AddEdgeAcyclic(EdgeSet(edges), source, target);
    ReachesSelf(EdgeSet(edges), source);
  }
}
