/** The cascading delete of an instance with what it contains, a page of children at a time. */
module Containment {
  import opened Domain
  import opened Database
  import opened Digraph
  import opened Forest

  // ---- cascading delete ----

  const PAGE_LIMIT: nat := 1000

  function Min(a: nat, b: nat): nat {
    if a <= b then a else b
  }

  /** One page of the children of an instance. */
  method ListByParent(m: Instances, parent: Id, limit: nat) returns (page: set<Id>)
    ensures page <= ChildrenIn(m, parent)
    ensures |page| == Min(limit, |ChildrenIn(m, parent)|)
  {
    page := {};
    var rest := ChildrenIn(m, parent);
    while rest != {} && |page| < limit
      invariant page !! rest && page + rest == ChildrenIn(m, parent)
      invariant |page| <= limit
      decreases rest
    {
      var c :| c in rest;
      page, rest := page + {c}, rest - {c};
    }
    assert |page + rest| == |page| + |rest|;
  }

  ghost predicate ParentTaken(m: Instances, gone: set<Id>, n: Id) {
    n in m && m[n].parent.Some? && m[n].parent.value in gone
  }

  ghost predicate UnderSome(m: Instances, tops: set<Id>, x: Id) {
    exists c :: c in tops && x in Subtree(m, c)
  }

  /** What a delete of "id" takes away: part of its subtree, closed under parents up to
      "id", with one page of the children of every instance taken. */
  ghost predicate Taken(m: Instances, id: Id, gone: set<Id>) {
    && id in gone && gone <= Subtree(m, id)
    && (forall n :: n in gone ==> |ChildrenIn(m, n) * gone| == Min(PAGE_LIMIT, |ChildrenIn(m, n)|))
    && (forall n {:trigger ParentTaken(m, gone, n)} :: n in gone && n != id ==> ParentTaken(m, gone, n))
  }

  function WithoutLinksTo(links: map<Id, Link>, gone: set<Id>): map<Id, Link> {
    map l | l in links && links[l].source !in gone && links[l].target !in gone :: links[l]
  }

  /** The account after the children in "done": what they took lies under them, exactly a
      page of children everywhere, closed under parents up to the children themselves. */
  ghost predicate Progress(m: Instances, done: set<Id>, gone: set<Id>) {
    && done <= gone
    && (forall x {:trigger UnderSome(m, done, x)} :: x in gone ==> UnderSome(m, done, x))
    && (forall n :: n in gone ==> |ChildrenIn(m, n) * gone| == Min(PAGE_LIMIT, |ChildrenIn(m, n)|))
    && (forall n {:trigger ParentTaken(m, gone, n)} :: n in gone && n !in done ==> ParentTaken(m, gone, n))
  }

  /** Depth first: the children's subtrees, then the links, then the row itself. "m" is the
      table when the delete began and "before" what it has taken so far. */
  method CascadeDelete(db: Store, id: Id, ghost m: Instances, ghost before: set<Id>) returns (ghost gone: set<Id>)
    requires id in m && OffCycle(m, id)
    requires db.instances == m - before && before !! Subtree(m, id)
    modifies db`instances, db`links
    ensures Taken(m, id, gone)
    ensures db.instances == m - (before + gone)
    ensures db.links == WithoutLinksTo(old(db.links), gone)
    decreases Subtree(m, id), 1
  {
    ghost var links := db.links;
    var page := ListByParent(db.instances, id, PAGE_LIMIT);
    SameChildren(m, before, id);
    gone := DeleteEach(db, id, page, m, before);
    hide WithoutLinksTo, OffCycle, Taken, Progress;
    db.links := WithoutLinksTo(db.links, {id});
    LinksCompose(links, gone, {id});
    db.instances := db.instances - {id};
    Finished(m, id, page, gone);
    RemovedInTurn(m, before + gone, {id});
    assert before + gone + {id} == before + (gone + {id});
    gone := gone + {id};
  }

  /** The recursion into the listed children. */
  method DeleteEach(db: Store, id: Id, page: set<Id>, ghost m: Instances, ghost before: set<Id>)
    returns (ghost gone: set<Id>)
    requires id in m && OffCycle(m, id) && page <= ChildrenIn(m, id)
    requires db.instances == m - before && before !! Subtree(m, id)
    modifies db`instances, db`links
    ensures Progress(m, page, gone)
    ensures db.instances == m - (before + gone)
    ensures db.links == WithoutLinksTo(old(db.links), gone)
    decreases Subtree(m, id), 0
  {
    hide WithoutLinksTo, OffCycle, Taken, Progress;
    ghost var links := db.links;
    var todo := page;
    gone := {};
    LinksUntouched(links);
    NoProgressYet(m);
    assert before + gone == before && page - todo == {};
    while todo != {}
      invariant todo <= page
      invariant db.instances == m - (before + gone)
      invariant db.links == WithoutLinksTo(links, gone)
      invariant Progress(m, page - todo, gone)
      decreases todo
    {
      var c :| c in todo;
      ghost var done := page - todo;
      ChildSubtreeShrinks(m, id, c);
      Untouched(m, id, done, c, gone);
      ghost var part := CascadeDelete(db, c, m, before + gone);
      Joined(m, id, done, c, gone, part);
      LinksCompose(links, gone, part);
      assert before + (gone + part) == before + gone + part;
      gone := gone + part;
      todo := todo - {c};
      assert page - todo == done + {c};
    }
    assert page - todo == page;
  }

  lemma RemovedInTurn(m: Instances, a: set<Id>, b: set<Id>)
    ensures (m - a) - b == m - (a + b)
  {
  }

  lemma LinksUntouched(links: map<Id, Link>)
    ensures WithoutLinksTo(links, {}) == links
  {
  }

  lemma NoProgressYet(m: Instances)
    ensures Progress(m, {}, {})
  {
  }

  lemma LinksCompose(links: map<Id, Link>, a: set<Id>, b: set<Id>)
    ensures WithoutLinksTo(WithoutLinksTo(links, a), b) == WithoutLinksTo(links, a + b)
  {
  }

  lemma SameChildren(m: Instances, before: set<Id>, id: Id)
    requires id in m && before !! Subtree(m, id)
    ensures ChildrenIn(m - before, id) == ChildrenIn(m, id)
  {
    forall c | c in ChildrenIn(m, id)
      ensures c !in before
    {
      ReachesSelf(ParentEdges(m), c);
      SubtreeUnfolds(m, id, c);
    }
  }

  /** The next child's subtree has not been touched by the siblings before it. */
  lemma Untouched(m: Instances, id: Id, done: set<Id>, c: Id, gone: set<Id>)
    requires id in m && OffCycle(m, id) && done <= ChildrenIn(m, id) && c in ChildrenIn(m, id) - done
    requires Progress(m, done, gone)
    ensures gone !! Subtree(m, c)
  {
    forall x | x in gone
      ensures x !in Subtree(m, c)
    {
      assert UnderSome(m, done, x);
      var d :| d in done && x in Subtree(m, d);
      SiblingsAreDisjoint(m, id, c, d);
    }
  }

  /** Taking one more child's part keeps the account of children exact. */
  lemma CountsJoin(m: Instances, id: Id, done: set<Id>, c: Id, gone: set<Id>, part: set<Id>, n: Id)
    requires id in m && OffCycle(m, id) && done <= ChildrenIn(m, id) && c in ChildrenIn(m, id) - done
    requires Progress(m, done, gone) && Taken(m, c, part) && n in gone + part
    ensures |ChildrenIn(m, n) * (gone + part)| == Min(PAGE_LIMIT, |ChildrenIn(m, n)|)
  {
    var home: Id;
    if n in part {
      home := c;
    } else {
      assert UnderSome(m, done, n);
      home :| home in done && n in Subtree(m, home);
    }
    forall x | x in ChildrenIn(m, n)
      ensures x in Subtree(m, home)
    {
      ReachesEdge(ParentEdges(m), n, x);
      ReachesTransitive(ParentEdges(m), home, n, x);
    }
    if n in part {
      Untouched(m, id, done, c, gone);
      assert ChildrenIn(m, n) * (gone + part) == ChildrenIn(m, n) * part;
    } else {
      SiblingsAreDisjoint(m, id, c, home);
      assert ChildrenIn(m, n) * (gone + part) == ChildrenIn(m, n) * gone;
    }
  }

  lemma Joined(m: Instances, id: Id, done: set<Id>, c: Id, gone: set<Id>, part: set<Id>)
    requires id in m && OffCycle(m, id) && done <= ChildrenIn(m, id) && c in ChildrenIn(m, id) - done
    requires Progress(m, done, gone) && Taken(m, c, part)
    ensures Progress(m, done + {c}, gone + part)
  {
    forall n | n in gone + part
      ensures |ChildrenIn(m, n) * (gone + part)| == Min(PAGE_LIMIT, |ChildrenIn(m, n)|)
    {
      CountsJoin(m, id, done, c, gone, part, n);
    }
    forall x | x in gone + part
      ensures UnderSome(m, done + {c}, x)
    {
      assert x in gone ==> UnderSome(m, done, x);
      assert c in done + {c};
    }
    forall n | n in gone + part && n !in done + {c}
      ensures ParentTaken(m, gone + part, n)
    {
      assert n in gone ==> ParentTaken(m, gone, n);
      assert n in part ==> ParentTaken(m, part, n);
    }
  }

  lemma Finished(m: Instances, id: Id, page: set<Id>, gone: set<Id>)
    requires id in m && OffCycle(m, id) && page <= ChildrenIn(m, id)
    requires |page| == Min(PAGE_LIMIT, |ChildrenIn(m, id)|)
    requires Progress(m, page, gone)
    ensures id !in gone && Taken(m, id, gone + {id})
  {
    BelowOnly(m, id, page, gone);
    SubtreeUnfolds(m, id, id);
    forall n | n in gone + {id}
      ensures |ChildrenIn(m, n) * (gone + {id})| == Min(PAGE_LIMIT, |ChildrenIn(m, n)|)
    {
      assert ChildrenIn(m, n) * (gone + {id}) == ChildrenIn(m, n) * gone;
    }
    forall n | n in gone
      ensures ParentTaken(m, gone + {id}, n)
    {
      assert n in page || ParentTaken(m, gone, n);
    }
  }

  /** What the children's parts hold lies strictly below "id", and of its children just the page. */
  lemma BelowOnly(m: Instances, id: Id, page: set<Id>, gone: set<Id>)
    requires id in m && OffCycle(m, id) && page <= ChildrenIn(m, id) && page <= gone
    requires forall x {:trigger UnderSome(m, page, x)} :: x in gone ==> UnderSome(m, page, x)
    ensures id !in gone && gone <= Subtree(m, id)
    ensures ChildrenIn(m, id) * gone == page
    ensures id !in ChildrenIn(m, id) && forall n :: n in gone ==> id !in ChildrenIn(m, n)
  {
    ReachesSelf(ParentEdges(m), id);
    forall x | x in gone
      ensures x in Subtree(m, id) && x != id && id !in ChildrenIn(m, x)
    {
      assert UnderSome(m, page, x);
      var c :| c in page && x in Subtree(m, c);
      SubtreeUnfolds(m, id, x);
      ChildSubtreeShrinks(m, id, c);
      if id in ChildrenIn(m, x) {
        ReachesEdge(ParentEdges(m), x, id);
        ReachesTransitive(ParentEdges(m), c, x, id);
      }
    }
    forall x | x in ChildrenIn(m, id) && x in gone
      ensures x in page
    {
      assert UnderSome(m, page, x);
      var c :| c in page && x in Subtree(m, c);
      ReachesSelf(ParentEdges(m), x);
      if c != x {
        SiblingsAreDisjoint(m, id, c, x);
      }
    }
  }

  // ---- when the recursion ends ----

  /** No more than "n" deletes are nested, that of "id" and those below it, whichever children
      the pages list. */
  ghost predicate EndsWithin(m: Instances, id: Id, n: nat)
    decreases n
  {
    n > 0 && forall c :: c in ChildrenIn(m, id) ==> EndsWithin(m, c, n - 1)
  }

  lemma {:induction false} MoreIsEnough(m: Instances, id: Id, n: nat, more: nat)
    requires EndsWithin(m, id, n) && n <= more
    ensures EndsWithin(m, id, more)
    decreases n
  {
    forall c | c in ChildrenIn(m, id)
      ensures EndsWithin(m, c, more - 1)
    {
      MoreIsEnough(m, c, n - 1, more - 1);
    }
  }

  lemma {:induction false} OffCycleEnds(m: Instances, id: Id)
    requires id in m && OffCycle(m, id)
    ensures EndsWithin(m, id, |Subtree(m, id)|)
    decreases Subtree(m, id)
  {
    SubtreeUnfolds(m, id, id);
    forall c | c in ChildrenIn(m, id)
      ensures EndsWithin(m, c, |Subtree(m, id)| - 1)
    {
      ChildSubtreeShrinks(m, id, c);
      OffCycleEnds(m, c);
      SmallerSet(Subtree(m, c), Subtree(m, id));
      MoreIsEnough(m, c, |Subtree(m, c)|, |Subtree(m, id)| - 1);
    }
  }

  /** A cycle goes on through a child. */
  lemma CycleGoesOn(m: Instances, id: Id) returns (c: Id)
    requires !OffCycle(m, id)
    ensures c in ChildrenIn(m, id) && !OffCycle(m, c)
  {
    var edges := ParentEdges(m);
    c :| c in ChildrenIn(m, id) && Reaches(edges, c, id);
    if c != id {
      var w :| WalkFromTo(edges, w, c, id);
      WalkTail(edges, w);
      assert (w[0], w[1]) in edges;
      assert WalkFromTo(edges, w[1..], w[1], id);
      ReachesEdge(edges, id, c);
      ReachesTransitive(edges, w[1], id, c);
    }
  }

  lemma {:induction false} OnCycleNeverEnds(m: Instances, id: Id, n: nat)
    requires !OffCycle(m, id)
    ensures !EndsWithin(m, id, n)
    decreases n
  {
    if n > 0 {
      var c := CycleGoesOn(m, id);
      OnCycleNeverEnds(m, c, n - 1);
    }
  }

  /** The delete ends, whichever children its pages list, exactly when no descent from the
      instance comes back to it: on a cycle every depth of calls is passed. */
  lemma DeleteEndsIff(m: Instances, id: Id)
    requires id in m
    ensures (exists n: nat :: EndsWithin(m, id, n)) <==> OffCycle(m, id)
  {
    hide OffCycle;
    if OffCycle(m, id) {
      OffCycleEnds(m, id);
      var n: nat := |Subtree(m, id)|;
      assert EndsWithin(m, id, n);
    } else {
      forall n: nat
        ensures !EndsWithin(m, id, n)
      {
        OnCycleNeverEnds(m, id, n);
      }
    }
  }

  /** The delete takes the whole subtree exactly when no instance in it has more children
      than one page holds. */
  lemma TakesWholeSubtree(m: Instances, id: Id, gone: set<Id>)
    requires id in m && Taken(m, id, gone)
    ensures gone == Subtree(m, id) <==> forall n :: n in Subtree(m, id) ==> |ChildrenIn(m, n)| <= PAGE_LIMIT
  {
    if gone == Subtree(m, id) {
      forall n | n in Subtree(m, id)
        ensures |ChildrenIn(m, n)| <= PAGE_LIMIT
      {
        forall c | c in ChildrenIn(m, n)
          ensures c in gone
        {
          assert (n, c) in ParentEdges(m);
          ReachesEdge(ParentEdges(m), n, c);
          ReachesTransitive(ParentEdges(m), id, n, c);
        }
        assert ChildrenIn(m, n) * gone == ChildrenIn(m, n);
      }
    } else if forall n :: n in Subtree(m, id) ==> |ChildrenIn(m, n)| <= PAGE_LIMIT {
      forall e | e in ParentEdges(m) && e.0 in gone
        ensures e.1 in gone
      {
        var kids := ChildrenIn(m, e.0);
        if !(kids <= gone) {
          assert kids * gone < kids;
          SmallerSet(kids * gone, kids);
          assert false;
        }
      }
      forall x | x in Subtree(m, id)
        ensures x in gone
      {
        var w :| WalkFromTo(ParentEdges(m), w, id, x);
        ClosedUnderReach(ParentEdges(m), gone, w);
      }
    }
  }

  lemma SmallerSet(a: set<Id>, b: set<Id>)
    requires a < b
    ensures |a| < |b|
  {
    assert |b| == |a| + |b - a|;
    var x :| x in b - a;
  }

  /** After the delete no surviving link touches what was taken, and when the whole subtree
      went no survivor has a parent that was taken. */
  lemma SurvivorsAreWhole(m: Instances, links: map<Id, Link>, id: Id, gone: set<Id>)
    requires id in m && Taken(m, id, gone)
    ensures var left := WithoutLinksTo(links, gone);
            forall l :: l in left ==> left[l].source !in gone && left[l].target !in gone
    ensures (forall i :: i in m - gone && m[i].parent.Some? ==> m[i].parent.value !in gone) <==> gone == Subtree(m, id)
  {
    if gone == Subtree(m, id) {
      forall i | i in m - gone && m[i].parent.Some?
        ensures m[i].parent.value !in gone
      {
        var p := m[i].parent.value;
        if p in gone {
          assert (p, i) in ParentEdges(m);
          ReachesEdge(ParentEdges(m), p, i);
          ReachesTransitive(ParentEdges(m), id, p, i);
        }
      }
    }
    if forall i :: i in m - gone && m[i].parent.Some? ==> m[i].parent.value !in gone {
      forall x | x in Subtree(m, id)
        ensures x in gone
      {
        var w :| WalkFromTo(ParentEdges(m), w, id, x);
        ClosedUnderReach(ParentEdges(m), gone, w);
      }
    }
  }

  /** A root with "n" children. */
  function Wide(n: nat): Instances {
    map i | i in UpTo(n) + {0} :: Instance(1, 1, if i == 0 then None else Some(0), "x", "", 1)
  }

  function UpTo(n: nat): (s: set<Id>)
    ensures |s| == n && forall i: Id :: i in s <==> 1 <= i <= n
  {
    if n == 0 then {} else UpTo(n - 1) + {n}
  }

  /** Deleting a root of more than a page of children leaves some of them behind. */
  lemma PageLimitLeavesOrphans(gone: set<Id>)
    requires Taken(Wide(1001), 0, gone)
    ensures gone != Subtree(Wide(1001), 0)
  {
    hide Taken, Subtree;
    var m := Wide(1001);
    assert ChildrenIn(m, 0) == UpTo(1001);
    assert 0 in Subtree(m, 0) by {
      ReachesSelf(ParentEdges(m), 0);
      RootIsBelowItself(m, 0);
    }
    TakesWholeSubtree(m, 0, gone);
  }

  lemma RootIsBelowItself(m: Instances, i: Id)
    requires i in m && Reaches(ParentEdges(m), i, i)
    ensures i in Subtree(m, i)
  {
  }
}
