/** Valid instances form a forest because their types do; and what moving an instance needs
    for it to stay one. */
module ValidForest {
  import opened Domain
  import opened Database
  import opened Cardinality
  import opened Conformance
  import opened Digraph
  import opened Forest
  import opened DataSteps
  import opened Revisions
  import opened Instances
  import opened InstanceCalls
  import opened SchemaHistory
  import opened Staleness

  predicate IsPinnedEdge(v: CatalogView, s: Id) {
    s in v.associations && v.associations[s].kind.Containment? && v.associations[s].versionId in v.pinned
  }

  /** The containment graph of the pinned versions. */
  ghost function PinnedEdges(v: CatalogView): set<Edge> {
    set s | s in v.associations && IsPinnedEdge(v, s) :: (v.pinned[v.associations[s].versionId], v.associations[s].target)
  }

  lemma PinnedEdgeMembership(v: CatalogView, e: Edge)
    ensures e in PinnedEdges(v) <==>
            exists s :: IsPinnedEdge(v, s) && e == (v.pinned[v.associations[s].versionId], v.associations[s].target)
  {
  }

  /** What a catalog pins is part of what the store keeps acyclic. */
  lemma PinnedGraphIsAcyclic(d: Db, c: Id)
    requires c in d.catalogs && SchemaInv(d)
    ensures Acyclic(PinnedEdges(ViewOf(d, c)))
  {
    hide Numbered, SharedNames, UniqueAttributeNames, UniqueAssociationNames, ContainmentEdges, PinnedEdges, Acyclic;
    var v := ViewOf(d, c);
    forall e | e in PinnedEdges(v)
      ensures e in ContainmentEdges(d)
    {
      PinnedEdgeMembership(v, e);
      var s :| IsPinnedEdge(v, s) && e == (v.pinned[v.associations[s].versionId], v.associations[s].target);
      assert IsEdge(d, s);
      EdgeMembership(d, e);
    }
    AcyclicSubset(PinnedEdges(v), ContainmentEdges(d));
  }

  /** A parent that is a member may contain the child, by type. */
  ghost predicate LegalParent(v: CatalogView, i: Id)
    requires i in v.members
  {
    v.members[i].parent.Some? && v.members[i].parent.value in v.members ==>
      (v.members[v.members[i].parent.value].typeId, v.members[i].typeId) in PinnedEdges(v)
  }

  ghost predicate LegalParents(v: CatalogView) {
    forall i :: i in v.members ==> LegalParent(v, i)
  }

  lemma ConformingIsLegal(v: CatalogView, r: Rules)
    requires Conforms(v, r) && WellFormedView(v)
    ensures LegalParents(v)
    ensures forall i :: i in v.members && v.members[i].parent.Some? ==> v.members[i].parent.value in v.members
  {
    hide ParseCardinality, PinnedEdges, WithinType, IsDnsLabel, SchemaSound, ValueSound, InRange, SourceChecked;
    forall i | i in v.members
      ensures LegalParent(v, i)
      ensures v.members[i].parent.Some? ==> v.members[i].parent.value in v.members
    {
      assert InstanceConforms(v, r, i);
      if v.members[i].parent.Some? {
        var p := v.members[i].parent.value;
        var s :| AssociationOf(v, s, p) && v.associations[s].kind.Containment? && v.associations[s].target == v.members[i].typeId;
        assert IsPinnedEdge(v, s);
        PinnedEdgeMembership(v, (v.members[p].typeId, v.members[i].typeId));
      }
    }
  }

  ghost function EdgesInside(m: map<Id, Instance>): set<Edge> {
    set e | e in ParentEdges(m) && e.0 in m && e.1 in m
  }

  /** A cycle stays among the members: whatever has a parent edge into it is one. */
  lemma CyclesStayInside(m: map<Id, Instance>)
    requires Acyclic(EdgesInside(m))
    ensures Acyclic(ParentEdges(m))
  {
    forall w | IsWalk(ParentEdges(m), w) && |w| >= 2
      ensures w[0] != w[|w| - 1]
    {
      if w[0] == w[|w| - 1] {
        forall k | 0 <= k < |w|
          ensures w[k] in m
        {
          var j := if k == 0 then |w| - 1 else k;
          assert (w[j - 1], w[j - 1 + 1]) in ParentEdges(m);
        }
        assert IsWalk(EdgesInside(m), w);
      }
    }
  }

  /** Legal parents over an acyclic type graph make a forest. */
  lemma LegalIsForest(v: CatalogView)
    requires LegalParents(v) && Acyclic(PinnedEdges(v))
    ensures Acyclic(ParentEdges(v.members))
  {
    hide PinnedEdges, Acyclic;
    var typeOf := (x: Id) => if x in v.members then v.members[x].typeId else 0;
    forall e | e in EdgesInside(v.members)
      ensures (typeOf(e.0), typeOf(e.1)) in PinnedEdges(v)
    {
      assert LegalParent(v, e.1);
    }
    AcyclicByProjection(EdgesInside(v.members), PinnedEdges(v), typeOf);
    CyclesStayInside(v.members);
  }

  /** In a valid catalog every climb from an instance ends at a root. */
  lemma ValidMeansForest(d: Db, c: Id, r: Rules, i: Id)
    requires c in d.catalogs && SchemaInv(d) && Conforms(ViewOf(d, c), r)
    ensures Acyclic(ParentEdges(MembersOf(d, c)))
    ensures i in MembersOf(d, c) ==> RootReached(MembersOf(d, c), i)
  {
    hide SchemaInv, Conforms, LegalParents, Acyclic, PinnedEdges;
    var v := ViewOf(d, c);
    ViewIsWellFormed(d, c);
    ConformingIsLegal(v, r);
    PinnedGraphIsAcyclic(d, c);
    LegalIsForest(v);
    if i in v.members {
      ReachesSelf(ParentEdges(v.members), i);
      ClimbEnds(v.members, i, {i}, i, 0);
    }
  }

  // ---- moving ----

  /** The instances after a move: the child under its new parent, both one version on. */
  lemma MovedInstances(d: Db, child: Id, p: Id, steps: seq<DataStep>)
    requires child in d.instances && p in d.instances && MoveSteps(d, child, Some(p), steps)
    ensures var m := ApplySteps(d, steps).instances;
            && m.Keys == d.instances.Keys
            && m[child].parent == (if p == child then d.instances[child].parent else Some(p))
            && (forall i :: i in d.instances && i != child ==> m[i].parent == d.instances[i].parent)
            && (forall i :: i in d.instances ==> m[i].typeId == d.instances[i].typeId && m[i].catalogId == d.instances[i].catalogId)
  {
    hide ApplyStep, ApplySteps;
    var row := d.instances[child];
    if p == child {
      RevisedInstances(d, child, row);
      OneStepApplied(d, Revise(child, row, Structural));
    } else {
      var s0, s1 := Revise(child, row.(parent := Some(p)), Structural), Revise(p, d.instances[p], Structural);
      RevisedInstances(d, child, row.(parent := Some(p)));
      RevisedInstances(ApplyStep(d, s0), p, d.instances[p]);
      TwoStepsApplied(d, s0, s1);
    }
  }

  lemma RevisedInstances(d: Db, i: Id, to: Instance)
    requires i in d.instances
    ensures ApplyStep(d, Revise(i, to, Structural)).instances ==
            d.instances[i := to.(version := d.instances[i].version + 1)]
  {
    hide EditValues;
  }

  lemma OneStepApplied(d: Db, s: DataStep)
    ensures ApplySteps(d, [s]) == ApplyStep(d, s)
  {
    hide ApplyStep;
    assert [s][1..] == [];
    assert ApplySteps(ApplyStep(d, s), []) == ApplyStep(d, s);
  }

  lemma TwoStepsApplied(d: Db, s: DataStep, t: DataStep)
    ensures ApplySteps(d, [s, t]) == ApplyStep(ApplyStep(d, s), t)
  {
    hide ApplyStep;
    assert [s, t][1..] == [t];
    OneStepApplied(ApplyStep(d, s), t);
  }

  lemma SameParentsSameEdges(m: map<Id, Instance>, n: map<Id, Instance>)
    requires m.Keys == n.Keys && forall i :: i in m ==> m[i].parent == n[i].parent
    ensures ParentEdges(m) == ParentEdges(n)
  {
    forall e
      ensures e in ParentEdges(m) <==> e in ParentEdges(n)
    {
    }
  }

  /** A move under another instance keeps the instances a forest exactly when the instance does
      not go under itself; naming itself as the parent changes nothing. */
  lemma MoveKeepsForestIff(d: Db, child: Id, p: Id, steps: seq<DataStep>)
    requires child in d.instances && p in d.instances && MoveSteps(d, child, Some(p), steps)
    requires Acyclic(ParentEdges(d.instances))
    ensures Acyclic(ParentEdges(ApplySteps(d, steps).instances)) <==>
              p == child || !Reaches(ParentEdges(d.instances), child, p)
  {
    hide MoveSteps, ApplySteps;
    MovedInstances(d, child, p, steps);
    var m := ApplySteps(d, steps).instances;
    if p == child {
      SameParentsSameEdges(m, d.instances);
    } else {
      MoveKeepsForest(d.instances, child, p);
      SameParentsSameEdges(m, d.instances[child := d.instances[child].(parent := Some(p))]);
    }
  }

  /** The parent instance is of the type the caller named. */
  ghost predicate ReallyOfType(d: Db, p: Id, typeName: string) {
    p in d.instances && d.instances[p].typeId in d.types && d.types[d.instances[p].typeId] == typeName
  }

  lemma NamedEdgeIsPinned(d: Db, catalogName: string, parentType: string, c: Id, child: Id, p: Id)
    requires UniqueTypeNames(d) && TypeContains(d, catalogName, parentType, c, child) && ReallyOfType(d, p, parentType)
    ensures c in d.catalogs && (d.instances[p].typeId, child) in PinnedEdges(ViewOf(d, c))
  {
    hide PinnedEdges;
    var ver, s :| Resolves(d, catalogName, parentType, c, ver) && ContainsEdge(d.associations, s, ver, child);
    var v := ViewOf(d, c);
    assert ver in v.pinned && v.pinned[ver] == d.instances[p].typeId;
    assert IsPinnedEdge(v, s);
    PinnedEdgeMembership(v, (d.instances[p].typeId, child));
  }

  /** When the parent really has the named type, a move keeps parents legal, and with them the
      forest. */
  lemma HonestMoveKeepsForest(d: Db, catalogName: string, childType: string, child: Id, parentType: string, p: Id, c: Id,
                              steps: seq<DataStep>)
    requires DataInv(d) && SchemaInv(d)
    requires MoveAccepted(d, catalogName, childType, child, parentType, Some(p), c)
    requires MoveSteps(d, child, Some(p), steps) && StepsAllowed(d, c, steps)
    requires ReallyOfType(d, p, parentType)
    requires c in d.catalogs && LegalParents(ViewOf(d, c))
    ensures var e := DataCall(d, c, steps);
            c in e.catalogs && LegalParents(ViewOf(e, c)) && Acyclic(ParentEdges(MembersOf(e, c)))
  {
    hide DataInv, SchemaInv, StepsAllowed, MoveSteps, TypeContains, ApplySteps, PinnedEdges, Acyclic, ScopeTaken, Elsewhere,
         UniqueTypeNames;
    NamesAreUnique(d);
    var f := ApplySteps(d, steps);
    var e := DataCall(d, c, steps);
    StepsKeep(d, c, steps);
    TablesStay(d, f, c);
    MovedInstances(d, child, p, steps);
    NamedEdgeIsPinned(d, catalogName, parentType, c, d.instances[child].typeId, p);
    PinnedGraphIsAcyclic(d, c);
    SamePinnedEdges(d, e, c);
    var v, w := ViewOf(d, c), ViewOf(e, c);
    forall i | i in w.members
      ensures LegalParent(w, i)
    {
      assert LegalParent(v, i);
    }
    LegalIsForest(w);
  }

  lemma NamesAreUnique(d: Db)
    requires SchemaInv(d)
    ensures UniqueTypeNames(d)
  {
    hide Acyclic, Numbered, ContainmentEdges;
  }

  lemma TablesStay(d: Db, f: Db, c: Id)
    requires Elsewhere(d, f, c)
    ensures f.catalogs == d.catalogs && f.pins == d.pins && f.versions == d.versions && f.associations == d.associations
  {
    hide MembersOf, CurrentRows, LinksTouching;
  }

  lemma SamePinnedEdges(d: Db, e: Db, c: Id)
    requires c in d.catalogs && c in e.catalogs && e.catalogs[c].cvId == d.catalogs[c].cvId
    requires e.pins == d.pins && e.versions == d.versions && e.associations == d.associations
    ensures PinnedEdges(ViewOf(e, c)) == PinnedEdges(ViewOf(d, c))
  {
    hide PinnedEdges;
    var v, w := ViewOf(d, c), ViewOf(e, c);
    assert w.pinned == v.pinned && w.associations == v.associations;
    forall x
      ensures x in PinnedEdges(w) <==> x in PinnedEdges(v)
    {
      PinnedEdgeMembership(v, x);
      PinnedEdgeMembership(w, x);
      assert forall s :: IsPinnedEdge(w, s) <==> IsPinnedEdge(v, s);
    }
  }

  // ---- when it has not ----

  /** P contains A contains B; instance 1 is an A, and instance 2 a B inside it. */
  ghost const FORKED := Db(
    map[7 := Catalog("c", "", 3, Draft, false)],
    map[1 := Instance(20, 7, None, "a", "", 1), 2 := Instance(30, 7, Some(1), "b", "", 1)],
    map[], map[], map[3 := CatalogVersion("v", Development)],
    map[4 := Pin(3, 11), 5 := Pin(3, 21), 6 := Pin(3, 31)], [],
    map[10 := "P", 20 := "A", 30 := "B"],
    map[11 := TypeVersion(10, 1, ""), 21 := TypeVersion(20, 1, ""), 31 := TypeVersion(30, 1, "")],
    map[],
    map[12 := Association(11, "as", 20, Containment, "", "", "0..1", "0..n"),
        22 := Association(21, "bs", 30, Containment, "", "", "0..1", "0..n")],
    map[], map[], 100)

  lemma ForkedAccepts()
    ensures MoveAccepted(FORKED, "c", "A", 1, "P", Some(2), 7)
    ensures !ReallyOfType(FORKED, 2, "P")
  {
    assert Pin(3, 21) in FORKED.pins.Values by {
      assert FORKED.pins[5] == Pin(3, 21);
    }
    assert Pin(3, 11) in FORKED.pins.Values by {
      assert FORKED.pins[4] == Pin(3, 11);
    }
    assert Resolves(FORKED, "c", "A", 7, 21);
    assert Resolves(FORKED, "c", "P", 7, 11) && ContainsEdge(FORKED.associations, 12, 11, 20);
  }

  lemma ForkedIsForest()
    ensures Acyclic(ParentEdges(FORKED.instances)) && Reaches(ParentEdges(FORKED.instances), 1, 2)
  {
    var edges := ParentEdges(FORKED.instances);
    assert edges == {(1, 2)};
    ReachesEdge(edges, 1, 2);
    AcyclicMeansNoReturn(edges);
    forall w | WalkFromTo(edges, w, 2, 1)
      ensures false
    {
      ClosedUnderReach(edges, {2}, w);
    }
  }

  /** Moving 1 under 2 while naming P as the parent's type is accepted, and closes a cycle. */
  lemma MisnamedParentClosesACycle(steps: seq<DataStep>)
    requires MoveSteps(FORKED, 1, Some(2), steps)
    ensures MoveAccepted(FORKED, "c", "A", 1, "P", Some(2), 7)
    ensures Acyclic(ParentEdges(FORKED.instances)) && !Acyclic(ParentEdges(ApplySteps(FORKED, steps).instances))
  {
    hide MoveSteps, ApplySteps, ParentEdges, MoveAccepted;
    ForkedAccepts();
    ForkedIsForest();
    MoveKeepsForestIff(FORKED, 1, 2, steps);
  }
}
