/** The second pass of an import over the entity types of its file: the created ones get their
    associations, once every target is known. */
module SchemaLinks {
  import opened Domain
  import opened Database
  import opened Conformance
  import opened DataSteps
  import opened Instances
  import opened SchemaHistory
  import opened CopyOnWrite
  import opened AttributeCalls
  import opened TypeCalls
  import opened ExportTree
  import opened ImportNodes
  import opened SchemaExport
  import opened SchemaMatch
  import opened SchemaTypes

  function NewAssociation(ver: Id, x: ExportAssociation, target: Id): Association {
    Association(ver, x.name, target, x.kind, x.sourceRole, x.targetRole, x.sourceCardinality, x.targetCardinality)
  }

  ghost predicate AssociationsCreated(m: map<Id, Association>, n: map<Id, Association>, ver: Id, first: Id,
                                      out: seq<ExportAssociation>, typeIds: map<string, Id>) {
    && (forall x :: 0 <= x < |out| ==> out[x].target in typeIds)
    && (forall s :: s in n <==> s in m || first <= s < first + |out|)
    && (forall s :: s in m && s < first ==> n[s] == m[s])
    && forall x :: 0 <= x < |out| && out[x].target in typeIds ==> n[first + x] == NewAssociation(ver, out[x], typeIds[out[x].target])
  }

  ghost predicate Tabled(table: map<string, Id>, after: map<string, Id>, first: Id, out: seq<ExportAssociation>) {
    && (forall n :: n in table ==> n in after)
    && (forall x :: 0 <= x < |out| ==> out[x].name in after)
    && forall n :: n in after ==>
         (n in table && after[n] == table[n]) || exists x :: 0 <= x < |out| && out[x].name == n && after[n] == first + x
  }

  lemma NextTabled(table: map<string, Id>, after: map<string, Id>, first: Id, out: seq<ExportAssociation>, x: ExportAssociation)
    requires Tabled(table, after, first, out)
    ensures Tabled(table, after[x.name := first + |out|], first, out + [x])
  {
    var more, now := out + [x], after[x.name := first + |out|];
    forall n | n in now && !(n in table && now[n] == table[n])
      ensures exists y :: 0 <= y < |more| && more[y].name == n && now[n] == first + y
    {
      if n == x.name {
        assert more[|out|] == x;
      } else {
        var y :| 0 <= y < |out| && out[y].name == n && after[n] == first + y;
        assert more[y] == out[y];
      }
    }
    forall y | 0 <= y < |more|
      ensures more[y].name in now
    {
      assert y < |out| ==> more[y] == out[y];
    }
  }

  lemma NextAssociation(m: map<Id, Association>, n: map<Id, Association>, ver: Id, first: Id, out: seq<ExportAssociation>,
                        typeIds: map<string, Id>, x: ExportAssociation)
    requires AssociationsCreated(m, n, ver, first, out, typeIds) && x.target in typeIds && forall s :: s in m ==> s < first
    ensures AssociationsCreated(m, n[first + |out| := NewAssociation(ver, x, typeIds[x.target])], ver, first, out + [x], typeIds)
  {
  }

  /** The targets are handed over, and the names are told apart. */
  ghost predicate TargetsKnown(out: seq<ExportAssociation>, typeIds: map<string, Id>) {
    AssociationNamesDiffer(out) && forall x :: 0 <= x < |out| ==> out[x].target in typeIds
  }

  lemma AssociationIsTwice(m: map<Id, Association>, n: map<Id, Association>, ver: Id, first: Id, out: seq<ExportAssociation>,
                           typeIds: map<string, Id>, k: nat, s: Id)
    requires k < |out| && AssociationsCreated(m, n, ver, first, out[..k], typeIds) && forall x :: x in m ==> x < first
    requires OwnAssociation(n, ver, out[k].name, s)
    ensures OwnAssociation(m, ver, out[k].name, s) || !AssociationNamesDiffer(out)
  {
    if s !in m {
      var x := s - first;
      assert out[..k][x] == out[x];
      assert n[first + x] == NewAssociation(ver, out[x], typeIds[out[x].target]);
    }
  }

  /** The target must be one of the types handed over, and a name must not be there twice. */
  method CreateAssociations(db: Store, ver: Id, out: seq<ExportAssociation>, typeIds: map<string, Id>, table: map<string, Id>)
    returns (res: Outcome, after: map<string, Id>)
    requires UniqueAssociationNames(db.associations) && forall s :: s in db.associations ==> s < db.nextId
    modifies db`associations, db`nextId
    ensures res.Pass? ==>
              && AssociationsCreated(old(db.associations), db.associations, ver, old(db.nextId), out, typeIds)
              && db.nextId == old(db.nextId) + |out| && UniqueAssociationNames(db.associations)
              && Tabled(table, after, old(db.nextId), out)
    ensures TargetsKnown(out, typeIds) && AssociationsIn(old(db.State()), ver) == {} ==> res.Pass?
  {
    hide AssociationsCreated, Tabled, UniqueAssociationNames, AssociationNamesDiffer;
    ghost var m, first := db.associations, db.nextId;
    res, after := Pass, table;
    NoneCreated(m, ver, first, typeIds, table);
    assert out[..0] == [];
    for k := 0 to |out|
      invariant res.Pass? && db.nextId == first + k && AssociationsCreated(m, db.associations, ver, first, out[..k], typeIds)
      invariant UniqueAssociationNames(db.associations) && Tabled(table, after, first, out[..k])
    {
      if out[k].target !in typeIds {
        return Fail(Rejected), after;
      }
      if s :| s in db.associations && OwnAssociation(db.associations, ver, out[k].name, s) {
        AssociationIsTwice(m, db.associations, ver, first, out, typeIds, k, s);
        assert OwnAssociation(m, ver, out[k].name, s) ==> s in AssociationsIn(old(db.State()), ver);
        return Fail(Conflict), after;
      }
      ghost var n := db.associations;
      NextAssociation(m, n, ver, first, out[..k], typeIds, out[k]);
      NextTabled(table, after, first, out[..k], out[k]);
      assert out[..k + 1] == out[..k] + [out[k]];
      db.associations := db.associations[db.nextId := NewAssociation(ver, out[k], typeIds[out[k].target])];
      OneMoreName(n, db.nextId, NewAssociation(ver, out[k], typeIds[out[k].target]));
      after := after[out[k].name := db.nextId];
      db.nextId := db.nextId + 1;
    }
    assert out[..|out|] == out;
  }

  lemma NoneCreated(m: map<Id, Association>, ver: Id, first: Id, typeIds: map<string, Id>, table: map<string, Id>)
    ensures AssociationsCreated(m, m, ver, first, [], typeIds) && Tabled(table, table, first, [])
  {
  }

  lemma OneMoreName(n: map<Id, Association>, s: Id, row: Association)
    requires UniqueAssociationNames(n) && forall x :: !OwnAssociation(n, row.versionId, row.name, x)
    ensures UniqueAssociationNames(n[s := row])
  {
    var o := n[s := row];
    forall x, y | x in o && y in o && SameAssocSlot(o[x], o[y])
      ensures x == y
    {
      if x != s && y != s {
        assert SameAssocSlot(n[x], n[y]);
      } else {
        assert x in n ==> OwnAssociation(n, n[x].versionId, n[x].name, x);
        assert y in n ==> OwnAssociation(n, n[y].versionId, n[y].name, y);
      }
    }
  }

  /** New associations of one version, and nothing else. */
  ghost predicate OnlyLinked(d: Db, e: Db, ver: Id) {
    && e == d.(associations := e.associations, nextId := e.nextId) && d.nextId <= e.nextId
    && Extends(d.associations, e.associations, d.nextId)
    && forall s :: s in e.associations && s !in d.associations ==> e.associations[s].versionId == ver && s < e.nextId
  }

  lemma CreatedIsLinked(d: Db, e: Db, ver: Id, out: seq<ExportAssociation>, typeIds: map<string, Id>)
    requires forall s :: s in d.associations ==> s < d.nextId
    requires e == d.(associations := e.associations, nextId := d.nextId + |out|)
    requires AssociationsCreated(d.associations, e.associations, ver, d.nextId, out, typeIds)
    ensures OnlyLinked(d, e, ver)
    ensures forall s :: s in e.associations && s !in d.associations ==> d.nextId <= s < d.nextId + |out|
  {
    forall s | s in e.associations && s !in d.associations
      ensures e.associations[s].versionId == ver
    {
      var x := s - d.nextId;
      assert e.associations[d.nextId + x] == NewAssociation(ver, out[x], typeIds[out[x].target]);
    }
  }

  lemma LinkedRow(d: Db, e: Db, ver: Id, out: seq<ExportAssociation>, typeIds: map<string, Id>, x: nat)
    requires (forall s :: s in d.associations ==> s < d.nextId) && x < |out|
    requires AssociationsCreated(d.associations, e.associations, ver, d.nextId, out, typeIds)
    ensures d.nextId + x in e.associations && d.nextId + x !in d.associations
    ensures out[x].target in typeIds && e.associations[d.nextId + x] == NewAssociation(ver, out[x], typeIds[out[x].target])
  {
  }

  lemma LinkedIsSound(d: Db, e: Db, ver: Id)
    requires Sound(d) && OnlyLinked(d, e, ver) && ver < d.nextId && UniqueAssociationNames(e.associations)
    ensures Sound(e)
  {
    hide UniqueAttributeNames, UniqueAssociationNames, UniqueTypeNames, UniqueNumbers;
    SameTypesSameNames(d, e);
  }

  lemma LinkedIsShown(d: Db, e: Db, g: Target, ver: Id, out: seq<ExportAssociation>)
    requires (forall s :: s in d.associations ==> s < d.nextId) && AssociationsIn(d, ver) == {} && Settled(d, g)
    requires e == d.(associations := e.associations, nextId := d.nextId + |out|)
    requires AssociationsCreated(d.associations, e.associations, ver, d.nextId, out, g.typeIds)
    ensures AssociationsShown(e, ver, out)
  {
    hide AssociationsCreated, IsLatest;
    CreatedIsLinked(d, e, ver, out, g.typeIds);
    var ids := seq(|out|, x requires 0 <= x < |out| => d.nextId + x);
    forall s | s in AssociationsIn(e, ver)
      ensures s in ids
    {
      assert s in d.associations ==> s in AssociationsIn(d, ver);
      assert ids[s - d.nextId] == s;
    }
    forall x | 0 <= x < |out|
      ensures ids[x] in AssociationsIn(e, ver) && ShowsAssociation(e, ids[x], out[x])
    {
      LinkedRow(d, e, ver, out, g.typeIds, x);
      assert Named(d, g, out[x].target);
    }
    assert Lists(AssociationsIn(e, ver), ids);
  }

  lemma LinkedIsSettled(d: Db, e: Db, g: Target, ver: Id, out: seq<ExportAssociation>, after: map<string, Id>)
    requires Settled(d, g) && ver in g.versionIds.Values && (forall s :: s in d.associations ==> s < d.nextId)
    requires e == d.(associations := e.associations, nextId := d.nextId + |out|)
    requires AssociationsCreated(d.associations, e.associations, ver, d.nextId, out, g.typeIds)
    requires Tabled(g.associations, after, d.nextId, out)
    ensures Settled(e, g.(associations := after))
  {
    hide AssociationsCreated, IsLatest;
    var h := g.(associations := after);
    CreatedIsLinked(d, e, ver, out, g.typeIds);
    forall n | n in h.typeIds
      ensures Named(e, h, n)
    {
      assert Named(d, g, n);
      SameLatest(d, e, g.typeIds[n], g.versionIds[n]);
    }
    forall n | n in after
      ensures InTable(e, h, n)
    {
      if n in g.associations && after[n] == g.associations[n] {
        assert InTable(d, g, n);
      } else {
        var x: nat :| x < |out| && out[x].name == n && after[n] == d.nextId + x;
        LinkedRow(d, e, ver, out, g.typeIds, x);
      }
    }
    forall s: Id | Holder(e, h, s)
      ensures e.associations[s].name in after
    {
      if s in d.associations {
        assert Holder(d, g, s);
      } else {
        LinkedRow(d, e, ver, out, g.typeIds, s - d.nextId);
      }
    }
  }

  lemma SameLatest(d: Db, e: Db, typeId: Id, ver: Id)
    requires e.versions == d.versions && IsLatest(d, typeId, ver)
    ensures IsLatest(e, typeId, ver)
  {
  }

  lemma OtherIsKept(d: Db, e: Db, ver: Id, other: Id)
    requires OnlyLinked(d, e, ver) && other != ver && other in d.versions
    ensures VersionKept(d, e, other)
  {
  }

  lemma AttributesStay(d: Db, e: Db, defs: DefNames, ver: Id, other: Id, out: seq<ExportAttribute>)
    requires OnlyLinked(d, e, ver) && AttributesShown(d, defs, other, out)
    ensures AttributesShown(e, defs, other, out)
  {
    var ids :| Lists(AttributesIn(d, other), ids) && |ids| == |out|
               && forall x :: 0 <= x < |out| ==> ShowsAttribute(d, defs, ids[x], out[x]);
    assert AttributesIn(e, other) == AttributesIn(d, other);
    forall x | 0 <= x < |out|
      ensures ShowsAttribute(e, defs, ids[x], out[x])
    {
    }
  }

  lemma VersionsDiffer(e: Db, g: Target, m: string, n: string)
    requires Named(e, g, m) && Named(e, g, n) && m != n
    ensures g.versionIds[m] != g.versionIds[n]
  {
  }

  /** One created type gets its associations; the others stand as they did. */
  lemma TypeIsLinked(d: Db, e: Db, defs: DefNames, reuse: set<string>, g: Target, after: map<string, Id>, created: set<string>,
                     t: ExportType)
    requires Sound(d) && Settled(d, g) && t.name in created && Standing(d, defs, reuse, g, created, t, false)
    requires e == d.(associations := e.associations, nextId := d.nextId + |t.associations|)
    requires AssociationsCreated(d.associations, e.associations, g.versionIds[t.name], d.nextId, t.associations, g.typeIds)
    requires Settled(e, g.(associations := after))
    ensures Standing(e, defs, reuse, g.(associations := after), created, t, true)
  {
    hide AssociationsCreated, IsLatest, Settled, AttributesShown, AssociationsShown, UniqueAttributeNames, UniqueAssociationNames,
         UniqueTypeNames, UniqueNumbers, Identical;
    var h := g.(associations := after);
    AssociationsFresh(d);
    CreatedIsLinked(d, e, g.versionIds[t.name], t.associations, g.typeIds);
    LinkedIsShown(d, e, g, g.versionIds[t.name], t.associations);
    AttributesStay(d, e, defs, g.versionIds[t.name], g.versionIds[t.name], t.attributes);
    SettledNames(e, h, t.name);
  }

  lemma AssociationsFresh(d: Db)
    requires FreshSchema(d)
    ensures forall s :: s in d.associations ==> s < d.nextId
  {
  }

  lemma SettledNames(e: Db, g: Target, n: string)
    requires Settled(e, g) && n in g.typeIds
    ensures Named(e, g, n)
  {
  }

  lemma OtherStands(d: Db, e: Db, defs: DefNames, reuse: set<string>, g: Target, after: map<string, Id>, created: set<string>,
                    t: ExportType, n: string, linked: bool)
    requires Settled(d, g) && Settled(e, g.(associations := after)) && n in g.typeIds && t.name != n
    requires Standing(d, defs, reuse, g, created, t, linked) && n in g.versionIds && OnlyLinked(d, e, g.versionIds[n])
    ensures Standing(e, defs, reuse, g.(associations := after), created, t, linked)
  {
    hide Settled, AttributesShown, AssociationsShown, Identical, IsLatest, VersionKept, OnlyLinked;
    var h := g.(associations := after);
    SettledNames(d, g, n);
    SettledNames(e, h, t.name);
    VersionsDiffer(d, g, t.name, n);
    LatestExists(d, g.typeIds[t.name], g.versionIds[t.name]);
    OtherIsKept(d, e, g.versionIds[n], g.versionIds[t.name]);
    StandingStill(d, e, defs, reuse, g, h, created, created, t, linked);
  }

  // ---- the second pass ----

  /** Only associations of created versions are new. */
  ghost predicate OnlyAssociations(d: Db, e: Db, g: Target, created: set<string>) {
    && e == d.(associations := e.associations, nextId := e.nextId) && d.nextId <= e.nextId
    && Extends(d.associations, e.associations, d.nextId)
    && forall s :: s in e.associations && s !in d.associations ==> OfCreated(g, created, e.associations[s].versionId)
  }

  ghost predicate AllLinked(e: Db, defs: DefNames, reuse: set<string>, g: Target, created: set<string>, types: seq<ExportType>, k: nat) {
    TypeNamesDiffer(types) ==> forall j :: 0 <= j < |types| ==> Standing(e, defs, reuse, g, created, types[j], j < k)
  }

  ghost predicate LinksDone(d: Db, e: Db, defs: DefNames, reuse: set<string>, g: Target, h: Target, created: set<string>,
                            types: seq<ExportType>, k: nat) {
    && Sound(e) && Settled(e, h) && h.typeIds == g.typeIds && h.versionIds == g.versionIds
    && OnlyAssociations(d, e, g, created) && AllLinked(e, defs, reuse, h, created, types, k)
  }

  lemma OnlyMore(d: Db, v: Db, e: Db, g: Target, created: set<string>, n: string)
    requires OnlyAssociations(d, v, g, created) && n in created && n in g.versionIds && OnlyLinked(v, e, g.versionIds[n])
    ensures OnlyAssociations(d, e, g, created)
  {
  }

  lemma AllLinkedFurther(d: Db, e: Db, defs: DefNames, reuse: set<string>, g: Target, after: map<string, Id>, created: set<string>,
                         types: seq<ExportType>, k: nat)
    requires k < |types| && types[k].name in created && types[k].name in g.typeIds && types[k].name in g.versionIds
    requires Sound(d) && Settled(d, g) && Settled(e, g.(associations := after)) && AllLinked(d, defs, reuse, g, created, types, k)
    requires e == d.(associations := e.associations, nextId := d.nextId + |types[k].associations|)
    requires AssociationsCreated(d.associations, e.associations, g.versionIds[types[k].name], d.nextId, types[k].associations, g.typeIds)
    requires OnlyLinked(d, e, g.versionIds[types[k].name])
    ensures AllLinked(e, defs, reuse, g.(associations := after), created, types, k + 1)
  {
    hide Sound, Settled, Standing, AssociationsCreated, OnlyLinked;
    if TypeNamesDiffer(types) {
      forall j | 0 <= j < |types|
        ensures Standing(e, defs, reuse, g.(associations := after), created, types[j], j < k + 1)
      {
        if j == k {
          TypeIsLinked(d, e, defs, reuse, g, after, created, types[k]);
        } else {
          assert types[j].name != types[k].name;
          OtherStands(d, e, defs, reuse, g, after, created, types[j], types[k].name, j < k);
        }
      }
    }
  }

  lemma AllLinkedPast(e: Db, defs: DefNames, reuse: set<string>, g: Target, created: set<string>, types: seq<ExportType>, k: nat)
    requires k < |types| && types[k].name !in created && AllLinked(e, defs, reuse, g, created, types, k)
    ensures AllLinked(e, defs, reuse, g, created, types, k + 1)
  {
    hide AttributesShown, AssociationsShown, Identical, Named;
    if TypeNamesDiffer(types) {
      forall j | 0 <= j < |types|
        ensures Standing(e, defs, reuse, g, created, types[j], j < k + 1)
      {
        assert Standing(e, defs, reuse, g, created, types[j], j < k);
      }
    }
  }

  /** The associations of one created type. */
  method LinkType(db: Store, t: ExportType, g: Target) returns (out: Outcome, after: map<string, Id>)
    requires Sound(db.State()) && Settled(db.State(), g) && t.name in g.versionIds
    modifies db`associations, db`nextId
    ensures out.Pass? ==>
              && Sound(db.State()) && Settled(db.State(), g.(associations := after))
              && db.State() == old(db.State()).(associations := db.associations, nextId := old(db.nextId) + |t.associations|)
              && AssociationsCreated(old(db.associations), db.associations, g.versionIds[t.name], old(db.nextId), t.associations, g.typeIds)
              && OnlyLinked(old(db.State()), db.State(), g.versionIds[t.name])
    ensures TargetsKnown(t.associations, g.typeIds) && AssociationsIn(old(db.State()), g.versionIds[t.name]) == {} ==> out.Pass?
  {
    hide TargetsKnown, Settled, AssociationsCreated, OnlyLinked, Tabled, FreshSchema, UniqueAttributeNames, UniqueAssociationNames,
         UniqueTypeNames, UniqueNumbers;
    ghost var d := db.State();
    AssociationsFresh(d);
    var ver := g.versionIds[t.name];
    VersionIsOld(d, g, t.name);
    out, after := CreateAssociations(db, ver, t.associations, g.typeIds, g.associations);
    if out.Pass? {
      CreatedIsLinked(d, db.State(), ver, t.associations, g.typeIds);
      LinkedIsSound(d, db.State(), ver);
      LinkedIsSettled(d, db.State(), g, ver, t.associations, after);
    }
  }

  ghost predicate LinksFit(g: Target, created: set<string>, types: seq<ExportType>) {
    && TypeNamesDiffer(types)
    && forall x :: 0 <= x < |types| && types[x].name in created ==> TargetsKnown(types[x].associations, g.typeIds)
  }

  lemma NotYetLinked(e: Db, defs: DefNames, reuse: set<string>, g: Target, created: set<string>, types: seq<ExportType>, k: nat)
    requires TypeNamesDiffer(types) && k < |types| && types[k].name in created && AllLinked(e, defs, reuse, g, created, types, k)
    ensures types[k].name in g.versionIds && AssociationsIn(e, g.versionIds[types[k].name]) == {}
  {
    hide AttributesShown, AssociationsShown, Identical;
    assert Standing(e, defs, reuse, g, created, types[k], k < k);
  }

  method LinkCreated(db: Store, types: seq<ExportType>, g: Target, created: set<string>, ghost defs: DefNames, ghost reuse: set<string>)
    returns (out: Outcome, h: Target)
    requires Sound(db.State()) && Settled(db.State(), g) && created <= g.versionIds.Keys
    requires AllStand(db.State(), defs, reuse, g, created, types)
    modifies db`associations, db`nextId
    ensures out.Pass? ==> LinksDone(old(db.State()), db.State(), defs, reuse, g, h, created, types, |types|)
    ensures LinksFit(g, created, types) ==> out.Pass?
  {
    hide TargetsKnown, Settled, Sound, AssociationsCreated, OnlyLinked, AllLinked, OnlyAssociations, AllStand;
    ghost var d := db.State();
    out, h := Pass, g;
    NoneLinked(d, defs, reuse, g, created, types);
    for k := 0 to |types|
      invariant out.Pass? && LinksDone(d, db.State(), defs, reuse, g, h, created, types, k)
    {
      ghost var v := db.State();
      if types[k].name in created {
        if LinksFit(g, created, types) {
          NotYetLinked(v, defs, reuse, h, created, types, k);
        }
        var after;
        out, after := LinkType(db, types[k], h);
        if out.Fail? {
          return;
        }
        OnlyMore(d, v, db.State(), g, created, types[k].name);
        SettledKeys(v, h);
        AllLinkedFurther(v, db.State(), defs, reuse, h, after, created, types, k);
        h := h.(associations := after);
      } else {
        AllLinkedPast(v, defs, reuse, h, created, types, k);
      }
    }
  }

  lemma NoneLinked(d: Db, defs: DefNames, reuse: set<string>, g: Target, created: set<string>, types: seq<ExportType>)
    requires AllStand(d, defs, reuse, g, created, types)
    ensures AllLinked(d, defs, reuse, g, created, types, 0) && OnlyAssociations(d, d, g, created)
  {
    hide Standing;
  }
}
