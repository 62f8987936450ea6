/** Moving a pin to another version of its entity type, with the stored values. */
module PinUpdates {
  import opened Domain
  import opened Database
  import opened Conformance
  import opened Revisions
  import opened AttributeMapping
  import opened Migration
  import opened CatalogVersions
  import opened CatalogVersionCalls
  import opened Instances

  function AttrOf(id: Id, a: Attribute): Attr {
    Attr(id, a.name, a.typeDef, a.ordinal, a.required)
  }

  ghost predicate ByOrdinal(list: seq<Attr>) {
    forall j, k :: 0 <= j < k < |list| ==> list[j].ordinal <= list[k].ordinal
  }

  ghost predicate Describes(x: Attr, a: Attribute) {
    x.name == a.name && x.typeDef == a.typeDef && x.ordinal == a.ordinal && x.required == a.required
  }

  /** Exactly the attributes of the version, by ordinal; ties come in any order. */
  ghost predicate ListsVersion(attributes: map<Id, Attribute>, ver: Id, list: seq<Attr>) {
    && ByOrdinal(list) && Listed(list)
    && (forall k :: 0 <= k < |list| ==>
          && list[k].id in attributes && attributes[list[k].id].versionId == ver && Describes(list[k], attributes[list[k].id]))
    && (forall a :: a in attributes && attributes[a].versionId == ver ==> HasId(list, a))
  }

  ghost predicate HasId(list: seq<Attr>, a: Id) {
    exists k :: 0 <= k < |list| && list[k].id == a
  }

  function InsertByOrdinal(x: Attr, list: seq<Attr>): seq<Attr> {
    if list == [] || x.ordinal <= list[0].ordinal then [x] + list else [list[0]] + InsertByOrdinal(x, list[1..])
  }

  ghost predicate NoRepeats(list: seq<Attr>) {
    forall j, k :: 0 <= j < k < |list| ==> list[j] != list[k]
  }

  lemma {:induction false} InsertedByOrdinal(x: Attr, list: seq<Attr>)
    requires ByOrdinal(list) && NoRepeats(list) && x !in list
    ensures ByOrdinal(InsertByOrdinal(x, list)) && NoRepeats(InsertByOrdinal(x, list))
    ensures forall y :: y in InsertByOrdinal(x, list) <==> y == x || y in list
  {
    if list == [] || x.ordinal <= list[0].ordinal {
    } else {
      InsertedByOrdinal(x, list[1..]);
      var rest := InsertByOrdinal(x, list[1..]);
      assert list == [list[0]] + list[1..];
      forall k | 0 <= k < |rest|
        ensures list[0].ordinal <= rest[k].ordinal && list[0] != rest[k]
      {
        assert rest[k] == x || rest[k] in list[1..];
      }
    }
  }

  predicate IsRowOf(attributes: map<Id, Attribute>, y: Attr) {
    y.id in attributes && y == AttrOf(y.id, attributes[y.id])
  }

  method ListByVersion(attributes: map<Id, Attribute>, ver: Id) returns (list: seq<Attr>)
    requires UniqueAttributeNames(attributes)
    ensures ListsVersion(attributes, ver, list)
  {
    hide UniqueAttributeNames, ByOrdinal, NoRepeats, InsertByOrdinal;
    list := [];
    EmptyList();
    var all := set a | a in attributes && attributes[a].versionId == ver;
    var todo := all;
    while todo != {}
      invariant todo <= all
      invariant ByOrdinal(list) && NoRepeats(list)
      invariant forall y :: y in list <==> y.id in all - todo && IsRowOf(attributes, y)
      decreases todo
    {
      var a :| a in todo;
      var x := AttrOf(a, attributes[a]);
      InsertedByOrdinal(x, list);
      list := InsertByOrdinal(x, list);
      todo := todo - {a};
    }
    ListIsExact(attributes, ver, list);
  }

  lemma EmptyList()
    ensures ByOrdinal([]) && NoRepeats([])
  {
  }

  lemma ListIsExact(attributes: map<Id, Attribute>, ver: Id, list: seq<Attr>)
    requires UniqueAttributeNames(attributes) && ByOrdinal(list) && NoRepeats(list)
    requires forall y :: y in list <==> IsRowOf(attributes, y) && attributes[y.id].versionId == ver
    ensures ListsVersion(attributes, ver, list)
  {
    forall a | a in attributes && attributes[a].versionId == ver
      ensures HasId(list, a)
    {
      assert AttrOf(a, attributes[a]) in list;
    }
    forall j, k | 0 <= j < |list| && 0 <= k < |list| && SameNameOrId(list[j], list[k])
      ensures j == k
    {
      assert list[j] in list && list[k] in list;
      assert SameSlot(attributes[list[j].id], attributes[list[k].id]);
    }
  }

  // ---- the instances to migrate ----

  const MIGRATION_LIMIT: nat := 10000

  function InstancesIn(d: Db, c: Id, typeId: Id): set<Id> {
    set i | i in d.instances && d.instances[i].typeId == typeId && d.instances[i].catalogId == c
  }

  ghost predicate TooMany(d: Db, cv: Id, typeId: Id) {
    exists c :: c in d.catalogs && d.catalogs[c].cvId == cv && |InstancesIn(d, c, typeId)| > MIGRATION_LIMIT
  }

  /** All instances of the type in the catalogs of the version; refused when one catalog has
      more than the limit. Also the catalogs that have any. */
  method CollectAffectedInstances(db: Store, cv: Id, typeId: Id) returns (res: Result<(set<Id>, set<Id>)>)
    ensures res.Err? <==> TooMany(db.State(), cv, typeId)
    ensures res.Ok? ==> res.value.0 == InstancesUnder(db.State(), cv, typeId)
    ensures res.Ok? ==> forall c :: c in res.value.1 <==>
              c in db.catalogs && db.catalogs[c].cvId == cv && InstancesIn(db.State(), c, typeId) != {}
  {
    var all := set c | c in db.catalogs && db.catalogs[c].cvId == cv;
    var todo := all;
    var insts: set<Id>, cats: set<Id> := {}, {};
    while todo != {}
      invariant todo <= all
      invariant insts == set i | i in InstancesUnder(db.State(), cv, typeId) && db.instances[i].catalogId !in todo
      invariant forall c :: c in cats <==> c in all - todo && InstancesIn(db.State(), c, typeId) != {}
      invariant forall c :: c in all - todo ==> |InstancesIn(db.State(), c, typeId)| <= MIGRATION_LIMIT
      decreases todo
    {
      var c :| c in todo;
      var page := InstancesIn(db.State(), c, typeId);
      if |page| > MIGRATION_LIMIT {
        return Err(Rejected);
      }
      if |page| > 0 {
        cats := cats + {c};
      }
      insts := insts + page;
      todo := todo - {c};
    }
    return Ok((insts, cats));
  }

  // ---- the call ----

  /** The report is the one of the matching between the two versions' attributes. */
  ghost predicate Planned(d: Db, from: Id, to: Id, g: Progress) {
    exists olds: seq<Attr>, news: seq<Attr>, p: Pairing :: PlannedBy(d, from, to, g, olds, news, p)
  }

  ghost predicate PlannedBy(d: Db, from: Id, to: Id, g: Progress, olds: seq<Attr>, news: seq<Attr>, p: Pairing) {
    && ListsVersion(d.attributes, from, olds) && ListsVersion(d.attributes, to, news)
    && InBounds(olds, news, p) && (forall j: nat, k: nat :: (j in p && p[j] == k) <==> Matches(olds, news, j, k))
    && MapsBy(olds, news, p, g.mapping)
    && |olds| <= |g.report| && ReportsOld(olds, news, p, g.report[..|olds|], |olds|)
    && g.report[|olds|..] == AddedLines(news, p.Values, |news|)
    && Warns(olds, news, p, g.warnings, |olds|, |news|)
  }

  /** A planned id map runs between two versions. */
  lemma PlanIsBetweenVersions(d: Db, from: Id, to: Id, g: Progress)
    requires Planned(d, from, to, g) && from != to
    ensures BetweenVersions(g.mapping)
  {
    hide Matches, Warns, ReportsOld, AddedLines, ByOrdinal, HasId, MapsBy, InBounds;
    var olds: seq<Attr>, news: seq<Attr>, p: Pairing :| PlannedBy(d, from, to, g, olds, news, p);
    forall x, y | x in g.mapping && y in g.mapping && g.mapping[x] == g.mapping[y]
      ensures x == y
    {
      MappingIsInjective(olds, news, p, g.mapping, x, y);
    }
    MapsAcross(d, from, to, g, olds, news, p);
  }

  lemma MapsAcross(d: Db, from: Id, to: Id, g: Progress, olds: seq<Attr>, news: seq<Attr>, p: Pairing)
    requires PlannedBy(d, from, to, g, olds, news, p)
    ensures forall x :: x in g.mapping ==>
              && x in d.attributes && d.attributes[x].versionId == from
              && g.mapping[x] in d.attributes && d.attributes[g.mapping[x]].versionId == to
  {
    hide Matches, Warns, ReportsOld, AddedLines, Listed, ByOrdinal, HasId;
    forall x | x in g.mapping
      ensures x in d.attributes && d.attributes[x].versionId == from
      ensures g.mapping[x] in d.attributes && d.attributes[g.mapping[x]].versionId == to
    {
      var j :| j in p && olds[j].id == x;
      assert g.mapping[x] == news[p[j]].id;
    }
  }

  /** A mapped attribute is warned about by both its type definitions exactly when they differ. */
  lemma TypeChangeIsWarned(d: Db, from: Id, to: Id, g: Progress, a: Id)
    requires Planned(d, from, to, g) && a in g.mapping
    ensures a in d.attributes && g.mapping[a] in d.attributes
    ensures var x, y := d.attributes[a], d.attributes[g.mapping[a]];
            TypeChanged(y.name, x.typeDef, y.typeDef) in g.warnings <==> x.typeDef != y.typeDef
  {
    hide Matches, ReportsOld, AddedLines, ListsVersion, Warns;
    var olds: seq<Attr>, news: seq<Attr>, p: Pairing :| PlannedBy(d, from, to, g, olds, news, p);
    var j :| j in p && olds[j].id == a;
    AttributeListed(d.attributes, from, olds, j);
    AttributeListed(d.attributes, to, news, p[j]);
    TypeChangeWarned(olds, news, p, g.warnings, j);
  }

  /** A required attribute that nothing is mapped to is warned about by name, and so is an attribute
      that is not mapped. */
  lemma GapsAreWarned(d: Db, from: Id, to: Id, g: Progress, name: string)
    requires Planned(d, from, to, g)
    ensures NewRequired(name) in g.warnings <==>
              exists b :: b in d.attributes && d.attributes[b].versionId == to && d.attributes[b].name == name
                          && d.attributes[b].required && b !in g.mapping.Values
    ensures Deleted(name) in g.warnings <==>
              exists a :: a in d.attributes && d.attributes[a].versionId == from && d.attributes[a].name == name && a !in g.mapping
  {
    hide Matches, ReportsOld, AddedLines, Warns, ListsVersion, Warned, MapsBy;
    var olds: seq<Attr>, news: seq<Attr>, p: Pairing :| PlannedBy(d, from, to, g, olds, news, p);
    ListedVersion(d.attributes, to, news);
    WarnedIs(olds, news, p, g.warnings, NewRequired(name));
    WarnedIs(olds, news, p, g.warnings, Deleted(name));
    RequiredGap(d.attributes, to, olds, news, p, g.mapping, name);
    DeletedGap(d.attributes, from, olds, news, p, g.mapping, name);
  }

  lemma RequiredGap(attributes: map<Id, Attribute>, to: Id, olds: seq<Attr>, news: seq<Attr>, p: Pairing, m: map<Id, Id>, name: string)
    requires InBounds(olds, news, p) && MapsBy(olds, news, p, m) && ListsVersion(attributes, to, news)
    ensures Warned(olds, news, p, NewRequired(name), |olds|, |news|) <==>
              exists b :: b in attributes && attributes[b].versionId == to && attributes[b].name == name
                          && attributes[b].required && b !in m.Values
  {
    hide MapsBy, ByOrdinal, InBounds, Listed;
    forall k: nat | k < |news|
      ensures k in p.Values <==> news[k].id in m.Values
    {
      MappedTo(olds, news, p, m, k);
    }
    if b :| b in attributes && attributes[b].versionId == to && attributes[b].name == name && attributes[b].required && b !in m.Values {
      assert HasId(news, b);
    }
  }

  lemma DeletedGap(attributes: map<Id, Attribute>, from: Id, olds: seq<Attr>, news: seq<Attr>, p: Pairing, m: map<Id, Id>, name: string)
    requires InBounds(olds, news, p) && MapsBy(olds, news, p, m) && ListsVersion(attributes, from, olds)
    ensures Warned(olds, news, p, Deleted(name), |olds|, |news|) <==>
              exists a :: a in attributes && attributes[a].versionId == from && attributes[a].name == name && a !in m
  {
    hide ByOrdinal;
    forall j: nat | j < |olds|
      ensures j in p <==> olds[j].id in m
    {
      if olds[j].id in m {
        var k :| k in p && olds[k].id == olds[j].id;
        assert SameNameOrId(olds[k], olds[j]);
      }
    }
    if a :| a in attributes && attributes[a].versionId == from && attributes[a].name == name && a !in m {
      assert HasId(olds, a);
    }
  }

  lemma WarnedIs(olds: seq<Attr>, news: seq<Attr>, p: Pairing, warnings: seq<Warning>, w: Warning)
    requires InBounds(olds, news, p) && Warns(olds, news, p, warnings, |olds|, |news|)
    ensures w in warnings <==> Warned(olds, news, p, w, |olds|, |news|)
  {
  }

  lemma MappedTo(olds: seq<Attr>, news: seq<Attr>, p: Pairing, m: map<Id, Id>, k: nat)
    requires InBounds(olds, news, p) && MapsBy(olds, news, p, m) && Listed(news) && k < |news|
    ensures k in p.Values <==> news[k].id in m.Values
  {
    if k in p.Values {
      var j :| j in p && p[j] == k;
      assert m[olds[j].id] == news[k].id;
    }
    if news[k].id in m.Values {
      var a :| a in m && m[a] == news[k].id;
      var j :| j in p && olds[j].id == a;
      assert m[olds[j].id] == news[p[j]].id;
    }
  }

  lemma AttributeListed(attributes: map<Id, Attribute>, ver: Id, list: seq<Attr>, k: nat)
    requires ListsVersion(attributes, ver, list) && k < |list|
    ensures list[k].id in attributes
    ensures list[k].name == attributes[list[k].id].name && list[k].typeDef == attributes[list[k].id].typeDef
  {
    hide Listed, ByOrdinal, HasId;
  }

  /** One stored value, before and after: it is found under the mapped attribute and shows what it
      showed exactly when the two attributes' types read it alike, as they do when no change of
      type was warned about. */
  ghost predicate ShownAcross(d: Db, e: Db, g: Progress, i: Id, ver: nat, a: Id)
    requires a in d.attributes && a in g.mapping && g.mapping[a] in d.attributes && a in RowsAt(d.values, i, ver)
  {
    var b := g.mapping[a];
    var before, after := RowsAt(d.values, i, ver), RowsAt(e.values, i, ver);
    var x, y := d.attributes[a], d.attributes[b];
    && b in after && after[b] == before[a]
    && (Show(BaseOfAttribute(d, b), after, b) == Show(BaseOfAttribute(d, a), before, a) <==>
          ReadAlike(BaseOfAttribute(d, a), BaseOfAttribute(d, b), before[a]))
    && (TypeChanged(y.name, x.typeDef, y.typeDef) !in g.warnings ==>
          Show(BaseOfAttribute(d, b), after, b) == Show(BaseOfAttribute(d, a), before, a))
  }

  ghost predicate AllShownAcross(d: Db, e: Db, insts: set<Id>, g: Progress) {
    forall i: Id, ver: nat, a: Id {:trigger ShownAcross(d, e, g, i, ver, a)} {:trigger a in RowsAt(d.values, i, ver)} ::
      i in insts && a in g.mapping && a in d.attributes && g.mapping[a] in d.attributes && a in RowsAt(d.values, i, ver) ==>
        ShownAcross(d, e, g, i, ver, a)
  }

  lemma MigrationShows(d: Db, e: Db, from: Id, to: Id, insts: set<Id>, g: Progress)
    requires Planned(d, from, to, g) && from != to && BetweenVersions(g.mapping) && Roomy(d.values, insts, g.mapping)
    requires e.values == Substituted(d.values, insts, g.mapping)
    ensures AllShownAcross(d, e, insts, g)
  {
    hide Planned, Roomy, Substituted, RowsAt, Injective, BetweenVersions;
    forall i: Id, ver: nat, a: Id | i in insts && a in g.mapping && a in d.attributes && g.mapping[a] in d.attributes
                                     && a in RowsAt(d.values, i, ver)
      ensures ShownAcross(d, e, g, i, ver, a)
    {
      MapIsInjective(g.mapping);
      MeaningIsKept(d.values, insts, g.mapping, i, ver, a, BaseOfAttribute(d, a), BaseOfAttribute(d, g.mapping[a]));
      TypeChangeIsWarned(d, from, to, g, a);
    }
  }

  lemma MapIsInjective(m: map<Id, Id>)
    requires BetweenVersions(m)
    ensures Injective(m)
  {
  }

  ghost predicate Repinnable(d: Db, cv: Id, pin: Id, ver: Id, role: Role) {
    && MayEdit(d, cv, role) && pin in d.pins && d.pins[pin].cvId == cv
    && ver in d.versions && PinsType(d, pin, d.versions[ver].typeId)
  }

  method BuildMigrationReport(db: Store, from: Id, to: Id, cv: Id, typeId: Id)
    returns (res: Result<(Progress, set<Id>)>, ghost plan: Progress)
    requires UniqueAttributeNames(db.attributes)
    ensures res.Err? <==> TooMany(db.State(), cv, typeId)
    ensures Planned(db.State(), from, to, plan)
    ensures res.Ok? ==> res.value.0 == plan && res.value.1 == InstancesUnder(db.State(), cv, typeId)
  {
    hide Matches, Warns, MapsBy, ReportsOld, AddedLines, ListsVersion, TooMany, InstancesUnder;
    var olds := ListByVersion(db.attributes, from);
    var news := ListByVersion(db.attributes, to);
    ListedVersion(db.attributes, from, olds);
    ListedVersion(db.attributes, to, news);
    var g, p := BuildAttributeMapping(olds, news);
    assert PlannedBy(db.State(), from, to, g, olds, news, p);
    var insts := CollectAffectedInstances(db, cv, typeId);
    if insts.Err? {
      return Err(insts.error), g;
    }
    return Ok((g, insts.value.0)), g;
  }

  lemma ListedVersion(attributes: map<Id, Attribute>, ver: Id, list: seq<Attr>)
    requires ListsVersion(attributes, ver, list)
    ensures Listed(list)
  {
  }

  /** What the call asks of the state besides the rights: the instances are not too many, and
      unless it is a dry run, no stored row is in the way. */
  ghost predicate CanMigrate(d: Db, pin: Id, ver: Id, dryRun: bool, g: Progress)
    requires pin in d.pins && ver in d.versions
  {
    var typeId, cv := d.versions[ver].typeId, d.pins[pin].cvId;
    d.pins[pin].versionId != ver ==>
      && !TooMany(d, cv, typeId)
      && (dryRun || Roomy(d.values, InstancesUnder(d, cv, typeId), g.mapping))
  }

  /** Whether the pin may be moved to the version: the catalog version may be edited, the pin is
      one of its pins, and both versions are of one entity type. */
  method CheckPin(db: Store, cv: Id, pin: Id, ver: Id, role: Role) returns (out: Outcome)
    ensures out.Pass? <==> Repinnable(db.State(), cv, pin, ver, role)
  {
    if cv !in db.versionSets {
      return Fail(NotFound);
    }
    if !EditAllowed(db.versionSets[cv].stage, role) {
      return Fail(Rejected);
    }
    if pin !in db.pins || db.pins[pin].cvId != cv {
      return Fail(NotFound);
    }
    var from := db.pins[pin].versionId;
    if from !in db.versions || ver !in db.versions {
      return Fail(NotFound);
    }
    return if db.versions[ver].typeId == db.versions[from].typeId then Pass else Fail(Rejected);
  }

  lemma RepinnableMeans(d: Db, cv: Id, pin: Id, ver: Id, role: Role)
    requires Repinnable(d, cv, pin, ver, role)
    ensures pin in d.pins && d.pins[pin].cvId == cv && d.pins[pin].versionId in d.versions && ver in d.versions
    ensures d.versions[d.pins[pin].versionId].typeId == d.versions[ver].typeId
  {
  }

  lemma RepinnableStage(d: Db, cv: Id, pin: Id, ver: Id, role: Role)
    requires Repinnable(d, cv, pin, ver, role)
    ensures cv in d.versionSets && d.versionSets[cv].stage != Production && (d.versionSets[cv].stage == Testing ==> role == SuperAdmin)
  {
  }

  /** Refused calls change nothing, whatever had been done inside the transaction. Accepted
      ones move the pin and every stored value with it, unless they are dry runs. */
  method UpdatePin(db: Store, cv: Id, pin: Id, ver: Id, role: Role, dryRun: bool)
    returns (res: Result<Option<Progress>>, ghost step: VersionStep)
    requires UniqueAttributeNames(db.attributes)
    modifies db`pins, db`values, db`catalogs
    ensures res.Ok? ==> Repinnable(old(db.State()), cv, pin, ver, role)
    ensures res.Ok? ==> (res.value.None? <==> old(db.pins)[pin].versionId == ver)
    ensures res.Ok? && res.value.Some? ==>
              && Planned(old(db.State()), old(db.pins)[pin].versionId, ver, res.value.value)
              && BetweenVersions(res.value.value.mapping)
              && CanMigrate(old(db.State()), pin, ver, dryRun, res.value.value)
    ensures res.Err? ==>
              || !Repinnable(old(db.State()), cv, pin, ver, role)
              || exists g :: Planned(old(db.State()), old(db.pins)[pin].versionId, ver, g)
                             && !CanMigrate(old(db.State()), pin, ver, dryRun, g)
    ensures res.Err? || dryRun ==> db.State() == old(db.State())
    ensures res.Ok? && !dryRun ==>
              && step == MovePin(pin, ver,
                   if res.value.Some? then InstancesUnder(old(db.State()), cv, old(db.versions)[ver].typeId) else {},
                   if res.value.Some? then res.value.value.mapping else map[])
              && VersionStepAllowed(old(db.State()), step) && db.State() == ApplyVersionStep(old(db.State()), step)
    ensures res.Ok? ==>
              && cv in db.versionSets && db.versionSets[cv].stage != Production && (db.versionSets[cv].stage == Testing ==> role == SuperAdmin)
    ensures res.Ok? && !dryRun ==> db.pins == old(db.pins)[pin := Pin(cv, ver)] && AllDrafts(old(db.catalogs), db.catalogs, cv)
    ensures res.Ok? && !dryRun && res.value.Some? ==>
              AllShownAcross(old(db.State()), db.State(), InstancesUnder(old(db.State()), cv, old(db.versions)[ver].typeId), res.value.value)
  {
    hide Planned, ResetCatalogs, Substituted, Roomy, TooMany, InstancesUnder, ApplyVersionStep, VersionStepAllowed,
         UniqueAttributeNames, BetweenVersions, MayEdit, PinsType, AllShownAcross,
         AllDrafts;
    step := MovePin(pin, ver, {}, map[]);
    var checked := CheckPin(db, cv, pin, ver, role);
    if checked.Fail? {
      return Err(checked.error), step;
    }
    ghost var d := db.State();
    RepinnableMeans(d, cv, pin, ver, role);
    RepinnableStage(d, cv, pin, ver, role);
    var from := db.pins[pin].versionId;
    if from == ver {
      MoveNothing(d, cv, pin, ver, role);
      if !dryRun {
        db.pins := db.pins[pin := Pin(cv, ver)];
        ResetDependentCatalogs(db, cv);
      }
      return Ok(None), step;
    }
    var report, plan := BuildMigrationReport(db, from, ver, cv, db.versions[from].typeId);
    if report.Err? {
      assert Planned(d, from, ver, plan) && !CanMigrate(d, pin, ver, dryRun, plan);
      return Err(report.error), step;
    }
    var g, insts := report.value.0, report.value.1;
    PlanIsBetweenVersions(d, from, ver, g);
    if dryRun {
      return Ok(Some(g)), step;
    }
    step := MovePin(pin, ver, insts, g.mapping);
    var remapped := RemapInTransaction(db, insts, g.mapping);
    if remapped.Fail? {
      return Err(Integrity), step;
    }
    MoveIsStep(d, cv, pin, ver, role, insts, g.mapping);
    db.pins := db.pins[pin := Pin(cv, ver)];
    ResetDependentCatalogs(db, cv);
    MapIsInjective(g.mapping);
    MigrationShows(d, db.State(), from, ver, insts, g);
    return Ok(Some(g)), step;
  }

  /** The remap inside the transaction: all of it, or nothing. */
  method RemapInTransaction(db: Store, insts: set<Id>, m: map<Id, Id>) returns (out: Outcome)
    requires BetweenVersions(m)
    modifies db`values
    ensures out.Pass? <==> Roomy(old(db.values), insts, m)
    ensures db.values == if out.Pass? then Substituted(old(db.values), insts, m) else old(db.values)
  {
    hide Roomy, Substituted, RemapInOrder, Restrict, Total;
    var before := db.values;
    if |insts| > 0 && |m| > 0 {
      var res, order := RemapAttributeIds(db, insts, m);
      InOrderIsAtOnce(before, insts, m, order);
      if res.Err? {
        db.values := before;
        RoomyWhole(before, insts, m, Members(order));
        return Fail(res.error);
      }
      RestrictWhole(m, Members(order));
    } else {
      NobodyMoves(before, insts, m);
    }
    return Pass;
  }

  lemma RestrictWhole(m: map<Id, Id>, keys: set<Id>)
    requires m.Keys <= keys
    ensures Restrict(m, keys) == m
  {
  }

  lemma RoomyWhole(values: Rows, insts: set<Id>, m: map<Id, Id>, keys: set<Id>)
    ensures Roomy(values, insts, m) ==> Roomy(values, insts, Restrict(m, keys))
  {
    forall k | Roomy(values, insts, m) && k in Affected(values, insts, Restrict(m, keys))
      ensures Migration.Renamed(insts, Restrict(m, keys), k) !in values
    {
      assert k in Affected(values, insts, m);
    }
  }

  lemma NobodyMoves(values: Rows, insts: set<Id>, m: map<Id, Id>)
    requires Injective(m) && (insts == {} || m == map[])
    ensures Roomy(values, insts, m) && Substituted(values, insts, m) == values
  {
    hide Substituted, Inverse, Injective;
    forall k: RowKey
      ensures k in Substituted(values, insts, m) <==> k in values
      ensures k in values ==> Substituted(values, insts, m)[k] == values[k]
    {
      SubstitutedAt(values, insts, m, k);
    }
  }

  lemma MoveIsStep(d: Db, cv: Id, pin: Id, ver: Id, role: Role, insts: set<Id>, m: map<Id, Id>)
    requires Repinnable(d, cv, pin, ver, role) && BetweenVersions(m) && Roomy(d.values, insts, m)
    requires insts <= InstancesUnder(d, cv, d.versions[ver].typeId)
    ensures VersionStepAllowed(d, MovePin(pin, ver, insts, m))
    ensures ApplyVersionStep(d, MovePin(pin, ver, insts, m)) ==
            d.(pins := d.pins[pin := Pin(cv, ver)], values := Substituted(d.values, insts, m),
               catalogs := ResetCatalogs(d.catalogs, cv))
  {
    hide Roomy, Substituted, Injective, InstancesUnder, ResetCatalogs;
  }

  lemma MoveNothing(d: Db, cv: Id, pin: Id, ver: Id, role: Role)
    requires Repinnable(d, cv, pin, ver, role)
    ensures VersionStepAllowed(d, MovePin(pin, ver, {}, map[]))
    ensures ApplyVersionStep(d, MovePin(pin, ver, {}, map[])) ==
            d.(pins := d.pins[pin := Pin(cv, ver)], catalogs := ResetCatalogs(d.catalogs, cv))
  {
    hide Roomy, Substituted, InstancesUnder, ResetCatalogs, VersionStepAllowed, ApplyVersionStep;
    NobodyMoves(d.values, {}, map[]);
    MoveIsStep(d, cv, pin, ver, role, {}, map[]);
  }
}
