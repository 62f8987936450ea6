/** The first pass of an import over the entity types of its file: each is found or created, and
    pinned to the catalog version. */
module SchemaTypes {
  import opened Domain
  import opened Database
  import opened Conformance
  import opened DataSteps
  import opened Instances
  import opened SchemaHistory
  import opened CopyOnWrite
  import opened AttributeCalls
  import opened TypeCalls
  import opened ExportTree
  import opened ImportNodes
  import opened SchemaExport
  import opened SchemaMatch

  // ---- what the phase adds ----

  ghost predicate Extends<V>(m: map<Id, V>, n: map<Id, V>, from: Id) {
    && (forall k :: k in m ==> k in n && n[k] == m[k])
    && forall k :: k in n && k !in m ==> k >= from
  }

  /** More rows in the tables of the schema and of catalog versions, under new ids; what was there
      is as it was. */
  ghost predicate SchemaAdded(d: Db, e: Db) {
    && d.nextId <= e.nextId && e.catalogs == d.catalogs && e.instances == d.instances && e.values == d.values
    && e.links == d.links && e.log == d.log && e.typeDefs == d.typeDefs && e.resources == d.resources
    && Extends(d.versionSets, e.versionSets, d.nextId) && Extends(d.pins, e.pins, d.nextId) && Extends(d.types, e.types, d.nextId)
    && Extends(d.versions, e.versions, d.nextId) && Extends(d.attributes, e.attributes, d.nextId)
    && Extends(d.associations, e.associations, d.nextId)
  }

  /** Old types have no new versions, and what is new is held by new versions. */
  ghost predicate OldIsFrozen(d: Db, e: Db) {
    && (forall v :: v in e.versions && v !in d.versions ==> e.versions[v].typeId >= d.nextId)
    && (forall a :: a in e.attributes && a !in d.attributes ==>
          e.attributes[a].versionId >= d.nextId && e.attributes[a].versionId in e.versions)
    && forall s :: s in e.associations && s !in d.associations ==>
         e.associations[s].versionId >= d.nextId && e.associations[s].versionId in e.versions
  }

  lemma AddedOnceMore(d: Db, v: Db, e: Db)
    requires SchemaAdded(d, v) && SchemaAdded(v, e)
    ensures SchemaAdded(d, e)
    ensures OldIsFrozen(d, v) && OldIsFrozen(v, e) ==> OldIsFrozen(d, e)
  {
  }

  lemma NothingAdded(d: Db)
    ensures SchemaAdded(d, d) && OldIsFrozen(d, d)
  {
  }

  /** What an import needs of the tables, and keeps. */
  ghost predicate Sound(d: Db) {
    Indexed(d) && UniqueTypeNames(d) && UniqueNumbers(d)
  }

  /** The unique index on entity type and version number. */
  ghost predicate UniqueNumbers(d: Db) {
    forall v, w :: v in d.versions && w in d.versions && SameNumber(d.versions[v], d.versions[w]) ==> v == w
  }

  lemma OneLatest(d: Db, typeId: Id, v: Id, w: Id)
    requires UniqueNumbers(d) && IsLatest(d, typeId, v) && IsLatest(d, typeId, w)
    ensures v == w
  {
    assert SameNumber(d.versions[v], d.versions[w]);
  }

  ghost predicate Named(e: Db, g: Target, n: string) {
    && n in g.typeIds && n in g.versionIds && g.typeIds[n] in e.types && e.types[g.typeIds[n]] == n
    && IsLatest(e, g.typeIds[n], g.versionIds[n])
  }

  /** What the phase hands over so far: named types with their latest versions, and a table of
      all their associations by name. */
  ghost predicate Settled(e: Db, g: Target) {
    && g.typeIds.Keys == g.versionIds.Keys && (forall n :: n in g.typeIds ==> Named(e, g, n))
    && (forall n :: n in g.associations ==> InTable(e, g, n))
    && forall s {:trigger Holder(e, g, s)} :: Holder(e, g, s) ==> e.associations[s].name in g.associations
  }

  ghost predicate InTable(e: Db, g: Target, n: string)
    requires n in g.associations
  {
    Holder(e, g, g.associations[n]) && e.associations[g.associations[n]].name == n
  }

  /** An association of one of the versions. */
  ghost predicate Holder(e: Db, g: Target, s: Id) {
    s in e.associations && e.associations[s].versionId in g.versionIds.Values
  }

  lemma SettledIsSound(e: Db, g: Target)
    requires Settled(e, g)
    ensures TargetSound(g)
  {
    forall m, n | m in g.typeIds && n in g.typeIds && g.typeIds[m] == g.typeIds[n]
      ensures m == n
    {
      assert Named(e, g, m) && Named(e, g, n);
    }
  }

  lemma SoundIsFresh(d: Db)
    requires Sound(d)
    ensures FreshSchema(d)
  {
    hide UniqueAttributeNames, UniqueAssociationNames, UniqueTypeNames, UniqueNumbers;
  }

  lemma SettledKeys(e: Db, g: Target)
    requires Settled(e, g)
    ensures g.typeIds.Keys == g.versionIds.Keys
  {
  }

  lemma VersionIsOld(d: Db, g: Target, n: string)
    requires FreshSchema(d) && Settled(d, g) && n in g.versionIds
    ensures g.versionIds[n] < d.nextId && n in g.typeIds
  {
    assert Named(d, g, n);
  }

  // ---- creating a type ----

  function NewAttribute(ver: Id, x: ExportAttribute, def: Id): Attribute {
    Attribute(ver, x.name, x.description, def, x.ordinal, x.required)
  }

  ghost predicate AttributesCreated(m: map<Id, Attribute>, n: map<Id, Attribute>, ver: Id, first: Id, out: seq<ExportAttribute>,
                                    tds: map<string, Id>) {
    && (forall x :: 0 <= x < |out| ==> out[x].typeDefinition in tds) && AttributeNamesDiffer(out)
    && (forall a :: a in n <==> a in m || first <= a < first + |out|)
    && (forall a :: a in m && a < first ==> n[a] == m[a])
    && forall x :: 0 <= x < |out| && out[x].typeDefinition in tds ==> n[first + x] == NewAttribute(ver, out[x], tds[out[x].typeDefinition])
  }

  /** An unknown type definition or a name twice fails it. */
  method CreateAttributes(db: Store, ver: Id, out: seq<ExportAttribute>, tds: map<string, Id>) returns (res: Outcome)
    requires forall a :: a in db.attributes ==> a < db.nextId && db.attributes[a].versionId != ver
    modifies db`attributes, db`nextId
    ensures res.Pass? ==>
              AttributesCreated(old(db.attributes), db.attributes, ver, old(db.nextId), out, tds) && db.nextId == old(db.nextId) + |out|
    ensures res.Fail? ==> !AttributeNamesDiffer(out) || exists x :: 0 <= x < |out| && out[x].typeDefinition !in tds
  {
    ghost var m, first := db.attributes, db.nextId;
    for k := 0 to |out|
      invariant db.nextId == first + k && AttributesCreated(m, db.attributes, ver, first, out[..k], tds)
    {
      if out[k].typeDefinition !in tds {
        return Fail(Rejected);
      }
      if a :| a in db.attributes && db.attributes[a].versionId == ver && db.attributes[a].name == out[k].name {
        NameIsTwice(m, db.attributes, ver, first, out, tds, k, a);
        return Fail(Conflict);
      }
      NextAttribute(m, db.attributes, ver, first, out, tds, k);
      db.attributes := db.attributes[db.nextId := NewAttribute(ver, out[k], tds[out[k].typeDefinition])];
      db.nextId := db.nextId + 1;
    }
    assert out[..|out|] == out;
    return Pass;
  }

  lemma NameIsTwice(m: map<Id, Attribute>, n: map<Id, Attribute>, ver: Id, first: Id, out: seq<ExportAttribute>, tds: map<string, Id>,
                    k: nat, a: Id)
    requires k < |out| && AttributesCreated(m, n, ver, first, out[..k], tds) && forall b :: b in m ==> b < first && m[b].versionId != ver
    requires a in n && n[a].versionId == ver && n[a].name == out[k].name
    ensures !AttributeNamesDiffer(out)
  {
    assert first <= a < first + k;
    assert out[..k][a - first] == out[a - first];
  }

  lemma NextAttribute(m: map<Id, Attribute>, n: map<Id, Attribute>, ver: Id, first: Id, out: seq<ExportAttribute>,
                      tds: map<string, Id>, k: nat)
    requires k < |out| && AttributesCreated(m, n, ver, first, out[..k], tds) && forall b :: b in m ==> b < first && m[b].versionId != ver
    requires out[k].typeDefinition in tds
    requires forall a :: a in n && n[a].versionId == ver ==> n[a].name != out[k].name
    ensures AttributesCreated(m, n[first + k := NewAttribute(ver, out[k], tds[out[k].typeDefinition])], ver, first, out[..k + 1], tds)
  {
    var some, more := out[..k], out[..k + 1];
    assert more == some + [out[k]];
    forall x | 0 <= x < k
      ensures some[x].name != out[k].name
    {
      assert n[first + x] == NewAttribute(ver, some[x], tds[some[x].typeDefinition]);
    }
  }

  ghost predicate TypeCreated(d: Db, e: Db, t: ExportType, tds: map<string, Id>) {
    && e == d.(types := d.types[d.nextId := t.name],
               versions := d.versions[d.nextId + 1 := TypeVersion(d.nextId, 1, t.description)],
               attributes := e.attributes, nextId := d.nextId + 2 + |t.attributes|)
    && AttributesCreated(d.attributes, e.attributes, d.nextId + 1, d.nextId + 2, t.attributes, tds)
  }

  ghost predicate TdsNamed(tds: map<string, Id>, defs: DefNames) {
    forall n :: n in tds ==> tds[n] in defs && defs[tds[n]] == n
  }

  lemma CreatedIsSound(d: Db, e: Db, t: ExportType, tds: map<string, Id>)
    requires Sound(d) && TypeCreated(d, e, t, tds) && !TypeNamed(d, t.name)
    ensures Sound(e) && SchemaAdded(d, e) && OldIsFrozen(d, e)
  {
    hide UniqueAssociationNames, UniqueAttributeNames, AttributesCreated, FreshSchema, UniqueTypeNames, SchemaAdded,
         OldIsFrozen, TypeNamed, AttributeNamesDiffer, UniqueNumbers;
    AttributesFresh(d);
    CreatedKeepsNames(d.attributes, e.attributes, d.nextId + 1, d.nextId + 2, t.attributes, tds);
    CreatedExtends(d.attributes, e.attributes, d.nextId + 1, d.nextId + 2, t.attributes, tds);
    CreatedIsFresh(d, e, t);
    CreatedKeepsNumbers(d, e, t);
    CreatedIsAdded(d, e, t);
  }

  lemma AttributesFresh(d: Db)
    requires FreshSchema(d)
    ensures forall a :: a in d.attributes ==> a < d.nextId && d.attributes[a].versionId < d.nextId
  {
  }

  /** What a created type changes, its attributes aside. */
  ghost predicate TypeRows(d: Db, e: Db, t: ExportType) {
    && e == d.(types := d.types[d.nextId := t.name],
               versions := d.versions[d.nextId + 1 := TypeVersion(d.nextId, 1, t.description)],
               attributes := e.attributes, nextId := d.nextId + 2 + |t.attributes|)
    && forall a :: a in e.attributes && a !in d.attributes ==>
         e.attributes[a].versionId == d.nextId + 1 && d.nextId + 2 <= a < e.nextId
  }

  lemma CreatedIsFresh(d: Db, e: Db, t: ExportType)
    requires FreshSchema(d) && UniqueTypeNames(d) && TypeRows(d, e, t) && !TypeNamed(d, t.name)
    requires forall a :: a in d.attributes ==> a in e.attributes && e.attributes[a] == d.attributes[a]
    ensures FreshSchema(e) && UniqueTypeNames(e)
  {
  }

  lemma CreatedKeepsNumbers(d: Db, e: Db, t: ExportType)
    requires FreshSchema(d) && UniqueNumbers(d) && TypeRows(d, e, t)
    ensures UniqueNumbers(e)
  {
    forall v, w | v in e.versions && w in e.versions && SameNumber(e.versions[v], e.versions[w])
      ensures v == w
    {
      if v in d.versions && w in d.versions {
        assert SameNumber(d.versions[v], d.versions[w]);
      }
    }
  }

  lemma CreatedIsAdded(d: Db, e: Db, t: ExportType)
    requires FreshSchema(d) && TypeRows(d, e, t) && Extends(d.attributes, e.attributes, d.nextId + 2)
    ensures SchemaAdded(d, e) && OldIsFrozen(d, e)
  {
  }

  lemma CreatedExtends(m: map<Id, Attribute>, n: map<Id, Attribute>, ver: Id, first: Id, out: seq<ExportAttribute>,
                       tds: map<string, Id>)
    requires AttributesCreated(m, n, ver, first, out, tds) && forall a :: a in m ==> a < first
    ensures Extends(m, n, first)
    ensures forall a :: a in n && a !in m ==> n[a].versionId == ver && first <= a < first + |out| && n[a].name == out[a - first].name
  {
    forall a | a in n && a !in m
      ensures first <= a < first + |out| && n[a].versionId == ver && n[a].name == out[a - first].name
    {
      var x := a - first;
      assert n[first + x] == NewAttribute(ver, out[x], tds[out[x].typeDefinition]);
    }
  }

  lemma CreatedKeepsNames(m: map<Id, Attribute>, n: map<Id, Attribute>, ver: Id, first: Id, out: seq<ExportAttribute>,
                          tds: map<string, Id>)
    requires UniqueAttributeNames(m) && AttributesCreated(m, n, ver, first, out, tds)
    requires forall a :: a in m ==> a < first && m[a].versionId != ver
    ensures UniqueAttributeNames(n)
  {
    CreatedExtends(m, n, ver, first, out, tds);
    forall a, b | a in n && b in n && SameSlot(n[a], n[b])
      ensures a == b
    {
      if a in m && b in m {
        assert SameSlot(m[a], m[b]);
      }
    }
  }

  lemma CreatedIsShown(d: Db, e: Db, t: ExportType, tds: map<string, Id>, defs: DefNames)
    requires FreshSchema(d) && TypeCreated(d, e, t, tds) && TdsNamed(tds, defs)
    ensures AttributesShown(e, defs, d.nextId + 1, t.attributes) && AssociationsIn(e, d.nextId + 1) == {}
    ensures IsLatest(e, d.nextId, d.nextId + 1) && d.nextId in e.types && e.types[d.nextId] == t.name
  {
    hide AttributesCreated, AttributesShown;
    CreatedAreShown(d, e, d.nextId + 1, d.nextId + 2, t.attributes, tds, defs);
  }

  lemma CreatedAreShown(d: Db, e: Db, ver: Id, first: Id, out: seq<ExportAttribute>, tds: map<string, Id>, defs: DefNames)
    requires AttributesCreated(d.attributes, e.attributes, ver, first, out, tds) && TdsNamed(tds, defs)
    requires forall a :: a in d.attributes ==> a < first && d.attributes[a].versionId != ver
    ensures AttributesShown(e, defs, ver, out)
  {
    CreatedExtends(d.attributes, e.attributes, ver, first, out, tds);
    var ids := seq(|out|, x requires 0 <= x < |out| => first + x);
    forall a
      ensures a in ids <==> a in AttributesIn(e, ver)
    {
      if a in AttributesIn(e, ver) {
        assert first <= a < first + |out| && ids[a - first] == a;
      }
      if a in ids {
        var x :| 0 <= x < |ids| && ids[x] == a;
        assert a in e.attributes && a !in d.attributes;
      }
    }
    forall x | 0 <= x < |out|
      ensures ShowsAttribute(e, defs, ids[x], out[x])
    {
      assert e.attributes[first + x] == NewAttribute(ver, out[x], tds[out[x].typeDefinition]);
    }
    assert Lists(AttributesIn(e, ver), ids);
  }

  /** A new entity type with its first version and the attributes of the file. */
  method CreateType(db: Store, t: ExportType, tds: map<string, Id>) returns (res: Outcome)
    requires Indexed(db.State())
    modifies db`types, db`versions, db`attributes, db`nextId
    ensures res.Pass? ==> TypeCreated(old(db.State()), db.State(), t, tds)
    ensures res.Fail? ==> !AttributeNamesDiffer(t.attributes) || exists x :: 0 <= x < |t.attributes| && t.attributes[x].typeDefinition !in tds
  {
    hide UniqueAttributeNames, UniqueAssociationNames, AttributesCreated, AttributeNamesDiffer;
    var typeId, ver := db.nextId, db.nextId + 1;
    db.types := db.types[typeId := t.name];
    db.versions := db.versions[ver := TypeVersion(typeId, 1, t.description)];
    db.nextId := ver + 1;
    res := CreateAttributes(db, ver, t.attributes, tds);
  }

  // ---- what stays of a version ----

  /** The version and what it holds are as they were. */
  ghost predicate VersionKept(d: Db, e: Db, ver: Id) {
    && ver in d.versions && ver in e.versions && e.versions[ver] == d.versions[ver]
    && (forall t :: t in d.types ==> t in e.types && e.types[t] == d.types[t])
    && AttributesIn(e, ver) == AttributesIn(d, ver) && AssociationsIn(e, ver) == AssociationsIn(d, ver)
    && (forall a :: a in AttributesIn(d, ver) ==> e.attributes[a] == d.attributes[a])
    && forall s :: s in AssociationsIn(d, ver) ==> e.associations[s] == d.associations[s]
  }

  lemma FrozenIsKept(d: Db, e: Db, ver: Id)
    requires FreshSchema(d) && SchemaAdded(d, e) && OldIsFrozen(d, e) && ver in d.versions
    ensures VersionKept(d, e, ver)
  {
  }

  lemma LatestStays(d: Db, e: Db, typeId: Id, ver: Id)
    requires FreshSchema(d) && SchemaAdded(d, e) && OldIsFrozen(d, e) && IsLatest(d, typeId, ver)
    ensures IsLatest(e, typeId, ver)
  {
    forall w | w in e.versions && e.versions[w].typeId == typeId
      ensures w in d.versions
    {
      assert d.versions[ver].typeId < d.nextId;
    }
  }

  lemma ShownStays(d: Db, e: Db, defs: DefNames, ver: Id, t: ExportType)
    requires VersionKept(d, e, ver)
    ensures AttributesShown(d, defs, ver, t.attributes) ==> AttributesShown(e, defs, ver, t.attributes)
    ensures AssociationsShown(d, ver, t.associations) ==> AssociationsShown(e, ver, t.associations)
    ensures Identical(d, defs, ver, t) ==> Identical(e, defs, ver, t)
  {
    if AttributesShown(d, defs, ver, t.attributes) {
      AttributesStayShown(d, e, defs, ver, t.attributes);
    }
    if AssociationsShown(d, ver, t.associations) {
      AssociationsStayShown(d, e, ver, t.associations);
    }
    if Identical(d, defs, ver, t) {
      IdenticalStays(d, e, defs, ver, t);
    }
  }

  lemma AttributesStayShown(d: Db, e: Db, defs: DefNames, ver: Id, out: seq<ExportAttribute>)
    requires VersionKept(d, e, ver) && AttributesShown(d, defs, ver, out)
    ensures AttributesShown(e, defs, ver, out)
  {
    var ids :| Lists(AttributesIn(d, ver), ids) && |ids| == |out|
               && forall x :: 0 <= x < |out| ==> ShowsAttribute(d, defs, ids[x], out[x]);
    forall x | 0 <= x < |out|
      ensures ShowsAttribute(e, defs, ids[x], out[x])
    {
      assert ids[x] in AttributesIn(d, ver) && ids[x] in AttributesIn(e, ver);
    }
    assert Lists(AttributesIn(e, ver), ids);
  }

  lemma AssociationsStayShown(d: Db, e: Db, ver: Id, out: seq<ExportAssociation>)
    requires VersionKept(d, e, ver) && AssociationsShown(d, ver, out)
    ensures AssociationsShown(e, ver, out)
  {
    var ids :| Lists(AssociationsIn(d, ver), ids) && |ids| == |out|
               && forall x :: 0 <= x < |out| ==> ShowsAssociation(d, ids[x], out[x]);
    forall x | 0 <= x < |out|
      ensures ShowsAssociation(e, ids[x], out[x])
    {
      assert ids[x] in AssociationsIn(d, ver) && ids[x] in AssociationsIn(e, ver);
    }
    assert Lists(AssociationsIn(e, ver), ids);
  }

  lemma IdenticalStays(d: Db, e: Db, defs: DefNames, ver: Id, t: ExportType)
    requires VersionKept(d, e, ver) && Identical(d, defs, ver, t)
    ensures Identical(e, defs, ver, t)
  {
    forall x | 0 <= x < |t.attributes|
      ensures HasAlike(e, defs, ver, t.attributes[x])
    {
      var a :| AttributeAlike(d, defs, ver, a, t.attributes[x]);
      assert a in AttributesIn(d, ver) && a in AttributesIn(e, ver);
      assert AttributeAlike(e, defs, ver, a, t.attributes[x]);
    }
    forall y | 0 <= y < |t.associations|
      ensures HasAlikeAssociation(e, ver, t.associations[y])
    {
      var s :| AssociationAlike(d, ver, s, t.associations[y]);
      assert s in AssociationsIn(d, ver) && s in AssociationsIn(e, ver);
      assert AssociationAlike(e, ver, s, t.associations[y]);
    }
  }

  // ---- one type ----

  /** How a type of the file stands: created with its attributes, and with its associations once
      they are "linked"; or reused as asked; or found identical. */
  ghost predicate Standing(e: Db, defs: DefNames, reuse: set<string>, g: Target, created: set<string>, t: ExportType, linked: bool) {
    && Named(e, g, t.name)
    && (t.name in created ==>
          && e.versions[g.versionIds[t.name]].version == 1 && e.versions[g.versionIds[t.name]].description == t.description
          && AttributesShown(e, defs, g.versionIds[t.name], t.attributes)
          && (if linked then AssociationsShown(e, g.versionIds[t.name], t.associations)
              else AssociationsIn(e, g.versionIds[t.name]) == {}))
    && (t.name !in created && t.name !in reuse ==> Identical(e, defs, g.versionIds[t.name], t))
  }

  lemma StandingStill(d: Db, e: Db, defs: DefNames, reuse: set<string>, g: Target, h: Target, created: set<string>, made: set<string>,
                      t: ExportType, linked: bool)
    requires Standing(d, defs, reuse, g, created, t, linked) && Named(e, h, t.name)
    requires h.typeIds[t.name] == g.typeIds[t.name] && h.versionIds[t.name] == g.versionIds[t.name]
    requires VersionKept(d, e, g.versionIds[t.name]) && (t.name in made <==> t.name in created)
    ensures Standing(e, defs, reuse, h, made, t, linked)
  {
    hide IsLatest, AttributesShown, AssociationsShown, Identical;
    ShownStays(d, e, defs, g.versionIds[t.name], t);
  }

  ghost predicate PinAdded(d: Db, e: Db, cv: Id, ver: Id) {
    && Pin(cv, ver) !in d.pins.Values
    && e == d.(pins := d.pins[d.nextId := Pin(cv, ver)], nextId := d.nextId + 1)
  }

  /** A version is pinned at most once to a catalog version. */
  method PinVersion(db: Store, cv: Id, ver: Id) returns (out: Outcome)
    modifies db`pins, db`nextId
    ensures out.Fail? <==> Pin(cv, ver) in old(db.pins).Values
    ensures out.Fail? ==> db.State() == old(db.State())
    ensures out.Pass? ==> PinAdded(old(db.State()), db.State(), cv, ver)
  {
    if p :| p in db.pins && db.pins[p] == Pin(cv, ver) {
      return Fail(Conflict);
    }
    db.pins := db.pins[db.nextId := Pin(cv, ver)];
    db.nextId := db.nextId + 1;
    return Pass;
  }

  lemma PinIsSound(d: Db, e: Db, cv: Id, ver: Id)
    requires Sound(d) && PinAdded(d, e, cv, ver) && cv < d.nextId
    ensures Sound(e) && SchemaAdded(d, e) && OldIsFrozen(d, e)
  {
    hide UniqueAttributeNames, UniqueAssociationNames, UniqueTypeNames, UniqueNumbers, FreshSchema, SchemaAdded, OldIsFrozen;
    SameTypesSameNames(d, e);
    PinIsFresh(d, e, cv, ver);
    PinIsAdded(d, e, cv, ver);
  }

  lemma PinIsFresh(d: Db, e: Db, cv: Id, ver: Id)
    requires FreshSchema(d) && PinAdded(d, e, cv, ver) && cv < d.nextId
    ensures FreshSchema(e)
  {
  }

  lemma PinIsAdded(d: Db, e: Db, cv: Id, ver: Id)
    requires FreshSchema(d) && PinAdded(d, e, cv, ver)
    ensures SchemaAdded(d, e) && OldIsFrozen(d, e)
  {
    hide FreshSchema;
    PinIdIsFree(d);
  }

  lemma PinIdIsFree(d: Db)
    requires FreshSchema(d)
    ensures d.nextId !in d.pins
  {
  }

  lemma SameTypesSameNames(d: Db, e: Db)
    requires UniqueTypeNames(d) && UniqueNumbers(d) && e.types == d.types && e.versions == d.versions
    ensures UniqueTypeNames(e) && UniqueNumbers(e)
  {
  }

  /** The associations of a version, entered in the table by name. */
  method EnterAssociations(db: Store, ver: Id, table: map<string, Id>) returns (out: map<string, Id>)
    requires UniqueAssociationNames(db.associations)
    ensures forall s :: s in AssociationsIn(db.State(), ver) ==> db.associations[s].name in out
    ensures forall n :: n in table ==> n in out
    ensures forall n :: n in out ==>
              (n in table && out[n] == table[n]) || (out[n] in AssociationsIn(db.State(), ver) && db.associations[out[n]].name == n)
  {
    out := table;
    var todo := set s | s in db.associations && db.associations[s].versionId == ver;
    while todo != {}
      invariant todo <= AssociationsIn(db.State(), ver)
      invariant forall s :: s in AssociationsIn(db.State(), ver) - todo ==> db.associations[s].name in out
      invariant forall n :: n in table ==> n in out
      invariant forall n :: n in out ==>
                  (n in table && out[n] == table[n]) || (out[n] in AssociationsIn(db.State(), ver) && db.associations[out[n]].name == n)
      decreases todo
    {
      var s :| s in todo;
      out := out[db.associations[s].name := s];
      todo := todo - {s};
    }
  }

  /** With one more type. */
  function WithType(g: Target, n: string, typeId: Id, ver: Id, table: map<string, Id>): Target {
    Target(g.typeIds[n := typeId], g.versionIds[n := ver], table)
  }

  /** The table after the associations of a version have been entered. */
  ghost predicate Entered(e: Db, ver: Id, table: map<string, Id>, out: map<string, Id>) {
    && (forall s :: s in AssociationsIn(e, ver) ==> e.associations[s].name in out)
    && (forall n :: n in table ==> n in out)
    && forall n :: n in out ==>
         (n in table && out[n] == table[n]) || (out[n] in AssociationsIn(e, ver) && e.associations[out[n]].name == n)
  }

  lemma SettledStill(d: Db, e: Db, g: Target, h: Target)
    requires Sound(d) && Settled(d, g) && SchemaAdded(d, e) && OldIsFrozen(d, e)
    requires h.typeIds == g.typeIds && h.versionIds == g.versionIds && h.associations == g.associations
    ensures Settled(e, h)
  {
    hide IsLatest, UniqueAttributeNames, UniqueAssociationNames, UniqueTypeNames;
    forall n | n in g.typeIds
      ensures Named(e, h, n)
    {
      assert Named(d, g, n);
      LatestStays(d, e, g.typeIds[n], g.versionIds[n]);
    }
    forall n | n in h.associations
      ensures InTable(e, h, n)
    {
      assert InTable(d, g, n);
    }
    forall n | n in g.versionIds
      ensures g.versionIds[n] in d.versions
    {
      assert Named(d, g, n);
      LatestExists(d, g.typeIds[n], g.versionIds[n]);
    }
    forall s | Holder(e, h, s)
      ensures e.associations[s].name in h.associations
    {
      HolderIsOld(d, e, g, s);
    }
  }

  lemma LatestExists(d: Db, typeId: Id, ver: Id)
    requires IsLatest(d, typeId, ver)
    ensures ver in d.versions && d.versions[ver].typeId == typeId
  {
  }

  lemma HolderIsOld(d: Db, e: Db, g: Target, s: Id)
    requires FreshSchema(d) && SchemaAdded(d, e) && OldIsFrozen(d, e) && Holder(e, g, s)
    requires forall n :: n in g.versionIds ==> g.versionIds[n] in d.versions
    ensures Holder(d, g, s) && e.associations[s] == d.associations[s]
  {
    var n :| n in g.versionIds && g.versionIds[n] == e.associations[s].versionId;
    assert g.versionIds[n] in d.versions;
  }

  lemma OneMoreSettled(e: Db, g: Target, n: string, typeId: Id, ver: Id, table: map<string, Id>)
    requires Settled(e, g) && typeId in e.types && e.types[typeId] == n && IsLatest(e, typeId, ver)
    requires Entered(e, ver, g.associations, table) && (n in g.versionIds ==> g.versionIds[n] == ver)
    ensures Settled(e, WithType(g, n, typeId, ver, table)) && Named(e, WithType(g, n, typeId, ver, table), n)
  {
    hide IsLatest;
    var h := WithType(g, n, typeId, ver, table);
    forall m | m in h.typeIds
      ensures Named(e, h, m)
    {
      if m != n {
        assert Named(e, g, m);
      }
    }
    forall s
      ensures Holder(e, h, s) <==> Holder(e, g, s) || s in AssociationsIn(e, ver)
    {
      HolderOfMore(e, g, n, typeId, ver, table, s);
    }
    forall m | m in h.associations
      ensures InTable(e, h, m)
    {
      if m in g.associations && table[m] == g.associations[m] {
        assert InTable(e, g, m);
      }
    }
  }

  lemma HolderOfMore(e: Db, g: Target, n: string, typeId: Id, ver: Id, table: map<string, Id>, s: Id)
    requires n in g.versionIds ==> g.versionIds[n] == ver
    ensures Holder(e, WithType(g, n, typeId, ver, table), s) <==> Holder(e, g, s) || s in AssociationsIn(e, ver)
  {
    var h := WithType(g, n, typeId, ver, table);
    assert h.versionIds[n] == ver;
    if Holder(e, g, s) {
      var m :| m in g.versionIds && g.versionIds[m] == e.associations[s].versionId;
      assert h.versionIds[m] == e.associations[s].versionId;
    }
    if Holder(e, h, s) {
      var m :| m in h.versionIds && h.versionIds[m] == e.associations[s].versionId;
      assert m != n ==> m in g.versionIds && g.versionIds[m] == e.associations[s].versionId;
    }
  }

  /** Tables have grown under new ids, old versions are frozen, and the types handed over so far
      are one more. */
  ghost predicate Step(d: Db, e: Db, g: Target, h: Target, n: string) {
    && SchemaAdded(d, e) && OldIsFrozen(d, e)
    && (forall i :: i in e.types && i !in d.types ==> e.types[i] == n)
    && h.typeIds.Keys == g.typeIds.Keys + {n} && h.versionIds.Keys == g.versionIds.Keys + {n}
    && (forall m :: m in g.typeIds ==> h.typeIds[m] == g.typeIds[m])
    && forall m :: m in g.versionIds ==> h.versionIds[m] == g.versionIds[m]
  }

  /** One more pin that was not there, or none. */
  ghost predicate PinsStep(m: map<Id, Pin>, n: map<Id, Pin>, pin: Pin, pinned: bool) {
    if pinned then
      && pin !in m.Values && pin in n.Values
      && (forall p :: p in m ==> p in n && n[p] == m[p]) && (forall p :: p in n && p !in m ==> n[p] == pin)
      && forall p, q :: p in n && q in n && p !in m && q !in m ==> p == q
    else n == m
  }

  lemma AddedIsStep(d: Db, e: Db, cv: Id, ver: Id)
    requires FreshSchema(d) && PinAdded(d, e, cv, ver)
    ensures PinsStep(d.pins, e.pins, Pin(cv, ver), true)
  {
    assert d.nextId !in d.pins && e.pins[d.nextId] == Pin(cv, ver);
  }

  /** The latest version is the type of the file. */
  ghost predicate SameAsLatest(d: Db, defs: DefNames, typeId: Id, t: ExportType) {
    forall ver :: IsLatest(d, typeId, ver) ==> Identical(d, defs, ver, t)
  }

  ghost predicate LatestUnpinned(d: Db, cv: Id, typeId: Id) {
    forall ver :: IsLatest(d, typeId, ver) ==> Pin(cv, ver) !in d.pins.Values
  }

  ghost predicate Adoptable(d: Db, defs: DefNames, typeId: Id, t: ExportType, asked: bool, cv: Id, pinAll: bool) {
    && HasVersions(d, typeId) && (asked || SameAsLatest(d, defs, typeId, t)) && (pinAll ==> LatestUnpinned(d, cv, typeId))
  }

  /** The type that has the name is taken with its latest version: as asked, or when identical. */
  method AdoptType(db: Store, typeId: Id, t: ExportType, asked: bool, cv: Id, pinAll: bool, defs: DefNames, g: Target)
    returns (out: Outcome, h: Target)
    requires Sound(db.State()) && Settled(db.State(), g) && typeId in db.types && db.types[typeId] == t.name && cv < db.nextId
    modifies db`pins, db`nextId
    ensures out.Pass? ==>
              && Sound(db.State()) && Settled(db.State(), h) && Step(old(db.State()), db.State(), g, h, t.name)
              && Named(db.State(), h, t.name) && (asked || Identical(db.State(), defs, h.versionIds[t.name], t))
              && PinsStep(old(db.pins), db.pins, Pin(cv, h.versionIds[t.name]), pinAll)
    ensures Adoptable(old(db.State()), defs, typeId, t, asked, cv, pinAll) ==> out.Pass?
  {
    hide Settled, SchemaAdded, OldIsFrozen, IsLatest, Identical, PinsStep, FreshSchema, UniqueAttributeNames,
         UniqueTypeNames, UniqueNumbers, PinAdded, UniqueAssociationNames;
    ghost var d := db.State();
    h := g;
    var latest := GetLatest(db, typeId);
    if latest.Err? {
      return Fail(NotFound), h;
    }
    var ver := latest.value;
    if !asked {
      var same := IsIdentical(db, defs, ver, t);
      if !same {
        return Fail(Conflict), h;
      }
    }
    NothingAdded(d);
    if pinAll {
      out := PinVersion(db, cv, ver);
      if out.Fail? {
        return;
      }
      PinIsSound(d, db.State(), cv, ver);
      AddedIsStep(d, db.State(), cv, ver);
    } else {
      NoPinStep(db.pins, Pin(cv, ver));
    }
    var table := EnterAssociations(db, ver, g.associations);
    h := WithType(g, t.name, typeId, ver, table);
    AdoptedIsSettled(d, db.State(), g, t, defs, typeId, ver, table);
    out := Pass;
  }

  lemma NoPinStep(m: map<Id, Pin>, pin: Pin)
    ensures PinsStep(m, m, pin, false)
  {
  }

  lemma AdoptedIsSettled(d: Db, e: Db, g: Target, t: ExportType, defs: DefNames, typeId: Id, ver: Id, table: map<string, Id>)
    requires Sound(d) && Sound(e) && Settled(d, g) && SchemaAdded(d, e) && OldIsFrozen(d, e) && e.types == d.types
    requires typeId in d.types && d.types[typeId] == t.name && IsLatest(d, typeId, ver) && Entered(e, ver, g.associations, table)
    ensures var h := WithType(g, t.name, typeId, ver, table);
            Settled(e, h) && Named(e, h, t.name) && Step(d, e, g, h, t.name)
    ensures Identical(d, defs, ver, t) ==> Identical(e, defs, ver, t)
  {
    hide SchemaAdded, OldIsFrozen, IsLatest, Identical, FreshSchema, UniqueAttributeNames, UniqueAssociationNames,
         Settled, Entered, UniqueNumbers;
    LatestStays(d, e, typeId, ver);
    SettledStill(d, e, g, g);
    TypesStay(d, e, typeId);
    SameAsBefore(d, g, t.name, typeId, ver);
    OneMoreSettled(e, g, t.name, typeId, ver, table);
    LatestExists(d, typeId, ver);
    FrozenIsKept(d, e, ver);
    ShownStays(d, e, defs, ver, t);
  }

  lemma TypesStay(d: Db, e: Db, typeId: Id)
    requires SchemaAdded(d, e) && typeId in d.types
    ensures typeId in e.types && e.types[typeId] == d.types[typeId]
  {
  }

  lemma SameAsBefore(d: Db, g: Target, n: string, typeId: Id, ver: Id)
    requires Sound(d) && Settled(d, g) && typeId in d.types && d.types[typeId] == n && IsLatest(d, typeId, ver)
    ensures g.versionIds.Keys == g.typeIds.Keys
    ensures n in g.typeIds ==> g.typeIds[n] == typeId && g.versionIds[n] == ver
  {
    hide FreshSchema, UniqueAttributeNames, UniqueAssociationNames, UniqueNumbers, IsLatest;
    if n in g.typeIds {
      assert Named(d, g, n);
      OneLatest(d, typeId, g.versionIds[n], ver);
    }
  }

  /** The type definitions are known and the attributes told apart. */
  ghost predicate TypeCreatable(t: ExportType, tds: map<string, Id>) {
    AttributeNamesDiffer(t.attributes) && forall x :: 0 <= x < |t.attributes| ==> t.attributes[x].typeDefinition in tds
  }

  /** The type is created with its attributes, and always pinned. */
  method AddType(db: Store, t: ExportType, cv: Id, tds: map<string, Id>, defs: DefNames, g: Target)
    returns (out: Outcome, h: Target)
    requires Sound(db.State()) && Settled(db.State(), g) && !TypeNamed(db.State(), t.name) && cv < db.nextId && TdsNamed(tds, defs)
    modifies db`types, db`versions, db`attributes, db`pins, db`nextId
    ensures out.Pass? ==>
              && Sound(db.State()) && Settled(db.State(), h) && Step(old(db.State()), db.State(), g, h, t.name)
              && Standing(db.State(), defs, {}, h, {t.name}, t, false) && h.versionIds[t.name] >= old(db.nextId)
              && (forall v :: v in db.versions && v !in old(db.versions) ==> v == h.versionIds[t.name])
              && PinsStep(old(db.pins), db.pins, Pin(cv, h.versionIds[t.name]), true)
    ensures TypeCreatable(t, tds) && Pin(cv, old(db.nextId) + 1) !in old(db.pins).Values ==> out.Pass?
  {
    hide Settled, SchemaAdded, OldIsFrozen, IsLatest, PinsStep, FreshSchema, UniqueAttributeNames, UniqueTypeNames,
         UniqueNumbers, PinAdded, UniqueAssociationNames, TypeCreated, TdsNamed, Standing, TypeNamed;
    ghost var d := db.State();
    h := g;
    var typeId, ver := db.nextId, db.nextId + 1;
    out := CreateType(db, t, tds);
    if out.Fail? {
      return;
    }
    ghost var v := db.State();
    CreatedIsSound(d, v, t, tds);
    CreatedCounts(d, v, t, tds);
    out := PinVersion(db, cv, ver);
    if out.Fail? {
      return;
    }
    PinIsSound(v, db.State(), cv, ver);
    AddedIsStep(v, db.State(), cv, ver);
    h := WithType(g, t.name, typeId, ver, g.associations);
    CreatedIsSettled(d, v, db.State(), g, t, tds, defs, cv);
  }

  lemma CreatedCounts(d: Db, e: Db, t: ExportType, tds: map<string, Id>)
    requires TypeCreated(d, e, t, tds)
    ensures d.nextId + 1 < e.nextId && e.pins == d.pins
    ensures forall v :: v in e.versions && v !in d.versions ==> v == d.nextId + 1
  {
  }

  lemma CreatedIsSettled(d: Db, v: Db, e: Db, g: Target, t: ExportType, tds: map<string, Id>, defs: DefNames, cv: Id)
    requires Sound(d) && Sound(v) && Sound(e) && Settled(d, g) && !TypeNamed(d, t.name) && TdsNamed(tds, defs)
    requires TypeCreated(d, v, t, tds) && SchemaAdded(d, v) && OldIsFrozen(d, v)
    requires PinAdded(v, e, cv, d.nextId + 1) && SchemaAdded(v, e) && OldIsFrozen(v, e)
    ensures var h := WithType(g, t.name, d.nextId, d.nextId + 1, g.associations);
            && Settled(e, h) && Step(d, e, g, h, t.name) && Standing(e, defs, {}, h, {t.name}, t, false)
  {
    hide SchemaAdded, OldIsFrozen, FreshSchema, UniqueAttributeNames, UniqueAssociationNames, Settled, Entered,
         UniqueNumbers, UniqueTypeNames, IsLatest, AttributesShown, AttributesCreated, TdsNamed;
    var typeId, ver := d.nextId, d.nextId + 1;
    var h := WithType(g, t.name, typeId, ver, g.associations);
    AddedOnceMore(d, v, e);
    CreatedIsShown(d, v, t, tds, defs);
    LatestStays(v, e, typeId, ver);
    SettledStill(d, e, g, g);
    FrozenIsKept(v, e, ver);
    ShownStays(v, e, defs, ver, t);
    EmptyIsEntered(e, ver, g.associations);
    FreeNameIsNew(d, g, t.name);
    OneMoreSettled(e, g, t.name, typeId, ver, g.associations);
  }

  lemma EmptyIsEntered(e: Db, ver: Id, table: map<string, Id>)
    requires AssociationsIn(e, ver) == {}
    ensures Entered(e, ver, table, table)
  {
  }

  lemma FreeNameIsNew(d: Db, g: Target, n: string)
    requires Settled(d, g) && !TypeNamed(d, n)
    ensures n !in g.typeIds && n !in g.versionIds && g.typeIds.Keys == g.versionIds.Keys
  {
    hide IsLatest;
    assert n in g.typeIds ==> Named(d, g, n);
  }

  ghost predicate Processed(d: Db, e: Db, defs: DefNames, reuse: set<string>, cv: Id, pinAll: bool, g: Target, h: Target,
                            created: set<string>, made: set<string>, t: ExportType) {
    && Sound(e) && Settled(e, h) && Step(d, e, g, h, t.name)
    && made == (if TypeNamed(d, t.name) then created else created + {t.name})
    && t.name in h.versionIds && PinsStep(d.pins, e.pins, Pin(cv, h.versionIds[t.name]), pinAll || !TypeNamed(d, t.name))
    && (!TypeNamed(d, t.name) ==> h.versionIds[t.name] >= d.nextId)
    && (forall v :: v in e.versions && v !in d.versions ==> !TypeNamed(d, t.name) && v == h.versionIds[t.name])
    && (t.name !in created ==> Standing(e, defs, reuse, h, made, t, false))
  }

  /** A type that exists has a version, and is to be reused or identical; any other can be created. */
  ghost predicate TypeFits(d: Db, defs: DefNames, tds: map<string, Id>, reuse: set<string>, t: ExportType) {
    if TypeNamed(d, t.name) then
      forall i :: i in d.types && d.types[i] == t.name ==> HasVersions(d, i) && (t.name in reuse || SameAsLatest(d, defs, i, t))
    else t.name !in reuse && TypeCreatable(t, tds)
  }

  ghost predicate PinFree(d: Db, cv: Id, pinAll: bool, t: ExportType) {
    && (pinAll ==> forall i :: i in d.types && d.types[i] == t.name ==> LatestUnpinned(d, cv, i))
    && Pin(cv, d.nextId + 1) !in d.pins.Values
  }

  /** A type to be reused must exist; one that exists must be identical; any other is created. */
  method FindOrCreate(db: Store, t: ExportType, reuse: set<string>, cv: Id, pinAll: bool, tds: map<string, Id>, defs: DefNames,
                      g: Target, created: set<string>)
    returns (out: Outcome, h: Target, made: set<string>)
    requires Sound(db.State()) && Settled(db.State(), g) && cv < db.nextId && TdsNamed(tds, defs)
    modifies db`types, db`versions, db`attributes, db`pins, db`nextId
    ensures out.Pass? ==> Processed(old(db.State()), db.State(), defs, reuse, cv, pinAll, g, h, created, made, t)
    ensures TypeFits(old(db.State()), defs, tds, reuse, t) && PinFree(old(db.State()), cv, pinAll, t) ==> out.Pass?
  {
    hide Settled, Sound, Step, PinsStep, TdsNamed, Standing, Named, Identical, SameAsLatest, LatestUnpinned, HasVersions,
         TypeCreatable;
    ghost var d := db.State();
    made := created;
    var found := FindType(db.types, t.name);
    if found.None? {
      if t.name in reuse {
        return Fail(NotFound), g, made;
      }
      out, h := AddType(db, t, cv, tds, defs, g);
      made := created + {t.name};
      if out.Pass? {
        AddedStands(db.State(), defs, reuse, h, made, t);
      }
      return;
    }
    assert TypeNamed(d, t.name);
    out, h := AdoptType(db, found.value, t, t.name in reuse, cv, pinAll, defs, g);
    if out.Pass? {
      AdoptedStands(db.State(), defs, reuse, h, made, t);
    }
  }

  lemma AddedStands(e: Db, defs: DefNames, reuse: set<string>, h: Target, made: set<string>, t: ExportType)
    requires Standing(e, defs, {}, h, {t.name}, t, false) && t.name in made
    ensures Standing(e, defs, reuse, h, made, t, false) && t.name in h.versionIds
  {
    hide AttributesShown, Identical, IsLatest;
  }

  lemma AdoptedStands(e: Db, defs: DefNames, reuse: set<string>, h: Target, made: set<string>, t: ExportType)
    requires Named(e, h, t.name) && (t.name in reuse || Identical(e, defs, h.versionIds[t.name], t))
    ensures t.name in h.versionIds && (t.name !in made ==> Standing(e, defs, reuse, h, made, t, false))
  {
    hide AttributesShown, Identical, IsLatest;
  }

  // ---- all types ----

  /** No new pin says what another one does. */
  ghost predicate PinsOnce(m: map<Id, Pin>, n: map<Id, Pin>) {
    forall p, q :: p in n && q in n && p !in m && n[p] == n[q] ==> p == q
  }

  /** The new pins are of the versions handed over: of all of them, or of new ones only. */
  ghost predicate PinsDone(m: map<Id, Pin>, n: map<Id, Pin>, cv: Id, pinAll: bool, from: Id, g: Target) {
    && (forall p :: p in m ==> p in n && n[p] == m[p])
    && (forall p :: p in n && p !in m ==> n[p].cvId == cv && n[p].versionId in g.versionIds.Values) && PinsOnce(m, n)
    && (forall t :: t in g.versionIds && (pinAll || g.versionIds[t] >= from) ==> Pin(cv, g.versionIds[t]) in n.Values)
    && (!pinAll ==> forall p :: p in n && p !in m ==> n[p].versionId >= from)
  }

  ghost predicate NameOf(types: seq<ExportType>, n: string) {
    exists j :: 0 <= j < |types| && types[j].name == n
  }

  /** When no two types have one name, each stands. */
  ghost predicate AllStand(e: Db, defs: DefNames, reuse: set<string>, g: Target, created: set<string>, types: seq<ExportType>) {
    TypeNamesDiffer(types) ==> forall j :: 0 <= j < |types| ==> Standing(e, defs, reuse, g, created, types[j], false)
  }

  /** The types handed over are those of the file, and every new type is one of them. */
  ghost predicate NamesDone(d: Db, e: Db, g: Target, created: set<string>, types: seq<ExportType>) {
    && (forall n :: n in created <==> n in g.typeIds && !TypeNamed(d, n))
    && (forall n :: n in g.typeIds <==> NameOf(types, n))
    && (forall i :: i in e.types && i !in d.types ==> e.types[i] in g.typeIds)
    && forall v :: v in e.versions && v !in d.versions ==> OfCreated(g, created, v)
  }

  ghost predicate OfCreated(g: Target, created: set<string>, ver: Id) {
    exists n :: n in created && n in g.versionIds && g.versionIds[n] == ver
  }

  ghost predicate TypesDone(d: Db, e: Db, defs: DefNames, reuse: set<string>, cv: Id, pinAll: bool, g: Target, created: set<string>,
                            types: seq<ExportType>) {
    && Sound(e) && Settled(e, g) && SchemaAdded(d, e) && OldIsFrozen(d, e)
    && NamesDone(d, e, g, created, types) && AllStand(e, defs, reuse, g, created, types)
    && PinsDone(d.pins, e.pins, cv, pinAll, d.nextId, g) && (pinAll ==> TypeNamesDiffer(types))
  }

  lemma NothingDone(d: Db, defs: DefNames, reuse: set<string>, cv: Id, pinAll: bool)
    requires Sound(d)
    ensures TypesDone(d, d, defs, reuse, cv, pinAll, Target(map[], map[], map[]), {}, [])
  {
    hide Sound;
    var g := Target(map[], map[], map[]);
    NothingAdded(d);
    assert Settled(d, g) by {
      assert g.versionIds.Values == {};
    }
  }

  lemma NextPinsOnce(m: map<Id, Pin>, n: map<Id, Pin>, o: map<Id, Pin>, pin: Pin, pinned: bool)
    requires PinsOnce(m, n) && PinsStep(n, o, pin, pinned) && forall p :: p in m ==> p in n && n[p] == m[p]
    ensures PinsOnce(m, o)
  {
    assert pinned ==> forall p :: p in n ==> n[p] != pin;
  }

  lemma NextPinsDone(m: map<Id, Pin>, n: map<Id, Pin>, o: map<Id, Pin>, cv: Id, pinAll: bool, from: Id, pinned: bool,
                     g: Target, h: Target, t: string)
    requires PinsDone(m, n, cv, pinAll, from, g) && t in h.versionIds && PinsStep(n, o, Pin(cv, h.versionIds[t]), pinned)
    requires h.versionIds.Keys == g.versionIds.Keys + {t} && (forall u :: u in g.versionIds ==> h.versionIds[u] == g.versionIds[u])
    requires (pinAll ==> pinned) && (pinned && !pinAll ==> h.versionIds[t] >= from)
    requires !pinned ==> t in g.versionIds || h.versionIds[t] < from
    ensures PinsDone(m, o, cv, pinAll, from, h)
  {
    NextPinsOnce(m, n, o, Pin(cv, h.versionIds[t]), pinned);
    forall p | p in o && p !in m
      ensures o[p].cvId == cv && o[p].versionId in h.versionIds.Values
    {
      if p in n {
        var u :| u in g.versionIds && g.versionIds[u] == n[p].versionId;
        assert u in h.versionIds && h.versionIds[u] == o[p].versionId;
      }
    }
    forall u | u in h.versionIds && (pinAll || h.versionIds[u] >= from)
      ensures Pin(cv, h.versionIds[u]) in o.Values
    {
      if u in g.versionIds {
        var p :| p in n && n[p] == Pin(cv, g.versionIds[u]);
        assert p in o && o[p] == n[p];
      }
    }
  }

  lemma AddedCountsUp(d: Db, v: Db)
    requires SchemaAdded(d, v)
    ensures d.nextId <= v.nextId
  {
  }

  lemma NamedStays(d: Db, v: Db, n: string)
    requires SchemaAdded(d, v)
    ensures TypeNamed(d, n) ==> TypeNamed(v, n)
  {
  }

  /** The pins with one type more, and what they tell of its name. */
  lemma PinsWithType(d: Db, v: Db, e: Db, cv: Id, pinAll: bool, g: Target, h: Target, created: set<string>,
                     types: seq<ExportType>, t: ExportType)
    requires Sound(d) && Sound(e) && Settled(v, g) && Settled(e, h) && SchemaAdded(d, v) && OldIsFrozen(d, v)
    requires Step(v, e, g, h, t.name) && NamesDone(d, v, g, created, types) && t.name in h.versionIds
    requires PinsDone(d.pins, v.pins, cv, pinAll, d.nextId, g) && (pinAll ==> TypeNamesDiffer(types))
    requires PinsStep(v.pins, e.pins, Pin(cv, h.versionIds[t.name]), pinAll || !TypeNamed(v, t.name))
    requires !TypeNamed(v, t.name) ==> h.versionIds[t.name] >= v.nextId
    ensures PinsDone(d.pins, e.pins, cv, pinAll, d.nextId, h) && (pinAll ==> TypeNamesDiffer(types + [t]))
  {
    hide Sound, Settled, SchemaAdded, OldIsFrozen, PinsDone, PinsStep, TypeNamed, NamesDone;
    AddedOnceMore(d, v, e);
    AddedCountsUp(d, v);
    SettledKeys(v, g);
    SettledKeys(e, h);
    if TypeNamed(v, t.name) {
      NewTypesGiven(d, v, g, created, types);
      NamedBefore(d, v, g, t.name);
      OldVersionOrGiven(d, e, g, h, t.name);
    }
    NextPinsDone(d.pins, v.pins, e.pins, cv, pinAll, d.nextId, pinAll || !TypeNamed(v, t.name), g, h, t.name);
    if pinAll {
      PinnedOnce(d.pins, v.pins, e.pins, cv, d.nextId, g, h, t.name);
      StillDiffer(d, v, g, created, types, t);
    }
  }

  lemma NextTypeDone(d: Db, v: Db, e: Db, defs: DefNames, reuse: set<string>, cv: Id, pinAll: bool, g: Target, h: Target,
                     created: set<string>, made: set<string>, types: seq<ExportType>, t: ExportType)
    requires Sound(d) && TypesDone(d, v, defs, reuse, cv, pinAll, g, created, types)
    requires Processed(v, e, defs, reuse, cv, pinAll, g, h, created, made, t)
    ensures TypesDone(d, e, defs, reuse, cv, pinAll, h, made, types + [t])
  {
    hide Sound, Settled, SchemaAdded, OldIsFrozen, PinsDone, PinsStep, Standing, TypeNamed, NamesDone, AllStand, TypeNamesDiffer;
    AddedOnceMore(d, v, e);
    AddedCountsUp(d, v);
    PinsWithType(d, v, e, cv, pinAll, g, h, created, types, t);
    NextNames(d, v, e, g, h, created, made, types, t);
    AllStanding(v, e, defs, reuse, g, h, created, made, types, t);
  }

  lemma NewTypesGiven(d: Db, v: Db, g: Target, created: set<string>, types: seq<ExportType>)
    requires NamesDone(d, v, g, created, types)
    ensures forall i :: i in v.types && i !in d.types ==> v.types[i] in g.typeIds
  {
  }

  /** A type that was there before the import is handed over with a version that was there. */
  lemma OldVersionOrGiven(d: Db, e: Db, g: Target, h: Target, n: string)
    requires Sound(d) && Sound(e) && SchemaAdded(d, e) && OldIsFrozen(d, e) && Settled(e, h) && n in h.typeIds
    requires (TypeNamed(d, n) || n in g.typeIds) && g.typeIds.Keys == g.versionIds.Keys
    ensures n in h.versionIds && (n in g.versionIds || h.versionIds[n] < d.nextId)
  {
    hide UniqueAttributeNames, UniqueAssociationNames, UniqueNumbers;
    assert Named(e, h, n);
    if TypeNamed(d, n) {
      var i :| i in d.types && d.types[i] == n;
      assert e.types[i] == n && i == h.typeIds[n];
    }
  }

  /** What all of them are pinned for is not there twice. */
  lemma PinnedOnce(m: map<Id, Pin>, n: map<Id, Pin>, o: map<Id, Pin>, cv: Id, from: Id, g: Target, h: Target, t: string)
    requires PinsDone(m, n, cv, true, from, g) && t in h.versionIds && PinsStep(n, o, Pin(cv, h.versionIds[t]), true)
    requires forall u :: u in g.versionIds ==> u in h.versionIds && h.versionIds[u] == g.versionIds[u]
    ensures t !in g.versionIds
  {
  }

  lemma StillDiffer(d: Db, v: Db, g: Target, created: set<string>, types: seq<ExportType>, t: ExportType)
    requires NamesDone(d, v, g, created, types) && TypeNamesDiffer(types) && t.name !in g.typeIds
    ensures TypeNamesDiffer(types + [t])
  {
    assert !NameOf(types, t.name);
  }

  /** A name that only a new type has is one of those handed over. */
  lemma NamedBefore(d: Db, v: Db, g: Target, n: string)
    requires SchemaAdded(d, v) && forall i :: i in v.types && i !in d.types ==> v.types[i] in g.typeIds
    ensures TypeNamed(v, n) && !TypeNamed(d, n) ==> n in g.typeIds
  {
    if i :| i in v.types && v.types[i] == n {
      assert i in d.types ==> d.types[i] == n;
    }
  }

  lemma NewVersionsOfCreated(d: Db, v: Db, e: Db, g: Target, h: Target, created: set<string>, made: set<string>, n: string)
    requires Step(v, e, g, h, n) && made == (if TypeNamed(v, n) then created else created + {n})
    requires forall x :: x in v.versions && x !in d.versions ==> OfCreated(g, created, x)
    requires forall x :: x in e.versions && x !in v.versions ==> !TypeNamed(v, n) && n in h.versionIds && x == h.versionIds[n]
    ensures forall x :: x in e.versions && x !in d.versions ==> OfCreated(h, made, x)
  {
    hide TypeNamed, SchemaAdded, OldIsFrozen;
    forall x | x in e.versions && x !in d.versions
      ensures OfCreated(h, made, x)
    {
      if x in v.versions {
        var m :| m in created && m in g.versionIds && g.versionIds[m] == x;
        assert m in made && h.versionIds[m] == x;
      }
    }
  }

  lemma NextNames(d: Db, v: Db, e: Db, g: Target, h: Target, created: set<string>, made: set<string>, types: seq<ExportType>,
                  t: ExportType)
    requires SchemaAdded(d, v) && Step(v, e, g, h, t.name) && NamesDone(d, v, g, created, types)
    requires made == (if TypeNamed(v, t.name) then created else created + {t.name})
    requires forall x :: x in e.versions && x !in v.versions ==> !TypeNamed(v, t.name) && t.name in h.versionIds && x == h.versionIds[t.name]
    ensures NamesDone(d, e, h, made, types + [t])
    ensures forall n :: n in created ==> NameOf(types, n)
  {
    hide TypeNamed, NameOf, OldIsFrozen, OfCreated;
    NewVersionsOfCreated(d, v, e, g, h, created, made, t.name);
    NamedStays(d, v, t.name);
    NamedBefore(d, v, g, t.name);
    forall n
      ensures NameOf(types + [t], n) <==> NameOf(types, n) || n == t.name
    {
      NamesOfMore(types, t, n);
    }
  }

  lemma AllStanding(d: Db, e: Db, defs: DefNames, reuse: set<string>, g: Target, h: Target, created: set<string>, made: set<string>,
                    types: seq<ExportType>, t: ExportType)
    requires Sound(d) && Settled(e, h) && Step(d, e, g, h, t.name) && (made == created || made == created + {t.name})
    requires AllStand(d, defs, reuse, g, created, types) && (forall n :: n in created ==> NameOf(types, n))
    requires t.name !in created ==> Standing(e, defs, reuse, h, made, t, false)
    ensures AllStand(e, defs, reuse, h, made, types + [t])
  {
    hide Sound, Settled, Step, Standing, NameOf;
    if TypeNamesDiffer(types + [t]) {
      FreshName(types, t);
      forall j | 0 <= j < |types + [t]|
        ensures Standing(e, defs, reuse, h, made, (types + [t])[j], false)
      {
        if j < |types| {
          StandingAfter(d, e, defs, reuse, g, h, created, made, types[j], t.name);
        }
      }
    }
  }

  lemma FreshName(types: seq<ExportType>, t: ExportType)
    requires TypeNamesDiffer(types + [t])
    ensures !NameOf(types, t.name) && TypeNamesDiffer(types) && forall j :: 0 <= j < |types| ==> types[j].name != t.name
  {
    var more := types + [t];
    assert forall x :: 0 <= x < |types| ==> types[x] == more[x];
    forall j | 0 <= j < |types|
      ensures types[j].name != t.name
    {
      assert more[j].name != more[|types|].name;
    }
  }

  lemma NamesOfMore(types: seq<ExportType>, t: ExportType, n: string)
    ensures NameOf(types + [t], n) <==> NameOf(types, n) || n == t.name
  {
    if NameOf(types, n) {
      var j :| 0 <= j < |types| && types[j].name == n;
      assert (types + [t])[j] == types[j];
    }
    assert (types + [t])[|types|] == t;
  }

  lemma StandingAfter(d: Db, e: Db, defs: DefNames, reuse: set<string>, g: Target, h: Target, created: set<string>, made: set<string>,
                      t: ExportType, n: string)
    requires Sound(d) && Settled(e, h) && Step(d, e, g, h, n) && t.name != n && (made == created || made == created + {n})
    requires Standing(d, defs, reuse, g, created, t, false)
    ensures Standing(e, defs, reuse, h, made, t, false)
  {
    hide IsLatest, AttributesShown, AssociationsShown, Identical, FreshSchema, UniqueAttributeNames, UniqueAssociationNames,
         UniqueTypeNames, UniqueNumbers, SchemaAdded, OldIsFrozen, VersionKept;
    assert Named(e, h, t.name);
    LatestExists(d, g.typeIds[t.name], g.versionIds[t.name]);
    FrozenIsKept(d, e, g.versionIds[t.name]);
    StandingStill(d, e, defs, reuse, g, h, created, made, t, false);
  }

  ghost predicate TypesFit(d: Db, defs: DefNames, tds: map<string, Id>, reuse: set<string>, types: seq<ExportType>) {
    TypeNamesDiffer(types) && forall x :: 0 <= x < |types| ==> TypeFits(d, defs, tds, reuse, types[x])
  }

  ghost predicate NoPins(d: Db, cv: Id) {
    forall p :: p in d.pins ==> d.pins[p].cvId != cv
  }

  /** A catalog version whose types are all to be pinned has no pins yet; one that is reused pins
      ids that have been handed out. */
  ghost predicate PinsOpen(d: Db, cv: Id, pinAll: bool) {
    if pinAll then NoPins(d, cv) else forall p :: p in d.pins && d.pins[p].cvId == cv ==> d.pins[p].versionId < d.nextId
  }

  /** What fits at the start still fits when its turn comes. */
  lemma NextFits(d: Db, v: Db, defs: DefNames, tds: map<string, Id>, reuse: set<string>, cv: Id, pinAll: bool, g: Target,
                 created: set<string>, types: seq<ExportType>, k: nat)
    requires Sound(d) && TypesFit(d, defs, tds, reuse, types) && PinsOpen(d, cv, pinAll) && k < |types|
    requires TypesDone(d, v, defs, reuse, cv, pinAll, g, created, types[..k])
    ensures TypeFits(v, defs, tds, reuse, types[k]) && PinFree(v, cv, pinAll, types[k])
  {
    hide Sound, Settled, SchemaAdded, OldIsFrozen, PinsDone, AllStand, TypeFits, PinFree, PinsOpen, TypeNamed;
    var t := types[k];
    assert !NameOf(types[..k], t.name) by {
      assert forall j :: 0 <= j < k ==> types[..k][j] == types[j];
    }
    AddedCountsUp(d, v);
    OldTypesOnly(d, v, g, t.name);
    FitsStill(d, v, defs, tds, reuse, t);
    PinsStillFree(d, v, cv, pinAll, g, t);
  }

  /** No new type has the name. */
  lemma OldTypesOnly(d: Db, v: Db, g: Target, n: string)
    requires SchemaAdded(d, v) && n !in g.typeIds && forall i :: i in v.types && i !in d.types ==> v.types[i] in g.typeIds
    ensures TypeNamed(v, n) <==> TypeNamed(d, n)
    ensures forall i :: i in v.types && v.types[i] == n <==> i in d.types && d.types[i] == n
  {
    forall i | i in d.types
      ensures i in v.types && v.types[i] == d.types[i]
    {
    }
  }

  lemma FitsStill(d: Db, v: Db, defs: DefNames, tds: map<string, Id>, reuse: set<string>, t: ExportType)
    requires Sound(d) && Sound(v) && SchemaAdded(d, v) && OldIsFrozen(d, v) && TypeFits(d, defs, tds, reuse, t)
    requires TypeNamed(v, t.name) <==> TypeNamed(d, t.name)
    requires forall i :: i in v.types && v.types[i] == t.name <==> i in d.types && d.types[i] == t.name
    ensures TypeFits(v, defs, tds, reuse, t)
  {
    hide Sound, SchemaAdded, OldIsFrozen, TypeNamed, TypeCreatable, SameAsLatest, HasVersions;
    forall i | i in d.types && d.types[i] == t.name && HasVersions(d, i)
      ensures HasVersions(v, i) && (SameAsLatest(d, defs, i, t) ==> SameAsLatest(v, defs, i, t))
    {
      LatestFits(d, v, defs, i, t);
    }
  }

  lemma LatestFits(d: Db, v: Db, defs: DefNames, i: Id, t: ExportType)
    requires Sound(d) && Sound(v) && SchemaAdded(d, v) && OldIsFrozen(d, v) && i in d.types && HasVersions(d, i)
    ensures HasVersions(v, i) && (SameAsLatest(d, defs, i, t) ==> SameAsLatest(v, defs, i, t))
  {
    hide Sound, Identical;
    SoundIsFresh(d);
    var w :| w in d.versions && d.versions[w].typeId == i;
    assert w in v.versions && v.versions[w].typeId == i;
    forall ver | IsLatest(v, i, ver)
      ensures IsLatest(d, i, ver) && (Identical(d, defs, ver, t) ==> Identical(v, defs, ver, t))
    {
      LatestWas(d, v, i, ver);
      FrozenIsKept(d, v, ver);
      ShownStays(d, v, defs, ver, t);
    }
  }

  lemma LatestWas(d: Db, v: Db, typeId: Id, ver: Id)
    requires FreshSchema(d) && SchemaAdded(d, v) && OldIsFrozen(d, v) && HasVersions(d, typeId) && IsLatest(v, typeId, ver)
    ensures IsLatest(d, typeId, ver)
  {
    var w :| w in d.versions && d.versions[w].typeId == typeId;
    assert typeId < d.nextId;
    assert ver in d.versions;
  }

  lemma PinsStillFree(d: Db, v: Db, cv: Id, pinAll: bool, g: Target, t: ExportType)
    requires Sound(v) && Settled(v, g) && PinsOpen(d, cv, pinAll) && PinsDone(d.pins, v.pins, cv, pinAll, d.nextId, g)
    requires d.nextId <= v.nextId && t.name !in g.typeIds
    ensures PinFree(v, cv, pinAll, t)
  {
    hide Sound;
    SoundIsFresh(v);
    forall ver: Id | Pin(cv, ver) in v.pins.Values
      ensures ver < v.nextId
      ensures pinAll ==> exists n :: n in g.typeIds && Named(v, g, n) && g.versionIds[n] == ver
    {
      var p :| p in v.pins && v.pins[p] == Pin(cv, ver);
      if p !in d.pins {
        var n :| n in g.versionIds && g.versionIds[n] == ver;
        assert Named(v, g, n);
        VersionIsOld(v, g, n);
      }
    }
    forall i, ver | pinAll && i in v.types && v.types[i] == t.name && IsLatest(v, i, ver)
      ensures Pin(cv, ver) !in v.pins.Values
    {
    }
  }

  method FindOrCreateAll(db: Store, types: seq<ExportType>, reuse: set<string>, cv: Id, pinAll: bool, tds: map<string, Id>,
                         defs: DefNames)
    returns (out: Outcome, g: Target, created: set<string>)
    requires Sound(db.State()) && cv < db.nextId && TdsNamed(tds, defs)
    modifies db`types, db`versions, db`attributes, db`pins, db`nextId
    ensures out.Pass? ==> TypesDone(old(db.State()), db.State(), defs, reuse, cv, pinAll, g, created, types)
    ensures TypesFit(old(db.State()), defs, tds, reuse, types) && PinsOpen(old(db.State()), cv, pinAll) ==> out.Pass?
  {
    hide Sound, Settled, SchemaAdded, OldIsFrozen, TypesDone, Processed, TdsNamed, TypeFits, PinFree, PinsOpen;
    ghost var d := db.State();
    out, g, created := Pass, Target(map[], map[], map[]), {};
    NothingDone(d, defs, reuse, cv, pinAll);
    assert types[..0] == [];
    for k := 0 to |types|
      invariant out.Pass? && cv < db.nextId
      invariant TypesDone(d, db.State(), defs, reuse, cv, pinAll, g, created, types[..k])
    {
      ghost var v := db.State();
      DoneIsSound(d, v, defs, reuse, cv, pinAll, g, created, types[..k]);
      if TypesFit(d, defs, tds, reuse, types) && PinsOpen(d, cv, pinAll) {
        NextFits(d, v, defs, tds, reuse, cv, pinAll, g, created, types, k);
      }
      var h, made;
      out, h, made := FindOrCreate(db, types[k], reuse, cv, pinAll, tds, defs, g, created);
      if out.Fail? {
        return;
      }
      NextTypeDone(d, v, db.State(), defs, reuse, cv, pinAll, g, h, created, made, types[..k], types[k]);
      assert types[..k + 1] == types[..k] + [types[k]];
      g, created := h, made;
      DoneIsSound(d, db.State(), defs, reuse, cv, pinAll, g, created, types[..k + 1]);
    }
    assert types[..|types|] == types;
  }

  lemma DoneIsSound(d: Db, e: Db, defs: DefNames, reuse: set<string>, cv: Id, pinAll: bool, g: Target, created: set<string>,
                    types: seq<ExportType>)
    requires TypesDone(d, e, defs, reuse, cv, pinAll, g, created, types)
    ensures Sound(e) && Settled(e, g) && d.nextId <= e.nextId
  {
    hide Sound, Settled;
  }
}
