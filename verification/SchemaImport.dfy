/** The schema phase of an import: the catalog version and the entity types of a file, found or
    created in one transaction. Type definitions have been found or created before. */
module SchemaImport {
  import opened Domain
  import opened Database
  import opened Conformance
  import opened DataSteps
  import opened Instances
  import opened SchemaHistory
  import opened CopyOnWrite
  import opened AttributeCalls
  import opened TypeCalls
  import opened CatalogVersionCalls
  import opened ExportTree
  import opened ImportNodes
  import opened RoundTrip
  import opened SchemaExport
  import opened SchemaMatch
  import opened SchemaTypes
  import opened SchemaLinks

  /** Every type of the file that exists is pinned, in whatever version. */
  ghost predicate Covers(d: Db, cv: Id, types: seq<ExportType>) {
    forall x, i :: 0 <= x < |types| && i in d.types && d.types[i] == types[x].name ==> TypePinned(d, cv, i)
  }

  predicate Labelled(d: Db, cv: Id, text: string) {
    cv in d.versionSets && d.versionSets[cv].versionLabel == text
  }

  /** There is a version of that label, and it covers the file. */
  ghost predicate LabelCovers(d: Db, types: seq<ExportType>, text: string) {
    LabelTaken(d, text) && forall cv {:trigger Labelled(d, cv, text)} :: Labelled(d, cv, text) ==> Covers(d, cv, types)
  }

  /** The unique index on labels. */
  ghost predicate OneLabelled(d: Db, text: string) {
    forall a, b {:trigger Labelled(d, a, text), Labelled(d, b, text)} :: Labelled(d, a, text) && Labelled(d, b, text) ==> a == b
  }

  /** The catalog version: the one of that label, when it is to be reused and covers the file; or
      a new one, in development, when the label is free. */
  ghost predicate VersionReady(d: Db, e: Db, types: seq<ExportType>, reuse: set<string>, text: string, cv: Id) {
    if text in reuse then e == d && Labelled(d, cv, text) && Covers(d, cv, types)
    else
      && !LabelTaken(d, text) && cv == d.nextId
      && e == d.(versionSets := d.versionSets[cv := CatalogVersion(text, Development)], nextId := cv + 1)
  }

  method PrepareVersion(db: Store, types: seq<ExportType>, reuse: set<string>, text: string) returns (res: Result<Id>)
    requires UniqueTypeNames(db.State())
    modifies db`versionSets, db`nextId
    ensures res.Ok? ==> VersionReady(old(db.State()), db.State(), types, reuse, text, res.value)
    ensures text !in reuse ==> (res.Ok? <==> !LabelTaken(old(db.State()), text))
    ensures text in reuse && LabelCovers(old(db.State()), types, text) ==> res.Ok?
    ensures text in reuse && OneLabelled(old(db.State()), text) ==> (res.Ok? <==> LabelCovers(old(db.State()), types, text))
    ensures res.Err? ==> db.State() == old(db.State())
  {
    if text !in reuse {
      if c :| c in db.versionSets && db.versionSets[c].versionLabel == text {
        return Err(Conflict);
      }
      var cv := db.nextId;
      db.versionSets := db.versionSets[cv := CatalogVersion(text, Development)];
      db.nextId := cv + 1;
      return Ok(cv);
    }
    var cv: Id := 0;
    if c :| c in db.versionSets && db.versionSets[c].versionLabel == text {
      cv := c;
    } else {
      return Err(NotFound);
    }
    assert Labelled(db.State(), cv, text);
    for k := 0 to |types|
      invariant db.State() == old(db.State())
      invariant forall x, i :: 0 <= x < k && i in db.types && db.types[i] == types[x].name ==> TypePinned(db.State(), cv, i)
    {
      var found := FindType(db.types, types[k].name);
      if found.Some? {
        if p :| p in db.pins && db.pins[p].cvId == cv && db.pins[p].versionId in db.versions && db.versions[db.pins[p].versionId].typeId == found.value {
          assert db.pins[p] == Pin(cv, db.pins[p].versionId);
          assert PinnedVersion(db.State(), cv, db.pins[p].versionId);
        } else {
          return Err(Rejected);
        }
      }
    }
    return Ok(cv);
  }

  lemma ReadyIsSound(d: Db, e: Db, types: seq<ExportType>, reuse: set<string>, text: string, cv: Id)
    requires Sound(d) && VersionReady(d, e, types, reuse, text, cv)
    ensures Sound(e) && SchemaAdded(d, e) && OldIsFrozen(d, e) && e.pins == d.pins && e.types == d.types && e.versions == d.versions
    ensures cv in e.versionSets && e.versionSets[cv].versionLabel == text && cv < e.nextId
  {
    hide Sound, SchemaAdded, OldIsFrozen, Covers, LabelTaken;
    VersionsFresh(d);
    if text in reuse {
      NothingAdded(d);
    } else {
      NewVersionIsAdded(d, e, CatalogVersion(text, Development));
    }
  }

  lemma VersionsFresh(d: Db)
    requires Sound(d)
    ensures forall c :: c in d.versionSets ==> c < d.nextId
  {
    hide UniqueAttributeNames, UniqueAssociationNames, UniqueTypeNames, UniqueNumbers;
  }

  lemma NewVersionIsAdded(d: Db, e: Db, row: CatalogVersion)
    requires Sound(d) && e == d.(versionSets := d.versionSets[d.nextId := row], nextId := d.nextId + 1)
    ensures Sound(e) && SchemaAdded(d, e) && OldIsFrozen(d, e)
  {
    hide UniqueAttributeNames, UniqueAssociationNames, UniqueTypeNames, UniqueNumbers;
    VersionsFresh(d);
    SameTypesSameNames(d, e);
  }

  /** What a schema phase that succeeds has done: every type of the file stands, under its name,
      in a version pinned to the catalog version, and no version that was there has changed. */
  ghost predicate SchemaImported(d: Db, e: Db, defs: DefNames, types: seq<ExportType>, reuse: set<string>, text: string, cv: Id,
                                 g: Target, created: set<string>) {
    && Sound(e) && Settled(e, g) && SchemaAdded(d, e) && OldIsFrozen(d, e)
    && (forall n :: n in g.typeIds <==> NameOf(types, n)) && (forall n :: n in created <==> n in g.typeIds && !TypeNamed(d, n))
    && (forall i :: i in e.types && i !in d.types ==> e.types[i] in g.typeIds)
    && (forall v :: v in e.versions && v !in d.versions ==> OfCreated(g, created, v))
    && AllLinked(e, defs, reuse, g, created, types, |types|)
    && (if text in reuse then Labelled(d, cv, text) && Covers(d, cv, types) && e.versionSets == d.versionSets
        else
          && cv >= d.nextId && !LabelTaken(d, text) && TypeNamesDiffer(types)
          && e.versionSets == d.versionSets[cv := CatalogVersion(text, Development)])
    && PinsDone(d.pins, e.pins, cv, text !in reuse, d.nextId, g)
  }

  lemma CreatedIsNew(d: Db, e: Db, g: Target, n: string)
    requires FreshSchema(d) && SchemaAdded(d, e) && Named(e, g, n) && !TypeNamed(d, n)
    ensures g.versionIds[n] >= d.nextId
  {
  }

  lemma OnlyIsAdded(d: Db, v: Db, e: Db, g: Target, created: set<string>)
    requires FreshSchema(d) && SchemaAdded(d, v) && OldIsFrozen(d, v) && Settled(v, g) && OnlyAssociations(v, e, g, created)
    requires forall n :: n in created ==> n in g.typeIds && !TypeNamed(d, n)
    ensures SchemaAdded(d, e) && OldIsFrozen(d, e)
  {
    hide TypeNamed, FreshSchema, IsLatest;
    forall s | s in e.associations && s !in v.associations
      ensures e.associations[s].versionId >= d.nextId && e.associations[s].versionId in e.versions
    {
      var n :| n in created && n in g.versionIds && g.versionIds[n] == e.associations[s].versionId;
      assert Named(v, g, n);
      LatestExists(v, g.typeIds[n], g.versionIds[n]);
      CreatedIsNew(d, v, g, n);
    }
  }

  lemma SchemaPut(d: Db, c: Db, v: Db, e: Db, defs: DefNames, types: seq<ExportType>, reuse: set<string>, text: string, cv: Id,
                  g: Target, h: Target, created: set<string>)
    requires Sound(d) && VersionReady(d, c, types, reuse, text, cv)
    requires TypesDone(c, v, defs, reuse, cv, text !in reuse, g, created, types)
    requires LinksDone(v, e, defs, reuse, g, h, created, types, |types|) && v.versionSets == c.versionSets
    ensures SchemaImported(d, e, defs, types, reuse, text, cv, h, created)
  {
    hide Sound, Settled, SchemaAdded, OldIsFrozen, PinsDone, AllLinked, AllStand, OnlyAssociations, Covers, LabelTaken, NameOf,
         TypeNamed;
    ReadyIsSound(d, c, types, reuse, text, cv);
    AddedOnceMore(d, c, v);
    NamesAsBefore(d, c);
    SoundIsFresh(d);
    OnlyIsAdded(d, v, e, g, created);
    OnlyKeepsPins(v, e, g, created);
    VersionStays(c, v, cv);
    AddedCountsUp(d, c);
    SamePins(d.pins, e.pins, cv, text !in reuse, c.nextId, d.nextId, g, h);
  }

  lemma NamesAsBefore(d: Db, c: Db)
    requires c.types == d.types
    ensures forall n :: TypeNamed(c, n) <==> TypeNamed(d, n)
  {
  }

  lemma OnlyKeepsPins(d: Db, e: Db, g: Target, created: set<string>)
    requires OnlyAssociations(d, e, g, created)
    ensures e.pins == d.pins && e.versionSets == d.versionSets && e.versions == d.versions && e.types == d.types
  {
  }

  lemma VersionStays(d: Db, e: Db, cv: Id)
    requires SchemaAdded(d, e) && cv in d.versionSets
    ensures cv in e.versionSets && e.versionSets[cv] == d.versionSets[cv]
  {
  }

  lemma SamePins(m: map<Id, Pin>, n: map<Id, Pin>, cv: Id, pinAll: bool, from: Id, low: Id, g: Target, h: Target)
    requires PinsDone(m, n, cv, pinAll, from, g) && h.versionIds == g.versionIds && low <= from && (pinAll || low == from)
    ensures PinsDone(m, n, cv, pinAll, low, h)
  {
  }

  /** A new label that is free, or one to be reused that covers the file; every type that exists
      has a version, and is to be reused or identical; every other can be created, with
      associations among the types of the file. */
  ghost predicate FileFits(d: Db, defs: DefNames, tds: map<string, Id>, reuse: set<string>, text: string, types: seq<ExportType>) {
    && (if text in reuse then LabelCovers(d, types, text) && PinsKnown(d) else !LabelTaken(d, text))
    && TypesFit(d, defs, tds, reuse, types)
    && forall x :: 0 <= x < |types| && !TypeNamed(d, types[x].name) ==> NamesKnown(types[x].associations, types)
  }

  ghost predicate NamesKnown(out: seq<ExportAssociation>, types: seq<ExportType>) {
    AssociationNamesDiffer(out) && forall y :: 0 <= y < |out| ==> NameOf(types, out[y].target)
  }

  lemma LabelFits(d: Db, defs: DefNames, tds: map<string, Id>, reuse: set<string>, text: string, types: seq<ExportType>)
    ensures FileFits(d, defs, tds, reuse, text, types) ==>
              if text in reuse then LabelCovers(d, types, text) else !LabelTaken(d, text)
  {
  }

  lemma ReadyFits(d: Db, c: Db, defs: DefNames, tds: map<string, Id>, reuse: set<string>, text: string, types: seq<ExportType>, cv: Id)
    requires Sound(d) && VersionReady(d, c, types, reuse, text, cv)
    ensures FileFits(d, defs, tds, reuse, text, types) ==> TypesFit(c, defs, tds, reuse, types) && PinsOpen(c, cv, text !in reuse)
  {
    hide Sound, Covers, LabelTaken, TypeFits, NamesKnown, TypeNamed;
    ReadyIsSound(d, c, types, reuse, text, cv);
    NamesAsBefore(d, c);
    if FileFits(d, defs, tds, reuse, text, types) {
      SoundIsFresh(d);
      forall x | 0 <= x < |types|
        ensures TypeFits(c, defs, tds, reuse, types[x])
      {
        FitsStill(d, c, defs, tds, reuse, types[x]);
      }
    }
  }

  lemma LinksWillFit(d: Db, c: Db, v: Db, defs: DefNames, tds: map<string, Id>, reuse: set<string>, text: string,
                     types: seq<ExportType>, cv: Id, g: Target, created: set<string>)
    requires Sound(d) && VersionReady(d, c, types, reuse, text, cv) && FileFits(d, defs, tds, reuse, text, types)
    requires TypesDone(c, v, defs, reuse, cv, text !in reuse, g, created, types)
    ensures LinksFit(g, created, types)
  {
    hide Sound, Covers, LabelTaken, TypeFits, TypeNamed, NameOf, AssociationNamesDiffer, Settled, SchemaAdded, OldIsFrozen, AllStand,
         PinsDone;
    ReadyIsSound(d, c, types, reuse, text, cv);
    NamesAsBefore(d, c);
    forall x | 0 <= x < |types| && types[x].name in created
      ensures TargetsKnown(types[x].associations, g.typeIds)
    {
      assert NamesKnown(types[x].associations, types);
    }
  }

  method WriteSchema(db: Store, types: seq<ExportType>, reuse: set<string>, text: string, tds: map<string, Id>, defs: DefNames)
    returns (res: Result<(Id, Target)>, ghost created: set<string>)
    requires Sound(db.State()) && TdsNamed(tds, defs)
    modifies db`types, db`versions, db`attributes, db`associations, db`pins, db`versionSets, db`nextId
    ensures res.Ok? ==>
              SchemaImported(old(db.State()), db.State(), defs, types, reuse, text, res.value.0, res.value.1, created)
    ensures FileFits(old(db.State()), defs, tds, reuse, text, types) ==> res.Ok?
  {
    hide Sound, Settled, SchemaAdded, OldIsFrozen, TypesDone, LinksDone, TdsNamed, VersionReady, SchemaImported, AllStand, FileFits,
         TypesFit, PinsOpen, LinksFit, LabelTaken, LabelCovers;
    LabelFits(db.State(), defs, tds, reuse, text, types);
    ghost var d := db.State();
    created := {};
    NamesUnique(d);
    var version := PrepareVersion(db, types, reuse, text);
    if version.Err? {
      return Err(version.error), created;
    }
    ghost var c := db.State();
    ReadyIsSound(d, c, types, reuse, text, version.value);
    ReadyFits(d, c, defs, tds, reuse, text, types, version.value);
    var out, g, made := FindOrCreateAll(db, types, reuse, version.value, text !in reuse, tds, defs);
    if out.Fail? {
      return Err(out.error), created;
    }
    ghost var v := db.State();
    DoneParts(c, v, defs, reuse, version.value, text !in reuse, g, made, types);
    if FileFits(d, defs, tds, reuse, text, types) {
      LinksWillFit(d, c, v, defs, tds, reuse, text, types, version.value, g, made);
    }
    var linked, h := LinkCreated(db, types, g, made, defs, reuse);
    if linked.Fail? {
      return Err(linked.error), created;
    }
    SchemaPut(d, c, v, db.State(), defs, types, reuse, text, version.value, g, h, made);
    created := made;
    return Ok((version.value, h)), created;
  }

  lemma NamesUnique(d: Db)
    requires Sound(d)
    ensures UniqueTypeNames(d)
  {
    hide Indexed, UniqueTypeNames, UniqueNumbers;
  }

  /** The schema part of a file, found or created in one transaction. */
  method ImportSchema(db: Store, types: seq<ExportType>, reuse: set<string>, text: string, tds: map<string, Id>, defs: DefNames)
    returns (res: Result<(Id, Target)>, ghost created: set<string>)
    requires Sound(db.State()) && TdsNamed(tds, defs)
    modifies db`types, db`versions, db`attributes, db`associations, db`pins, db`versionSets, db`nextId
    ensures res.Err? ==> db.State() == old(db.State())
    ensures res.Ok? ==>
              SchemaImported(old(db.State()), db.State(), defs, types, reuse, text, res.value.0, res.value.1, created)
    ensures FileFits(old(db.State()), defs, tds, reuse, text, types) ==> res.Ok?
  {
    hide Sound, TdsNamed, SchemaImported, FileFits;
    var before := db.State();
    res, created := WriteSchema(db, types, reuse, text, tds, defs);
    if res.Err? {
      RollBack(db, before);
    }
  }

  method RollBack(db: Store, to: Db)
    requires db.catalogs == to.catalogs && db.instances == to.instances && db.values == to.values && db.links == to.links
    requires db.log == to.log && db.typeDefs == to.typeDefs && db.resources == to.resources
    modifies db`types, db`versions, db`attributes, db`associations, db`pins, db`versionSets, db`nextId
    ensures db.State() == to
  {
    db.types, db.versions, db.attributes, db.associations := to.types, to.versions, to.attributes, to.associations;
    db.pins, db.versionSets, db.nextId := to.pins, to.versionSets, to.nextId;
  }

  lemma DoneParts(d: Db, e: Db, defs: DefNames, reuse: set<string>, cv: Id, pinAll: bool, g: Target, created: set<string>,
                  types: seq<ExportType>)
    requires TypesDone(d, e, defs, reuse, cv, pinAll, g, created, types)
    ensures Sound(e) && Settled(e, g) && created <= g.versionIds.Keys && AllStand(e, defs, reuse, g, created, types)
  {
    hide Sound, AllStand, PinsDone, SchemaAdded, OldIsFrozen;
    SettledKeys(e, g);
  }

  // ---- a version to be reused ----

  /** A version that was there is pinned by the one reused exactly when it was before. */
  lemma ReusedPinIff(d: Db, e: Db, defs: DefNames, types: seq<ExportType>, reuse: set<string>, text: string, cv: Id, g: Target,
                     created: set<string>, n: string)
    requires Sound(d) && SchemaImported(d, e, defs, types, reuse, text, cv, g, created) && text in reuse
    requires n in g.typeIds && TypeNamed(d, n)
    ensures n in g.versionIds && g.typeIds[n] in d.types && d.types[g.typeIds[n]] == n && IsLatest(d, g.typeIds[n], g.versionIds[n])
    ensures PinnedVersion(e, cv, g.versionIds[n]) <==> PinnedVersion(d, cv, g.versionIds[n])
  {
    hide Sound, AllLinked, Covers, LabelTaken, NameOf, IsLatest, SchemaAdded, OldIsFrozen, TypeNamed;
    SoundIsFresh(d);
    SettledNames(e, g, n);
    OldTypeIsLatest(d, e, g, n);
    LatestExists(d, g.typeIds[n], g.versionIds[n]);
    LatestExists(e, g.typeIds[n], g.versionIds[n]);
    VersionsFreshToo(d);
    PinsStay(d, e);
  }

  lemma VersionsFreshToo(d: Db)
    requires FreshSchema(d)
    ensures forall v :: v in d.versions ==> v < d.nextId
  {
  }

  lemma PinsStay(d: Db, e: Db)
    requires SchemaAdded(d, e)
    ensures forall p :: p in d.pins ==> p in e.pins && e.pins[p] == d.pins[p]
  {
  }

  /** A type that was there is handed over with the latest version it had. */
  lemma OldTypeIsLatest(d: Db, e: Db, g: Target, n: string)
    requires Sound(d) && Sound(e) && SchemaAdded(d, e) && OldIsFrozen(d, e) && Named(e, g, n) && TypeNamed(d, n)
    ensures g.typeIds[n] in d.types && d.types[g.typeIds[n]] == n && IsLatest(d, g.typeIds[n], g.versionIds[n])
  {
    hide UniqueAttributeNames, UniqueAssociationNames, UniqueNumbers;
    var i :| i in d.types && d.types[i] == n;
    assert e.types[i] == n && i == g.typeIds[n];
    var ver := g.versionIds[n];
    assert e.versions[ver].typeId == i && ver in d.versions;
  }

  /** A catalog version that pins version 1 of a type that has a version 2. */
  ghost const OUTDATED := Db(
    map[], map[], map[], map[], map[3 := CatalogVersion("v", Development)], map[4 := Pin(3, 11)], [],
    map[10 := "T"], map[11 := TypeVersion(10, 1, ""), 12 := TypeVersion(10, 2, "")],
    map[50 := Attribute(12, "size", "", 60, 0, false)], map[], map[60 := TypeInfo(IntegerT, Constraints(false, {}, None, None, None, None, None))],
    map[], 100)

  const SIZED := ExportType("T", "", [ExportAttribute("size", "integer", false, 0, "")], [])

  ghost const OUTDATED_TARGET := Target(map["T" := 10], map["T" := 12], map[])

  /** A version to be reused covers a file when it pins its types, in whatever version; the data
      goes to their latest versions. So a phase that succeeds can hand over a version that the
      catalog version does not pin, and what is imported there is not read through its pins. */
  lemma ReusedVersionIsNotPinned()
    ensures Sound(OUTDATED) && FileFits(OUTDATED, map[60 := "integer"], map["integer" := 60], {"v"}, "v", [SIZED])
    ensures SchemaImported(OUTDATED, OUTDATED, map[60 := "integer"], [SIZED], {"v"}, "v", 3, OUTDATED_TARGET, {})
    ensures !PinnedVersion(OUTDATED, 3, OUTDATED_TARGET.versionIds["T"])
  {
    hide Sound, Settled, SchemaAdded, OldIsFrozen, Identical, IsLatest;
    var d, defs := OUTDATED, map[60 := "integer"];
    assert d.pins[4] == Pin(3, 11);
    NothingAdded(d);
    SizedIsIdentical();
    OutdatedIsSound();
    OutdatedFits();
    OutdatedIsSettled();
    assert TypeNamed(d, "T") by {
      assert 10 in d.types;
    }
    assert PinnedVersion(d, 3, 11);
    assert NameOf([SIZED], "T") by {
      assert [SIZED][0].name == "T";
    }
    assert AllLinked(d, defs, {"v"}, OUTDATED_TARGET, {}, [SIZED], 1);
  }

  lemma SizedIsIdentical()
    ensures Identical(OUTDATED, map[60 := "integer"], 12, SIZED) && IsLatest(OUTDATED, 10, 12)
  {
    assert AttributeAlike(OUTDATED, map[60 := "integer"], 12, 50, SIZED.attributes[0]);
    assert AttributesIn(OUTDATED, 12) == {50} && AssociationsIn(OUTDATED, 12) == {};
  }

  lemma OutdatedFits()
    ensures FileFits(OUTDATED, map[60 := "integer"], map["integer" := 60], {"v"}, "v", [SIZED])
  {
    hide Identical, AssociationNamesDiffer;
    var d := OUTDATED;
    SizedIsIdentical();
    assert Labelled(d, 3, "v");
    assert d.pins[4] == Pin(3, 11);
    assert PinnedVersion(d, 3, 11);
    assert TypePinned(d, 3, 10);
    assert HasVersions(d, 10) by {
      assert 12 in d.versions;
    }
    assert SameAsLatest(d, map[60 := "integer"], 10, SIZED);
    assert TypeNamed(d, "T") by {
      assert 10 in d.types;
    }
    assert TypeFits(d, map[60 := "integer"], map["integer" := 60], {"v"}, SIZED);
  }

  lemma OutdatedIsSound()
    ensures Sound(OUTDATED)
  {
  }

  lemma OutdatedIsSettled()
    ensures Settled(OUTDATED, OUTDATED_TARGET)
  {
    assert Named(OUTDATED, OUTDATED_TARGET, "T");
  }
}
