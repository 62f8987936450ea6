/** A catalog carried from one store into another, schema and data: exported with the types it
    pins, which the other store finds or creates under a new catalog version, and imported there.
    Read through the pins of that version it is the same catalog up to ids. */
module CatalogTransfer {
  import opened Domain
  import opened Database
  import opened Conformance
  import opened DataSteps
  import opened Instances
  import opened SchemaHistory
  import opened CopyOnWrite
  import opened TypeCalls
  import opened CatalogVersions
  import opened Catalogs
  import opened CatalogVersionCalls
  import opened ExportJson
  import opened ExportTree
  import opened CatalogExport
  import opened ImportNodes
  import opened ImportRows
  import opened ImportLinks
  import opened DataImport
  import opened RoundTrip
  import opened SchemaExport
  import opened SchemaMatch
  import opened SchemaTypes
  import opened SchemaLinks
  import opened SchemaImport

  // ---- from version to version ----

  /** Type definitions of one name are of one base type. */
  ghost predicate BasesAgree(d: Db, defs: DefNames, e: Db, others: DefNames) {
    forall a, b :: a in defs && b in others && defs[a] == others[b] ==>
      a in d.typeDefs && b in e.typeDefs && d.typeDefs[a].base == e.typeDefs[b].base
  }

  /** An attribute that is exported has its like in an identical version, of the same base type. */
  lemma AttributeCarries(d: Db, defs: DefNames, ver: Id, t: ExportType, e: Db, others: DefNames, to: Id, a: Id)
    requires AttributesShown(d, defs, ver, t.attributes) && Identical(e, others, to, t) && BasesAgree(d, defs, e, others)
    requires a in d.attributes && d.attributes[a].versionId == ver
    ensures exists b :: b in e.attributes && e.attributes[b].versionId == to && e.attributes[b].name == d.attributes[a].name
                        && BaseOfAttribute(e, b) == BaseOfAttribute(d, a)
  {
    var x := AttributeEntryOf(d, defs, ver, t.attributes, a);
    assert HasAlike(e, others, to, t.attributes[x]);
    var b :| AttributeAlike(e, others, to, b, t.attributes[x]);
    assert ShowsAttribute(d, defs, a, t.attributes[x]);
    assert defs[d.attributes[a].typeDef] == others[e.attributes[b].typeDef];
  }

  /** So has an association, of the same kind. */
  lemma AssociationCarries(d: Db, defs: DefNames, ver: Id, t: ExportType, e: Db, others: DefNames, to: Id, s: Id)
    requires AssociationsShown(d, ver, t.associations) && Identical(e, others, to, t)
    requires s in d.associations && d.associations[s].versionId == ver
    ensures exists b :: OwnAssociation(e.associations, to, d.associations[s].name, b) && e.associations[b].kind == d.associations[s].kind
  {
    var x := EntryOf(d, ver, t.associations, s);
    assert HasAlikeAssociation(e, to, t.associations[x]);
    var b :| AssociationAlike(e, to, b, t.associations[x]);
    assert ShowsAssociation(d, s, t.associations[x]);
  }

  /** And back: an identical version has no association but those of the version exported. */
  lemma AssociationCameFrom(d: Db, ver: Id, t: ExportType, e: Db, others: DefNames, to: Id, b: Id)
    requires AssociationsShown(d, ver, t.associations) && Covered(e, others, to, t)
    requires b in e.associations && e.associations[b].versionId == to
    ensures exists s :: OwnAssociation(d.associations, ver, e.associations[b].name, s) && d.associations[s].kind == e.associations[b].kind
  {
    assert b in AssociationsIn(e, to);
    var x :| 0 <= x < |t.associations| && AssociationAlike(e, to, b, t.associations[x]);
    var s := AssociationShownAt(d, ver, t.associations, x);
  }

  // ---- from store to store ----

  /** Every pinned version of one store has an identical one, under the name of its type, in what
      the other hands over. */
  ghost predicate Carried(d: Db, defs: DefNames, cv: Id, e: Db, others: DefNames, g: Target, types: seq<ExportType>) {
    && TypesExported(d, defs, cv, types) && (forall n :: n in g.typeIds <==> NameOf(types, n))
    && forall x :: 0 <= x < |types| ==>
         && types[x].name in g.versionIds && Identical(e, others, g.versionIds[types[x].name], types[x])
         && Covered(e, others, g.versionIds[types[x].name], types[x])
  }

  predicate PinnedNamed(d: Db, cv: Id, name: string, s: Id) {
    s in d.associations && d.associations[s].name == name && PinnedVersion(d, cv, d.associations[s].versionId)
  }

  /** Under the name a link can be found again: the source's version has it, or some pinned
      version does, and never as a containment. */
  ghost predicate NameCarries(d: Db, cv: Id, ver: Id, name: string) {
    if exists s :: OwnAssociation(d.associations, ver, name, s) then
      forall s :: OwnAssociation(d.associations, ver, name, s) ==> !d.associations[s].kind.Containment?
    else
      && (exists s :: PinnedNamed(d, cv, name, s))
      && forall s :: PinnedNamed(d, cv, name, s) ==> !d.associations[s].kind.Containment?
  }

  ghost predicate LinksCarry(d: Db, cv: Id, s: Scene) {
    forall l, i, name, j {:trigger PlainLink(s, l, i, name, j)} :: PlainLink(s, l, i, name, j) && i in s.members ==>
      s.members[i].typeId in s.versionOf && NameCarries(d, cv, s.versionOf[s.members[i].typeId], name)
  }

  /** The exported type of a pinned version, and its place in the other store. */
  lemma TypeCarries(d: Db, defs: DefNames, cv: Id, e: Db, others: DefNames, g: Target, types: seq<ExportType>, ver: Id)
    returns (t: ExportType)
    requires Carried(d, defs, cv, e, others, g, types) && PinnedVersion(d, cv, ver)
    ensures ShowsVersion(d, defs, ver, t) && t.name in g.versionIds && t.name in g.typeIds
    ensures Identical(e, others, g.versionIds[t.name], t) && Covered(e, others, g.versionIds[t.name], t)
  {
    hide ShowsVersion, Identical, Covered;
    assert ShownSomewhere(d, defs, ver, types);
    var x :| 0 <= x < |types| && ShowsVersion(d, defs, ver, types[x]);
    t := types[x];
    assert NameOf(types, t.name);
  }

  /** A name that is in the table is a pinned association's. */
  lemma TableCameFrom(d: Db, defs: DefNames, cv: Id, e: Db, others: DefNames, g: Target, types: seq<ExportType>, n: string)
    requires Carried(d, defs, cv, e, others, g, types) && Settled(e, g) && n in g.associations
    ensures g.associations[n] in e.associations && e.associations[g.associations[n]].name == n
    ensures exists s :: PinnedNamed(d, cv, n, s) && d.associations[s].kind == e.associations[g.associations[n]].kind
  {
    hide Identical, Covered, AttributesShown, AssociationsShown, IsLatest;
    assert InTable(e, g, n);
    var b := g.associations[n];
    var m :| m in g.versionIds && g.versionIds[m] == e.associations[b].versionId;
    var x :| 0 <= x < |types| && types[x].name == m;
    assert ShowsAPin(d, defs, cv, types[x]);
    var ver :| PinnedVersion(d, cv, ver) && ShowsVersion(d, defs, ver, types[x]);
    AssociationCameFrom(d, ver, types[x], e, others, g.versionIds[m], b);
    var s :| OwnAssociation(d.associations, ver, n, s) && d.associations[s].kind == e.associations[b].kind;
    assert PinnedNamed(d, cv, n, s);
  }

  lemma NameIsInTable(d: Db, defs: DefNames, cv: Id, e: Db, others: DefNames, g: Target, types: seq<ExportType>, s: Id)
    requires Carried(d, defs, cv, e, others, g, types) && Settled(e, g)
    requires s in d.associations && PinnedVersion(d, cv, d.associations[s].versionId)
    ensures d.associations[s].name in g.associations
  {
    hide Identical, Covered, AttributesShown, AssociationsShown, IsLatest, Carried, PinnedVersion;
    var ver := d.associations[s].versionId;
    var t := TypeCarries(d, defs, cv, e, others, g, types, ver);
    AssociationCarries(d, defs, ver, t, e, others, g.versionIds[t.name], s);
    var b :| OwnAssociation(e.associations, g.versionIds[t.name], d.associations[s].name, b);
    assert Holder(e, g, b);
  }

  /** A name that carries is found again, and as no containment. */
  lemma LinkCarries(d: Db, defs: DefNames, cv: Id, e: Db, others: DefNames, g: Target, types: seq<ExportType>, ver: Id, t: ExportType,
                    w: Scene, name: string)
    requires Carried(d, defs, cv, e, others, g, types) && Settled(e, g) && UniqueAssociationNames(e.associations)
    requires w.associations == e.associations && ShowsVersion(d, defs, ver, t) && t.name in g.versionIds
    requires Identical(e, others, g.versionIds[t.name], t) && Covered(e, others, g.versionIds[t.name], t)
    requires NameCarries(d, cv, ver, name)
    ensures LinkFits(w, g, t.name, name)
  {
    hide Identical, Covered, AttributesShown, AssociationsShown, IsLatest, Carried, PinnedVersion, Settled, UniqueAssociationNames;
    var to := g.versionIds[t.name];
    forall b | OwnAssociation(e.associations, to, name, b)
      ensures PlainAssociation(e.associations, name, b)
    {
      AssociationCameFrom(d, ver, t, e, others, to, b);
    }
    if s :| OwnAssociation(d.associations, ver, name, s) {
      AssociationCarries(d, defs, ver, t, e, others, to, s);
    } else {
      var s :| PinnedNamed(d, cv, name, s);
      NameIsInTable(d, defs, cv, e, others, g, types, s);
      TableCameFrom(d, defs, cv, e, others, g, types, name);
    }
  }

  /** What is carried over is portable: values that survive, links whose names carry. */
  lemma CarriedIsPortable(d: Db, defs: DefNames, c: Id, s: Scene, e: Db, others: DefNames, w: Scene, g: Target,
                          types: seq<ExportType>, codec: TextCodec)
    requires c in d.catalogs && TypesResolved(d, d.catalogs[c].cvId, s.typeName, s.versionOf)
    requires s == SceneOf(d, c, s.typeName, s.versionOf)
    requires Carried(d, defs, d.catalogs[c].cvId, e, others, g, types) && Settled(e, g) && UniqueAssociationNames(e.associations)
    requires w.attributes == e.attributes && w.typeDefs == e.typeDefs && w.associations == e.associations
    requires BasesAgree(d, defs, e, others) && ValuesSurvive(s, codec) && LinksCarry(d, d.catalogs[c].cvId, s)
    requires forall i :: i in s.members ==> s.members[i].typeId in s.typeName
    ensures Portable(s, w, g, codec)
  {
    hide Carried, Settled, UniqueAssociationNames, Survives, ExportValue, NameCarries, LinkFits, Identical, Covered,
         AttributesShown, AssociationsShown, BasesAgree, PinnedVersion;
    var cv := d.catalogs[c].cvId;
    forall i | i in s.members
      ensures InstancePortable(s, w, g, codec, i)
    {
      var typeId := s.members[i].typeId;
      var ver := s.versionOf[typeId];
      var t := TypeCarries(d, defs, cv, e, others, g, types, ver);
      assert t.name == s.typeName[typeId];
      forall a | AttributeHere(s, i, a) && ExportedAt(s, codec, i, a).Some?
        ensures ValuePortable(s, w, codec, g.versionIds[t.name], i, a)
      {
        AttributeCarries(d, defs, ver, t, e, others, g.versionIds[t.name], a);
        var b :| b in e.attributes && e.attributes[b].versionId == g.versionIds[t.name]
                 && e.attributes[b].name == d.attributes[a].name && BaseOfAttribute(e, b) == BaseOfAttribute(d, a);
        assert BaseHere(w, b) == BaseOfAttribute(e, b) && BaseHere(s, a) == BaseOfAttribute(d, a);
      }
      forall l, name, j | PlainLink(s, l, i, name, j)
        ensures LinkFits(w, g, t.name, name)
      {
        LinkCarries(d, defs, cv, e, others, g, types, ver, t, w, name);
      }
    }
  }

  // ---- what the schema phase hands over ----

  /** A type to be reused is that of the file. */
  ghost predicate ReusedAreSame(d: Db, defs: DefNames, reuse: set<string>, types: seq<ExportType>) {
    forall x, i :: 0 <= x < |types| && types[x].name in reuse && i in d.types && d.types[i] == types[x].name ==>
      SameAsLatest(d, defs, i, types[x])
  }

  /** The names of a type's parts differ, as they do in every type that is exported. */
  ghost predicate PartsDiffer(t: ExportType) {
    AttributeNamesDiffer(t.attributes) && AssociationNamesDiffer(t.associations)
  }

  lemma ExportedPartsDiffer(d: Db, defs: DefNames, cv: Id, types: seq<ExportType>)
    requires UniqueAttributeNames(d.attributes) && UniqueAssociationNames(d.associations) && TypesExported(d, defs, cv, types)
    ensures forall x :: 0 <= x < |types| ==> PartsDiffer(types[x])
  {
    hide UniqueAttributeNames, UniqueAssociationNames, AttributesShown, AssociationsShown, AttributeNamesDiffer,
         AssociationNamesDiffer, PinnedVersion;
    forall x | 0 <= x < |types|
      ensures PartsDiffer(types[x])
    {
      assert ShowsAPin(d, defs, cv, types[x]);
      var ver :| PinnedVersion(d, cv, ver) && ShowsVersion(d, defs, ver, types[x]);
      AttributesAreAlike(d, defs, ver, types[x].attributes);
      AssociationsAreAlike(d, ver, types[x].associations);
    }
  }

  lemma StandingIsIdentical(d: Db, e: Db, defs: DefNames, reuse: set<string>, g: Target, created: set<string>, types: seq<ExportType>,
                            x: nat)
    requires Sound(d) && Sound(e) && SchemaAdded(d, e) && OldIsFrozen(d, e) && x < |types|
    requires Standing(e, defs, reuse, g, created, types[x], true) && ReusedAreSame(d, defs, reuse, types)
    requires types[x].name !in created ==> TypeNamed(d, types[x].name)
    ensures types[x].name in g.versionIds && Identical(e, defs, g.versionIds[types[x].name], types[x])
  {
    hide SchemaAdded, OldIsFrozen, Identical, AttributesShown, AssociationsShown, FreshSchema, UniqueAttributeNames,
         UniqueAssociationNames, UniqueTypeNames, UniqueNumbers, TypeNamed, IsLatest;
    var t := types[x];
    var ver := g.versionIds[t.name];
    if t.name in created {
      ShownIsIdentical(e, defs, ver, t);
    } else if t.name in reuse {
      OldTypeIsLatest(d, e, g, t.name);
      assert SameAsLatest(d, defs, g.typeIds[t.name], t);
      LatestExists(d, g.typeIds[t.name], ver);
      FrozenIsKept(d, e, ver);
      ShownStays(d, e, defs, ver, t);
    }
  }

  /** What the phase does with an exported schema carries it over. */
  lemma ImportedIsCarried(d: Db, defs: DefNames, cv: Id, b: Db, e: Db, others: DefNames, types: seq<ExportType>, reuse: set<string>,
                          text: string, to: Id, g: Target, created: set<string>)
    requires UniqueAttributeNames(d.attributes) && UniqueAssociationNames(d.associations) && TypesExported(d, defs, cv, types)
    requires Sound(b) && SchemaImported(b, e, others, types, reuse, text, to, g, created)
    requires TypeNamesDiffer(types) && ReusedAreSame(b, others, reuse, types)
    ensures Carried(d, defs, cv, e, others, g, types) && Settled(e, g)
  {
    hide Sound, Settled, SchemaAdded, OldIsFrozen, TypesExported, PinsDone, Covers, LabelTaken, NameOf, TypeNamed, Identical,
         Covered, Standing, ReusedAreSame, UniqueAttributeNames, UniqueAssociationNames, AttributeNamesDiffer,
         AssociationNamesDiffer;
    ExportedPartsDiffer(d, defs, cv, types);
    forall x | 0 <= x < |types|
      ensures types[x].name in g.versionIds && Identical(e, others, g.versionIds[types[x].name], types[x])
      ensures Covered(e, others, g.versionIds[types[x].name], types[x])
    {
      assert Standing(e, others, reuse, g, created, types[x], x < |types|);
      NameIsListed(types, x);
      StandingIsIdentical(b, e, others, reuse, g, created, types, x);
      assert PartsDiffer(types[x]);
      IdenticalIsCovered(e, others, g.versionIds[types[x].name], types[x]);
    }
  }

  lemma NameIsListed(types: seq<ExportType>, x: nat)
    requires x < |types|
    ensures NameOf(types, types[x].name)
  {
  }

  // ---- the pins of the new catalog version ----

  /** The new version pins exactly what is handed over, so an export of what was imported reads
      the types and versions it was imported with. */
  lemma NewPinsResolve(b: Db, e: Db, defs: DefNames, types: seq<ExportType>, reuse: set<string>, text: string, to: Id, g: Target,
                       created: set<string>)
    requires Sound(b) && SchemaImported(b, e, defs, types, reuse, text, to, g, created) && text !in reuse && TargetSound(g)
    ensures TypesResolved(e, to, TypeNames(g), VersionsOf(g))
  {
    hide Sound, SchemaImported, PinsDone, Settled;
    SoundIsFresh(b);
    PhasePins(b, e, defs, types, reuse, text, to, g, created);
    NoOldPins(b, to);
    forall t | t in g.typeIds
      ensures PinnedVersion(e, to, g.versionIds[t]) && e.versions[g.versionIds[t]].typeId == g.typeIds[t]
      ensures g.typeIds[t] in e.types && e.types[g.typeIds[t]] == t
    {
      HandedIsPinned(b.pins, e, to, b.nextId, g, t);
    }
    forall ver | PinnedVersion(e, to, ver)
      ensures e.versions[ver].typeId in VersionsOf(g)
    {
      PinnedIsHanded(b.pins, e, to, b.nextId, g, ver);
    }
  }

  lemma PhasePins(b: Db, e: Db, defs: DefNames, types: seq<ExportType>, reuse: set<string>, text: string, to: Id, g: Target,
                  created: set<string>)
    requires SchemaImported(b, e, defs, types, reuse, text, to, g, created) && text !in reuse
    ensures Settled(e, g) && to >= b.nextId && PinsDone(b.pins, e.pins, to, true, b.nextId, g)
  {
    hide Sound, Settled, SchemaAdded, OldIsFrozen, Covers, LabelTaken, NameOf, TypeNamed, AllLinked, PinsDone;
  }

  lemma HandedIsPinned(m: map<Id, Pin>, e: Db, cv: Id, from: Id, g: Target, t: string)
    requires Settled(e, g) && PinsDone(m, e.pins, cv, true, from, g) && t in g.typeIds
    ensures t in g.versionIds && PinnedVersion(e, cv, g.versionIds[t]) && e.versions[g.versionIds[t]].typeId == g.typeIds[t]
    ensures g.typeIds[t] in e.types && e.types[g.typeIds[t]] == t
  {
    hide Settled, IsLatest;
    SettledNames(e, g, t);
    LatestExists(e, g.typeIds[t], g.versionIds[t]);
  }

  lemma PinnedIsHanded(m: map<Id, Pin>, e: Db, cv: Id, from: Id, g: Target, ver: Id)
    requires Settled(e, g) && PinsDone(m, e.pins, cv, true, from, g) && PinnedVersion(e, cv, ver)
    requires forall p :: p in m ==> m[p].cvId != cv
    ensures exists t :: t in g.typeIds && g.typeIds[t] == e.versions[ver].typeId
  {
    hide Settled, IsLatest;
    var p :| p in e.pins && e.pins[p] == Pin(cv, ver);
    assert p !in m;
    var t :| t in g.versionIds && g.versionIds[t] == ver;
    SettledKeys(e, g);
    SettledNames(e, g, t);
    LatestExists(e, g.typeIds[t], g.versionIds[t]);
  }

  lemma NoOldPins(d: Db, cv: Id)
    requires FreshSchema(d) && cv >= d.nextId
    ensures forall p :: p in d.pins ==> d.pins[p].cvId != cv
  {
  }

  // ---- there ----

  /** What the catalog needs where it is: it can be exported and told apart, its values survive,
      and its links are found again by name. */
  ghost predicate Carriable(d: Db, c: Id, s: Scene, kinds: map<string, string>, codec: TextCodec)
    requires c in d.catalogs
  {
    && Shippable(d, c, kinds) && Exportable(d, d.catalogs[c].cvId)
    && ValuesSurvive(s, codec) && LinksCarry(d, d.catalogs[c].cvId, s)
  }

  ghost predicate NameOpen(catalogs: map<Id, Catalog>, name: string) {
    IsDnsLabel(name) && forall c :: c in catalogs ==> catalogs[c].name != name
  }

  /** What the other store needs: the file fits under a new version, and the name is a free label. */
  ghost predicate Receives(d: Db, defs: DefNames, tds: map<string, Id>, reuse: set<string>, text: string, types: seq<ExportType>,
                           name: string) {
    && FileFits(d, defs, tds, reuse, text, types) && text !in reuse && ReusedAreSame(d, defs, reuse, types)
    && NameOpen(d.catalogs, name) && text != ""
  }

  /** Every pinned association ends at a pinned type. */
  ghost predicate TargetsPinned(d: Db, cv: Id) {
    forall s {:trigger d.associations[s]} :: s in d.associations && PinnedVersion(d, cv, d.associations[s].versionId) ==>
      TypePinned(d, cv, d.associations[s].target)
  }

  ghost predicate DefsKnown(d: Db, defs: DefNames, cv: Id, tds: map<string, Id>) {
    forall a {:trigger d.attributes[a]} :: a in d.attributes && PinnedVersion(d, cv, d.attributes[a].versionId) ==>
      d.attributes[a].typeDef in defs && defs[d.attributes[a].typeDef] in tds
  }

  /** Where none of the types exists, an exported schema fits exactly when its type definitions
      are known and its associations end at types that are exported, too. */
  lemma NewcomersFitIff(d: Db, defs: DefNames, cv: Id, types: seq<ExportType>, b: Db, others: DefNames, tds: map<string, Id>,
                        reuse: set<string>, text: string)
    requires UniqueAttributeNames(d.attributes) && UniqueAssociationNames(d.associations) && UniqueTypeNames(d)
    requires TypesExported(d, defs, cv, types) && TypeNamesDiffer(types) && text !in reuse && !LabelTaken(b, text)
    requires forall x :: 0 <= x < |types| ==> types[x].name !in reuse && !TypeNamed(b, types[x].name)
    ensures FileFits(b, others, tds, reuse, text, types) <==> TargetsPinned(d, cv) && DefsKnown(d, defs, cv, tds)
  {
    hide UniqueAttributeNames, UniqueAssociationNames, UniqueTypeNames, TypesExported, LabelTaken, TypeNamed, TargetsPinned,
         DefsKnown, NamesKnown, TypeCreatable, PartsDiffer;
    ExportedPartsDiffer(d, defs, cv, types);
    AllTargetsPinned(d, defs, cv, types);
    AllDefsKnown(d, defs, cv, types, tds);
    if FileFits(b, others, tds, reuse, text, types) {
      forall x | 0 <= x < |types|
        ensures NamesKnown(types[x].associations, types) && TypeCreatable(types[x], tds)
      {
        assert TypeFits(b, others, tds, reuse, types[x]);
      }
    }
    if TargetsPinned(d, cv) && DefsKnown(d, defs, cv, tds) {
      forall x | 0 <= x < |types|
        ensures TypeFits(b, others, tds, reuse, types[x])
      {
      }
    }
  }

  lemma AllTargetsPinned(d: Db, defs: DefNames, cv: Id, types: seq<ExportType>)
    requires TypesExported(d, defs, cv, types) && UniqueTypeNames(d) && forall x :: 0 <= x < |types| ==> PartsDiffer(types[x])
    ensures TargetsPinned(d, cv) <==> forall x :: 0 <= x < |types| ==> NamesKnown(types[x].associations, types)
  {
    hide UniqueTypeNames, PinnedVersion, AttributesShown;
    forall s | s in d.associations && PinnedVersion(d, cv, d.associations[s].versionId)
      ensures exists x, y :: 0 <= x < |types| && 0 <= y < |types[x].associations| && ShowsAssociation(d, s, types[x].associations[y])
    {
      var ver := d.associations[s].versionId;
      assert ShownSomewhere(d, defs, ver, types);
      var x :| 0 <= x < |types| && ShowsVersion(d, defs, ver, types[x]);
      var y := EntryOf(d, ver, types[x].associations, s);
    }
    forall x, y | 0 <= x < |types| && 0 <= y < |types[x].associations|
      ensures exists s :: s in d.associations && PinnedVersion(d, cv, d.associations[s].versionId)
                          && ShowsAssociation(d, s, types[x].associations[y])
    {
      assert ShowsAPin(d, defs, cv, types[x]);
      var ver :| PinnedVersion(d, cv, ver) && ShowsVersion(d, defs, ver, types[x]);
      var s := AssociationShownAt(d, ver, types[x].associations, y);
    }
    forall i | i in d.types
      ensures TypePinned(d, cv, i) <==> NameOf(types, d.types[i])
    {
      PinnedIsNamed(d, defs, cv, types, i);
    }
  }

  lemma PinnedIsNamed(d: Db, defs: DefNames, cv: Id, types: seq<ExportType>, i: Id)
    requires TypesExported(d, defs, cv, types) && UniqueTypeNames(d) && i in d.types
    ensures TypePinned(d, cv, i) <==> NameOf(types, d.types[i])
  {
    hide AttributesShown, AssociationsShown;
    if TypePinned(d, cv, i) {
      var ver :| PinnedVersion(d, cv, ver) && d.versions[ver].typeId == i;
      assert ShownSomewhere(d, defs, ver, types);
      var x :| 0 <= x < |types| && ShowsVersion(d, defs, ver, types[x]);
    }
    if NameOf(types, d.types[i]) {
      var x :| 0 <= x < |types| && types[x].name == d.types[i];
      assert ShowsAPin(d, defs, cv, types[x]);
      var ver :| PinnedVersion(d, cv, ver) && ShowsVersion(d, defs, ver, types[x]);
    }
  }

  lemma AllDefsKnown(d: Db, defs: DefNames, cv: Id, types: seq<ExportType>, tds: map<string, Id>)
    requires TypesExported(d, defs, cv, types) && forall x :: 0 <= x < |types| ==> PartsDiffer(types[x])
    ensures DefsKnown(d, defs, cv, tds) <==> forall x :: 0 <= x < |types| ==> TypeCreatable(types[x], tds)
  {
    hide TypesExported, PartsDiffer, DefsKnown, TypeCreatable;
    if DefsKnown(d, defs, cv, tds) {
      forall x | 0 <= x < |types|
        ensures TypeCreatable(types[x], tds)
      {
        KnownIsCreatable(d, defs, cv, types, tds, x);
      }
    }
    if forall x :: 0 <= x < |types| ==> TypeCreatable(types[x], tds) {
      CreatableIsKnown(d, defs, cv, types, tds);
    }
  }

  lemma KnownIsCreatable(d: Db, defs: DefNames, cv: Id, types: seq<ExportType>, tds: map<string, Id>, x: nat)
    requires TypesExported(d, defs, cv, types) && DefsKnown(d, defs, cv, tds) && x < |types| && PartsDiffer(types[x])
    ensures TypeCreatable(types[x], tds)
  {
    hide PinnedVersion, AssociationsShown, AttributesShown, AttributeNamesDiffer, AssociationNamesDiffer;
    assert ShowsAPin(d, defs, cv, types[x]);
    var ver :| PinnedVersion(d, cv, ver) && ShowsVersion(d, defs, ver, types[x]);
    forall y | 0 <= y < |types[x].attributes|
      ensures types[x].attributes[y].typeDefinition in tds
    {
      var a := AttributeOfEntry(d, defs, ver, types[x].attributes, y);
    }
  }

  lemma CreatableIsKnown(d: Db, defs: DefNames, cv: Id, types: seq<ExportType>, tds: map<string, Id>)
    requires TypesExported(d, defs, cv, types) && forall x :: 0 <= x < |types| ==> TypeCreatable(types[x], tds)
    ensures DefsKnown(d, defs, cv, tds)
  {
    hide PinnedVersion, AssociationsShown, AttributesShown, AttributeNamesDiffer, AssociationNamesDiffer;
    forall a | a in d.attributes && PinnedVersion(d, cv, d.attributes[a].versionId)
      ensures d.attributes[a].typeDef in defs && defs[d.attributes[a].typeDef] in tds
    {
      var ver := d.attributes[a].versionId;
      assert ShownSomewhere(d, defs, ver, types);
      var x :| 0 <= x < |types| && ShowsVersion(d, defs, ver, types[x]);
      var y := AttributeEntryOf(d, defs, ver, types[x].attributes, a);
      assert TypeCreatable(types[x], tds);
    }
  }

  /** The scene holds the catalog's instances and the rows and links of the store. */
  ghost predicate ReadFrom(d: Db, c: Id, s: Scene) {
    && s.members == (map i | i in d.instances && d.instances[i].catalogId == c :: d.instances[i])
    && s.values == d.values && s.links == d.links
  }

  /** The catalog, read through the pins of its catalog version, is the scene up to ids, and every
      value has found an attribute of its name and base type. */
  ghost predicate CameAcross(e: Db, c: Id, s: Scene, there: Scene, codec: TextCodec, f: map<Id, Id>) {
    && c in e.catalogs && TypesResolved(e, e.catalogs[c].cvId, there.typeName, there.versionOf)
    && there == SceneOf(e, c, there.typeName, there.versionOf) && ReadFrom(e, c, there)
    && SameUpToIds(s, there, codec, f) && AllHaveHomes(s, there, codec, f)
  }

  lemma SchemaPartKept(b: Db, e: Db)
    requires SchemaAdded(b, e) && FreshData(b) && LinksInside(b)
    ensures FreshData(e) && LinksInside(e) && e.catalogs == b.catalogs && e.typeDefs == b.typeDefs
  {
  }

  lemma ImportedHasSchema(d: Db, e: Db, row: Catalog)
    requires Imported(d, e, row)
    ensures SchemaSame(d, e) && d.nextId in e.catalogs && e.catalogs[d.nextId] == row
  {
    hide SchemaSame;
  }

  lemma SoundNames(d: Db)
    requires Sound(d)
    ensures UniqueAttributeNames(d.attributes) && UniqueAssociationNames(d.associations)
  {
    hide FreshSchema, UniqueAttributeNames, UniqueAssociationNames, UniqueTypeNames, UniqueNumbers;
  }

  lemma ResolvedStill(d: Db, e: Db, cv: Id, typeName: map<Id, string>, versionOf: map<Id, Id>)
    requires TypesResolved(d, cv, typeName, versionOf) && SchemaSame(d, e)
    ensures TypesResolved(e, cv, typeName, versionOf)
  {
    assert forall ver :: PinnedVersion(e, cv, ver) <==> PinnedVersion(d, cv, ver);
  }

  lemma ImportSceneIsScene(e: Db, c: Id, g: Target)
    requires TargetSound(g)
    ensures ImportScene(e, c, g) == SceneOf(e, c, TypeNames(g), VersionsOf(g))
  {
    hide TypeNames, VersionsOf, MembersOf;
  }

  lemma MembersAreTyped(d: Db, c: Id, s: Scene, kinds: map<string, string>)
    requires c in d.catalogs && Shippable(d, c, kinds) && TypesResolved(d, d.catalogs[c].cvId, s.typeName, s.versionOf)
    requires s == SceneOf(d, c, s.typeName, s.versionOf)
    ensures forall i :: i in s.members ==> s.members[i].typeId in s.typeName
  {
    var names := PlacedIsReady(d, c, s.typeName, s.versionOf);
  }

  /** The schema phase has put the exported types into the store; then the forest is acceptable. */
  lemma CarriedIsAcceptable(d: Db, defs: DefNames, c: Id, s: Scene, names: map<string, Id>, forest: seq<ExportInstance>,
                            kinds: map<string, string>, b: Db, e: Db, others: DefNames, types: seq<ExportType>, reuse: set<string>,
                            text: string, to: Id, g: Target, created: set<string>, codec: TextCodec)
    requires c in d.catalogs && UniqueAttributeNames(d.attributes) && UniqueAssociationNames(d.associations)
    requires TypesResolved(d, d.catalogs[c].cvId, s.typeName, s.versionOf) && s == SceneOf(d, c, s.typeName, s.versionOf)
    requires Depicts(s, codec, names, forest) && ForestApart(forest) && forall x :: 0 <= x < |forest| ==> DistinctKeys(forest[x])
    requires Carriable(d, c, s, kinds, codec) && BasesAgree(d, defs, b, others) && JsonTextSound(codec)
    requires TypesExported(d, defs, d.catalogs[c].cvId, types) && TypeNamesDiffer(types)
    requires Sound(b) && FreshData(b) && LinksInside(b) && ReusedAreSame(b, others, reuse, types)
    requires SchemaImported(b, e, others, types, reuse, text, to, g, created)
    ensures TargetSound(g) && Acceptable(ImportScene(e, e.nextId, g), g, codec, forest)
    ensures Portable(s, ImportScene(e, e.nextId, g), g, codec)
  {
    hide Sound, UniqueAttributeNames, UniqueAssociationNames, Depicts, ForestApart, DistinctKeys, Shippable, Exportable,
         ValuesSurvive, LinksCarry, TypesExported, SchemaImported, FreshData, LinksInside, Settled, Acceptable, Portable, Carried,
         JsonTextSound, TypesResolved, BasesAgree, ReusedAreSame, TypeNamesDiffer, TargetSound, MembersOf, TypeNames, VersionsOf;
    ImportedIsCarried(d, defs, d.catalogs[c].cvId, b, e, others, types, reuse, text, to, g, created);
    SettledIsSound(e, g);
    PhaseParts(b, e, others, types, reuse, text, to, g, created);
    SoundNames(e);
    MembersAreTyped(d, c, s, kinds);
    SameBases(d, defs, b, e, others);
    CarriedIsPortable(d, defs, c, s, e, others, ImportScene(e, e.nextId, g), g, types, codec);
    ExportIsAcceptable(s, ImportScene(e, e.nextId, g), g, codec, names, forest);
  }

  lemma SameBases(d: Db, defs: DefNames, b: Db, e: Db, others: DefNames)
    requires BasesAgree(d, defs, b, others) && e.typeDefs == b.typeDefs
    ensures BasesAgree(d, defs, e, others)
  {
  }

  lemma PhaseParts(b: Db, e: Db, defs: DefNames, types: seq<ExportType>, reuse: set<string>, text: string, to: Id, g: Target,
                   created: set<string>)
    requires SchemaImported(b, e, defs, types, reuse, text, to, g, created)
    ensures Sound(e) && Settled(e, g) && SchemaAdded(b, e) && e.typeDefs == b.typeDefs && e.catalogs == b.catalogs
  {
    hide Sound, Settled, OldIsFrozen, Covers, LabelTaken, NameOf, TypeNamed, AllLinked, PinsDone;
  }

  /** What was imported is read through the pins as through what the schema phase handed over. */
  lemma ReadThroughPins(b: Db, e: Db, f: Db, defs: DefNames, types: seq<ExportType>, reuse: set<string>, text: string, to: Id,
                        g: Target, created: set<string>, row: Catalog)
    requires Sound(b) && SchemaImported(b, e, defs, types, reuse, text, to, g, created) && text !in reuse && TargetSound(g)
    requires Imported(e, f, row) && row.cvId == to
    ensures e.nextId in f.catalogs && TypesResolved(f, f.catalogs[e.nextId].cvId, TypeNames(g), VersionsOf(g))
    ensures ImportScene(f, e.nextId, g) == SceneOf(f, e.nextId, TypeNames(g), VersionsOf(g))
  {
    hide Sound, SchemaImported, Imported, TypesResolved, TargetSound, TypeNames, VersionsOf, MembersOf, SchemaSame;
    NewPinsResolve(b, e, defs, types, reuse, text, to, g, created);
    ImportedHasSchema(e, f, row);
    ResolvedStill(e, f, to, TypeNames(g), VersionsOf(g));
    ImportSceneIsScene(f, e.nextId, g);
  }

  /** The file: the types of the catalog version, and the instances, read back from what was
      written. */
  method ExportAll(src: Store, codec: TextCodec, c: Id, kinds: map<string, string>, defs: DefNames)
    returns (res: Result<(seq<ExportInstance>, seq<ExportType>)>, ghost s: Scene, ghost names: map<string, Id>)
    requires c in src.catalogs && UniqueAttributeNames(src.attributes) && defs.Keys == src.typeDefs.Keys
    ensures res.Ok? ==>
              && Exportable(src.State(), src.catalogs[c].cvId)
              && TypesResolved(src.State(), src.catalogs[c].cvId, s.typeName, s.versionOf)
              && s == SceneOf(src.State(), c, s.typeName, s.versionOf)
              && TypesExported(src.State(), defs, src.catalogs[c].cvId, res.value.1)
    ensures Exportable(src.State(), src.catalogs[c].cvId) && Shippable(src.State(), c, kinds) ==>
              && res.Ok? && Depicts(s, codec, names, res.value.0) && ForestApart(res.value.0)
              && forall x :: 0 <= x < |res.value.0| ==> DistinctKeys(res.value.0[x])
  {
    hide TypesResolved, Depicts, ForestApart, DistinctKeys, Parse, Marshal, MembersOf, Exportable, UniqueAttributeNames,
         TypesExported, Shippable;
    ghost var forest;
    var schema := ExportSchema(src, defs, src.catalogs[c].cvId);
    var file;
    file, s, names, forest := ExportCatalog(src, codec, c, kinds);
    if schema.Err? {
      return Err(schema.error), s, names;
    }
    var read := ParseExportInstances(file.value, kinds);
    if read.Err? {
      return Err(read.error), s, names;
    }
    if Shippable(src.State(), c, kinds) {
      assert read.value == forest;
    }
    return Ok((read.value, schema.value)), s, names;
  }

  /** A name that is no label or is taken, or an empty version label, is refused at once. Then the
      schema phase and the data phase, two transactions: when the second fails, the first stays. */
  method ImportAll(dst: Store, codec: TextCodec, types: seq<ExportType>, forest: seq<ExportInstance>, others: DefNames,
                   tds: map<string, Id>, reuse: set<string>, text: string, name: string, description: string)
    returns (res: Result<Id>, ghost to: Id, ghost g: Target, ghost created: set<string>, ghost mid: Db, ghost ids: map<string, Id>)
    requires Sound(dst.State()) && FreshData(dst.State()) && LinksInside(dst.State()) && TdsNamed(tds, others)
    modifies dst`catalogs, dst`instances, dst`values, dst`links, dst`types, dst`versions, dst`attributes, dst`associations, dst`pins,
             dst`versionSets, dst`nextId
    ensures !NameOpen(old(dst.catalogs), name) || text == "" ==> res.Err? && dst.State() == old(dst.State())
    ensures (res.Err? && dst.State() == old(dst.State()))
            || (&& SchemaImported(old(dst.State()), mid, others, types, reuse, text, to, g, created)
                && if res.Err? then dst.State() == mid
                   else
                     && res.value == mid.nextId && Imported(mid, dst.State(), Catalog(name, description, to, Draft, false))
                     && Worked(ApplyCatalogStep(mid, NewCatalog(Catalog(name, description, to, Draft, false))), dst.State(), mid.nextId))
    ensures NameOpen(old(dst.catalogs), name) && text != "" && FileFits(old(dst.State()), others, tds, reuse, text, types) ==>
              && SchemaImported(old(dst.State()), mid, others, types, reuse, text, to, g, created) && TargetSound(g)
              && (Acceptable(ImportScene(mid, mid.nextId, g), g, codec, forest) ==>
                    && res == Ok(mid.nextId) && Imported(mid, dst.State(), Catalog(name, description, to, Draft, false))
                    && Depicts(ImportScene(dst.State(), mid.nextId, g), codec, ids, forest))
  {
    hide FreshData, LinksInside, ImportScene, TargetSound, Acceptable, UniqueAttributeNames, UniqueAssociationNames, Sound, TdsNamed,
         SchemaImported, FileFits, Accepted, RowsOf, LinksOf, Depicts, Imported, SchemaAdded, IsDnsLabel, Worked;
    ghost var b := dst.State();
    to, g, created, mid, ids := 0, Target(map[], map[], map[]), {}, b, map[];
    if !IsDnsLabel(name) || text == "" {
      return Err(Rejected), to, g, created, mid, ids;
    }
    var taken := FindCatalog(dst.catalogs, name);
    if taken.Some? {
      return Err(Conflict), to, g, created, mid, ids;
    }
    var put;
    put, created := ImportSchema(dst, types, reuse, text, tds, others);
    if put.Err? {
      return Err(put.error), to, g, created, mid, ids;
    }
    var (cv, target) := put.value;
    to, g, mid := cv, target, dst.State();
    PhaseParts(b, mid, others, types, reuse, text, to, g, created);
    SettledIsSound(mid, g);
    SoundNames(mid);
    SchemaPartKept(b, mid);
    ghost var drawn;
    res, ids, drawn := ImportData(dst, codec, target, name, description, cv, forest);
  }

  /** Export from one store and import into another, schema and data, under a new catalog
      version. A carriable catalog that the other store receives comes across: read through the
      pins of its new version, it is the same up to ids, a draft under the given name. */
  method Transfer(src: Store, dst: Store, codec: TextCodec, c: Id, kinds: map<string, string>, defs: DefNames, others: DefNames,
                  tds: map<string, Id>, reuse: set<string>, text: string, name: string, description: string)
    returns (res: Result<Id>, ghost s: Scene, ghost there: Scene, ghost types: seq<ExportType>, ghost f: map<Id, Id>)
    requires c in src.catalogs && UniqueAttributeNames(src.attributes) && UniqueAssociationNames(src.associations)
    requires defs.Keys == src.typeDefs.Keys && JsonTextSound(codec)
    requires Sound(dst.State()) && FreshData(dst.State()) && LinksInside(dst.State()) && TdsNamed(tds, others)
    modifies dst`catalogs, dst`instances, dst`values, dst`links, dst`types, dst`versions, dst`attributes, dst`associations, dst`pins,
             dst`versionSets, dst`nextId
    ensures Exportable(old(src.State()), old(src.catalogs)[c].cvId) && Shippable(old(src.State()), c, kinds) ==>
              && TypesResolved(old(src.State()), old(src.catalogs)[c].cvId, s.typeName, s.versionOf)
              && s == SceneOf(old(src.State()), c, s.typeName, s.versionOf) && ReadFrom(old(src.State()), c, s)
              && TypesExported(old(src.State()), defs, old(src.catalogs)[c].cvId, types)
    ensures Carriable(old(src.State()), c, s, kinds, codec) && BasesAgree(old(src.State()), defs, old(dst.State()), others)
            && Receives(old(dst.State()), others, tds, reuse, text, types, name) ==>
              && res.Ok? && CameAcross(dst.State(), res.value, s, there, codec, f)
              && dst.catalogs[res.value] == Catalog(name, description, dst.catalogs[res.value].cvId, Draft, false)
  {
    hide TypesResolved, Depicts, ForestApart, DistinctKeys, MembersOf, Exportable, Imported, FreshData, LinksInside, ImportScene,
         TargetSound, Acceptable, SameUpToIds, Renaming, UniqueAttributeNames, UniqueAssociationNames, JsonTextSound, Sound, TdsNamed,
         TypesExported, SchemaImported, Shippable, BasesAgree, FileFits, ReusedAreSame, ValuesSurvive, LinksCarry, TypeNamesDiffer,
         AllHaveHomes, Portable, SchemaSame;
    ghost var d, b := src.State(), dst.State();
    f, types := map[], [];
    ghost var names;
    var file;
    file, s, names := ExportAll(src, codec, c, kinds, defs);
    there := s;
    if file.Err? {
      return Err(file.error), s, there, types, f;
    }
    types := file.value.1;
    SceneParts(d, c, s.typeName, s.versionOf);
    ghost var forest := file.value.0;
    ghost var to, g, created, mid, ids;
    res, to, g, created, mid, ids := ImportAll(dst, codec, file.value.1, file.value.0, others, tds, reuse, text, name, description);
    if Carriable(d, c, s, kinds, codec) && BasesAgree(d, defs, b, others) && Receives(b, others, tds, reuse, text, types, name) {
      FitsMeans(b, others, tds, reuse, text, types);
      CarriedIsAcceptable(d, defs, c, s, names, forest, kinds, b, mid, others, types, reuse, text, to, g, created, codec);
      ReadThroughPins(b, mid, dst.State(), others, types, reuse, text, to, g, created, Catalog(name, description, to, Draft, false));
      ImportedHasSchema(mid, dst.State(), Catalog(name, description, to, Draft, false));
      there := ImportScene(dst.State(), mid.nextId, g);
      DepictedTwice(s, there, codec, names, ids, forest);
      f := Renaming(names, ids);
      SceneParts(dst.State(), mid.nextId, TypeNames(g), VersionsOf(g));
      ArrivedHasHomes(s, mid, dst.State(), g, codec, f, mid.nextId);
    }
  }

  lemma FitsMeans(d: Db, defs: DefNames, tds: map<string, Id>, reuse: set<string>, text: string, types: seq<ExportType>)
    requires FileFits(d, defs, tds, reuse, text, types)
    ensures TypeNamesDiffer(types)
  {
    hide TypeFits, NamesKnown;
  }
}
