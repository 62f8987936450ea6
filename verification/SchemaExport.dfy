/** The schema part of an export file: the entity types a catalog version pins, by name, with
    what their versions hold. Type definitions are referred to by name. */
module SchemaExport {
  import opened Domain
  import opened Database
  import opened Conformance
  import opened Instances
  import opened RoundTrip
  import CatalogVersions

  datatype ExportAttribute = ExportAttribute(
    name: string, typeDefinition: string, required: bool, ordinal: int, description: string)

  datatype ExportAssociation = ExportAssociation(
    name: string, kind: AssociationKind, target: string,
    sourceCardinality: string, targetCardinality: string, sourceRole: string, targetRole: string)

  datatype ExportType = ExportType(
    name: string, description: string, attributes: seq<ExportAttribute>, associations: seq<ExportAssociation>)

  /** The name of the type definition that each type definition version is of. */
  type DefNames = map<Id, string>

  // ---- what a version holds ----

  function AttributesIn(d: Db, ver: Id): set<Id> {
    set a | a in d.attributes && d.attributes[a].versionId == ver
  }

  function AssociationsIn(d: Db, ver: Id): set<Id> {
    set s | s in d.associations && d.associations[s].versionId == ver
  }

  ghost predicate Lists(all: set<Id>, ids: seq<Id>) {
    Distinct(ids) && forall a :: a in ids <==> a in all
  }

  lemma {:induction false} ListedCount(all: set<Id>, ids: seq<Id>)
    requires Lists(all, ids)
    ensures |ids| == |all|
    decreases |ids|
  {
    if ids != [] {
      var last := ids[|ids| - 1];
      var rest := ids[..|ids| - 1];
      assert ids == rest + [last];
      ListedCount(all - {last}, rest);
      assert |all| == |all - {last}| + 1;
    } else {
      assert all == {};
    }
  }

  /** As many different members as there are: all of them. */
  lemma {:induction false} EnoughAreAll(all: set<Id>, ids: seq<Id>)
    requires Distinct(ids) && |ids| == |all| && forall a :: a in ids ==> a in all
    ensures Lists(all, ids)
  {
    var some := set a | a in ids;
    ListedCount(some, ids);
    if some < all {
      SmallerSize(some, all);
    }
    assert some == all;
  }

  lemma SmallerSize(some: set<Id>, all: set<Id>)
    requires some <= all
    ensures |some| <= |all| && (|some| == |all| ==> some == all)
  {
    assert |all| == |some| + |all - some|;
    if |some| == |all| {
      assert all - some == {};
    }
  }

  function AttributeShown(a: Attribute, def: string): ExportAttribute {
    ExportAttribute(a.name, def, a.required, a.ordinal, a.description)
  }

  function AssociationShown(s: Association, target: string): ExportAssociation {
    ExportAssociation(s.name, s.kind, target, s.sourceCardinality, s.targetCardinality, s.sourceRole, s.targetRole)
  }

  predicate ShowsAttribute(d: Db, defs: DefNames, a: Id, x: ExportAttribute) {
    a in d.attributes && d.attributes[a].typeDef in defs && x == AttributeShown(d.attributes[a], defs[d.attributes[a].typeDef])
  }

  predicate ShowsAssociation(d: Db, s: Id, x: ExportAssociation) {
    s in d.associations && d.associations[s].target in d.types
    && x == AssociationShown(d.associations[s], d.types[d.associations[s].target])
  }

  /** Entry for attribute, each once. */
  ghost predicate AttributesShown(d: Db, defs: DefNames, ver: Id, out: seq<ExportAttribute>) {
    exists ids :: Lists(AttributesIn(d, ver), ids) && |ids| == |out|
                  && forall x :: 0 <= x < |out| ==> ShowsAttribute(d, defs, ids[x], out[x])
  }

  ghost predicate AssociationsShown(d: Db, ver: Id, out: seq<ExportAssociation>) {
    exists ids :: Lists(AssociationsIn(d, ver), ids) && |ids| == |out|
                  && forall x :: 0 <= x < |out| ==> ShowsAssociation(d, ids[x], out[x])
  }

  /** The exported type is the version, whole. */
  ghost predicate ShowsVersion(d: Db, defs: DefNames, ver: Id, t: ExportType) {
    && ver in d.versions && d.versions[ver].typeId in d.types && t.name == d.types[d.versions[ver].typeId]
    && t.description == d.versions[ver].description
    && AttributesShown(d, defs, ver, t.attributes) && AssociationsShown(d, ver, t.associations)
  }

  lemma AttributeEntryOf(d: Db, defs: DefNames, ver: Id, out: seq<ExportAttribute>, a: Id) returns (y: nat)
    requires AttributesShown(d, defs, ver, out) && a in d.attributes && d.attributes[a].versionId == ver
    ensures y < |out| && ShowsAttribute(d, defs, a, out[y])
  {
    var ids :| Lists(AttributesIn(d, ver), ids) && |ids| == |out| && forall x :: 0 <= x < |out| ==> ShowsAttribute(d, defs, ids[x], out[x]);
    assert a in AttributesIn(d, ver);
    y :| y < |ids| && ids[y] == a;
  }

  lemma AttributeOfEntry(d: Db, defs: DefNames, ver: Id, out: seq<ExportAttribute>, y: nat) returns (a: Id)
    requires AttributesShown(d, defs, ver, out) && y < |out|
    ensures a in d.attributes && d.attributes[a].versionId == ver && ShowsAttribute(d, defs, a, out[y])
  {
    var ids :| Lists(AttributesIn(d, ver), ids) && |ids| == |out| && forall x :: 0 <= x < |out| ==> ShowsAttribute(d, defs, ids[x], out[x]);
    a := ids[y];
    assert a in AttributesIn(d, ver);
  }

  lemma EntryOf(d: Db, ver: Id, out: seq<ExportAssociation>, s: Id) returns (y: nat)
    requires AssociationsShown(d, ver, out) && s in d.associations && d.associations[s].versionId == ver
    ensures y < |out| && ShowsAssociation(d, s, out[y])
  {
    var ids :| Lists(AssociationsIn(d, ver), ids) && |ids| == |out| && forall x :: 0 <= x < |out| ==> ShowsAssociation(d, ids[x], out[x]);
    assert s in AssociationsIn(d, ver);
    y :| y < |ids| && ids[y] == s;
  }

  lemma AssociationShownAt(d: Db, ver: Id, out: seq<ExportAssociation>, y: nat) returns (s: Id)
    requires AssociationsShown(d, ver, out) && y < |out|
    ensures s in d.associations && d.associations[s].versionId == ver && ShowsAssociation(d, s, out[y])
  {
    var ids :| Lists(AssociationsIn(d, ver), ids) && |ids| == |out| && forall x :: 0 <= x < |out| ==> ShowsAssociation(d, ids[x], out[x]);
    s := ids[y];
    assert s in AssociationsIn(d, ver);
  }

  // ---- writing it ----

  method ExportAttributes(db: Store, defs: DefNames, ver: Id) returns (res: Result<seq<ExportAttribute>>)
    ensures res.Ok? ==> AttributesShown(db.State(), defs, ver, res.value)
    ensures res.Err? <==> exists a :: a in AttributesIn(db.State(), ver) && db.attributes[a].typeDef !in defs
  {
    var todo := set a | a in db.attributes && db.attributes[a].versionId == ver;
    var out: seq<ExportAttribute> := [];
    ghost var ids: seq<Id> := [];
    while todo != {}
      invariant todo <= AttributesIn(db.State(), ver) && Lists(AttributesIn(db.State(), ver) - todo, ids) && |ids| == |out|
      invariant forall x :: 0 <= x < |out| ==> ShowsAttribute(db.State(), defs, ids[x], out[x])
      decreases todo
    {
      var a :| a in todo;
      if db.attributes[a].typeDef !in defs {
        return Err(NotFound);
      }
      out := out + [AttributeShown(db.attributes[a], defs[db.attributes[a].typeDef])];
      OneMoreListed(AttributesIn(db.State(), ver), todo, ids, a);
      ids, todo := ids + [a], todo - {a};
    }
    NoneLeft(AttributesIn(db.State(), ver), todo);
    forall a | a in AttributesIn(db.State(), ver)
      ensures db.attributes[a].typeDef in defs
    {
      assert a in ids;
      var x :| 0 <= x < |ids| && ids[x] == a;
      assert ShowsAttribute(db.State(), defs, ids[x], out[x]);
    }
    return Ok(out);
  }

  lemma OneMoreListed(all: set<Id>, todo: set<Id>, ids: seq<Id>, a: Id)
    requires Lists(all - todo, ids) && a in todo && todo <= all
    ensures Lists(all - (todo - {a}), ids + [a])
  {
  }

  lemma NoneLeft(all: set<Id>, todo: set<Id>)
    requires todo == {}
    ensures all - todo == all
  {
  }

  method ExportAssociations(db: Store, ver: Id) returns (res: Result<seq<ExportAssociation>>)
    ensures res.Ok? ==> AssociationsShown(db.State(), ver, res.value)
    ensures res.Err? <==> exists s :: s in AssociationsIn(db.State(), ver) && db.associations[s].target !in db.types
  {
    var todo := set s | s in db.associations && db.associations[s].versionId == ver;
    var out: seq<ExportAssociation> := [];
    ghost var ids: seq<Id> := [];
    while todo != {}
      invariant todo <= AssociationsIn(db.State(), ver) && Lists(AssociationsIn(db.State(), ver) - todo, ids) && |ids| == |out|
      invariant forall x :: 0 <= x < |out| ==> ShowsAssociation(db.State(), ids[x], out[x])
      decreases todo
    {
      var s :| s in todo;
      if db.associations[s].target !in db.types {
        return Err(NotFound);
      }
      out := out + [AssociationShown(db.associations[s], db.types[db.associations[s].target])];
      OneMoreListed(AssociationsIn(db.State(), ver), todo, ids, s);
      ids, todo := ids + [s], todo - {s};
    }
    NoneLeft(AssociationsIn(db.State(), ver), todo);
    forall s | s in AssociationsIn(db.State(), ver)
      ensures db.associations[s].target in db.types
    {
      assert s in ids;
      var x :| 0 <= x < |ids| && ids[x] == s;
      assert ShowsAssociation(db.State(), ids[x], out[x]);
    }
    return Ok(out);
  }

  ghost predicate ShownSomewhere(d: Db, defs: DefNames, ver: Id, types: seq<ExportType>) {
    exists x :: 0 <= x < |types| && ShowsVersion(d, defs, ver, types[x])
  }

  /** Every pinned version is exported, and nothing else. */
  ghost predicate TypesExported(d: Db, defs: DefNames, cv: Id, types: seq<ExportType>) {
    && (forall ver {:trigger PinnedVersion(d, cv, ver)} :: PinnedVersion(d, cv, ver) ==> ShownSomewhere(d, defs, ver, types))
    && forall x :: 0 <= x < |types| ==> ShowsAPin(d, defs, cv, types[x])
  }

  ghost predicate ShowsAPin(d: Db, defs: DefNames, cv: Id, t: ExportType) {
    exists ver :: PinnedVersion(d, cv, ver) && ShowsVersion(d, defs, ver, t)
  }

  method ExportVersion(db: Store, defs: DefNames, ver: Id) returns (res: Result<ExportType>)
    requires ver in db.versions && db.versions[ver].typeId in db.types && defs.Keys == db.typeDefs.Keys
    ensures res.Ok? ==> ShowsVersion(db.State(), defs, ver, res.value)
    ensures res.Err? <==> VersionDangles(db.State(), ver)
  {
    hide AttributesShown, AssociationsShown;
    var attributes := ExportAttributes(db, defs, ver);
    if attributes.Err? {
      return Err(attributes.error);
    }
    var associations := ExportAssociations(db, ver);
    if associations.Err? {
      return Err(associations.error);
    }
    return Ok(ExportType(db.types[db.versions[ver].typeId], db.versions[ver].description, attributes.value, associations.value));
  }

  ghost predicate VersionDangles(d: Db, ver: Id) {
    || (exists a :: a in AttributesIn(d, ver) && d.attributes[a].typeDef !in d.typeDefs)
    || (exists s :: s in AssociationsIn(d, ver) && d.associations[s].target !in d.types)
  }

  lemma DanglesWhenPinned(d: Db, cv: Id, ver: Id)
    requires PinnedVersion(d, cv, ver)
    ensures VersionDangles(d, ver) ==> !Exportable(d, cv)
  {
    if a :| a in AttributesIn(d, ver) && d.attributes[a].typeDef !in d.typeDefs {
      assert DanglingAttribute(d, cv, a);
    }
    if s :| s in AssociationsIn(d, ver) && d.associations[s].target !in d.types {
      assert DanglingAssociation(d, cv, s);
    }
  }

  lemma NothingDangles(d: Db, cv: Id)
    requires forall p :: !DanglingPin(d, cv, p)
    requires forall ver {:trigger PinnedVersion(d, cv, ver)} :: PinnedVersion(d, cv, ver) ==> !VersionDangles(d, ver)
    ensures Exportable(d, cv)
  {
    forall a | a in d.attributes && PinnedVersion(d, cv, d.attributes[a].versionId)
      ensures d.attributes[a].typeDef in d.typeDefs
    {
      assert a in AttributesIn(d, d.attributes[a].versionId);
    }
    forall s | s in d.associations && PinnedVersion(d, cv, d.associations[s].versionId)
      ensures d.associations[s].target in d.types
    {
      assert s in AssociationsIn(d, d.associations[s].versionId);
    }
  }

  lemma ShownStill(d: Db, defs: DefNames, ver: Id, types: seq<ExportType>, t: ExportType)
    ensures ShownSomewhere(d, defs, ver, types) ==> ShownSomewhere(d, defs, ver, types + [t])
    ensures ShowsVersion(d, defs, ver, t) ==> ShownSomewhere(d, defs, ver, types + [t])
  {
    hide ShowsVersion;
    if x :| 0 <= x < |types| && ShowsVersion(d, defs, ver, types[x]) {
      assert (types + [t])[x] == types[x];
    }
    assert (types + [t])[|types|] == t;
  }

  ghost predicate PinShown(d: Db, defs: DefNames, cv: Id, p: Id, types: seq<ExportType>) {
    && p in d.pins && d.pins[p].cvId == cv && PinnedVersion(d, cv, d.pins[p].versionId)
    && ShownSomewhere(d, defs, d.pins[p].versionId, types) && !VersionDangles(d, d.pins[p].versionId) && !DanglingPin(d, cv, p)
  }

  predicate TypeNamesDiffer(types: seq<ExportType>) {
    forall x, y :: 0 <= x < y < |types| ==> types[x].name != types[y].name
  }

  /** The types are those of the pins, pin by pin. */
  ghost predicate FromPins(d: Db, defs: DefNames, cv: Id, pins: seq<Id>, types: seq<ExportType>) {
    && |pins| == |types| && Distinct(pins)
    && forall x :: 0 <= x < |pins| ==>
         && pins[x] in d.pins && d.pins[pins[x]].cvId == cv
         && ShowsVersion(d, defs, d.pins[pins[x]].versionId, types[x])
  }

  lemma NextPinShown(d: Db, defs: DefNames, cv: Id, pins: seq<Id>, types: seq<ExportType>, p: Id, t: ExportType)
    requires FromPins(d, defs, cv, pins, types) && p !in pins && p in d.pins && d.pins[p].cvId == cv
    requires ShowsVersion(d, defs, d.pins[p].versionId, t)
    ensures FromPins(d, defs, cv, pins + [p], types + [t])
  {
    hide ShowsVersion;
  }

  /** One pin for an entity type, one name for an entity type: no name is exported twice. */
  lemma PinnedNamesDiffer(d: Db, defs: DefNames, cv: Id, pins: seq<Id>, types: seq<ExportType>)
    requires FromPins(d, defs, cv, pins, types) && CatalogVersions.PinsDistinct(d) && UniqueTypeNames(d)
    ensures TypeNamesDiffer(types)
  {
    hide AttributesShown, AssociationsShown;
    forall x, y | 0 <= x < y < |types|
      ensures types[x].name != types[y].name
    {
      assert pins[x] != pins[y];
      assert !CatalogVersions.SamePinned(d, pins[x], pins[y]);
    }
  }

  /** The types of all pins. It fails when something a pinned version refers to is missing. */
  method ExportSchema(db: Store, defs: DefNames, cv: Id) returns (res: Result<seq<ExportType>>)
    requires defs.Keys == db.typeDefs.Keys
    ensures res.Ok? <==> Exportable(db.State(), cv)
    ensures res.Ok? ==> TypesExported(db.State(), defs, cv, res.value)
    ensures res.Ok? && CatalogVersions.PinsDistinct(db.State()) && UniqueTypeNames(db.State()) ==> TypeNamesDiffer(res.value)
  {
    hide ShowsVersion, VersionDangles, Exportable, ShownSomewhere, CatalogVersions.PinsDistinct, UniqueTypeNames, TypeNamesDiffer,
         FromPins;
    var all := set p | p in db.pins && db.pins[p].cvId == cv;
    var todo := all;
    var out: seq<ExportType> := [];
    ghost var pins: seq<Id> := [];
    assert FromPins(db.State(), defs, cv, pins, out) by {
      NoPinsYet(db.State(), defs, cv);
    }
    while todo != {}
      invariant todo <= all && FromPins(db.State(), defs, cv, pins, out) && forall p :: p in pins ==> p in all - todo
      invariant forall p :: p in all - todo ==> PinShown(db.State(), defs, cv, p, out)
      invariant forall x :: 0 <= x < |out| ==> ShowsAPin(db.State(), defs, cv, out[x])
      decreases todo
    {
      var p :| p in todo;
      var ver := db.pins[p].versionId;
      if ver !in db.versions || db.versions[ver].typeId !in db.types {
        PinDangles(db.State(), cv, p);
        return Err(NotFound);
      }
      assert db.pins[p] == Pin(cv, ver);
      DanglesWhenPinned(db.State(), cv, ver);
      var t := ExportVersion(db, defs, ver);
      if t.Err? {
        return Err(t.error);
      }
      forall q | q in all - todo
        ensures PinShown(db.State(), defs, cv, q, out + [t.value])
      {
        ShownStill(db.State(), defs, db.pins[q].versionId, out, t.value);
      }
      ShownStill(db.State(), defs, ver, out, t.value);
      assert ShowsAPin(db.State(), defs, cv, t.value);
      NextPinShown(db.State(), defs, cv, pins, out, p, t.value);
      out, pins, todo := out + [t.value], pins + [p], todo - {p};
    }
    AllPinsShown(db.State(), defs, cv, out, all);
    if CatalogVersions.PinsDistinct(db.State()) && UniqueTypeNames(db.State()) {
      PinnedNamesDiffer(db.State(), defs, cv, pins, out);
    }
    return Ok(out);
  }

  lemma NoPinsYet(d: Db, defs: DefNames, cv: Id)
    ensures FromPins(d, defs, cv, [], [])
  {
  }

  lemma PinDangles(d: Db, cv: Id, p: Id)
    requires DanglingPin(d, cv, p)
    ensures !Exportable(d, cv)
  {
  }

  lemma AllPinsShown(d: Db, defs: DefNames, cv: Id, types: seq<ExportType>, all: set<Id>)
    requires all == set p | p in d.pins && d.pins[p].cvId == cv
    requires forall p :: p in all ==> PinShown(d, defs, cv, p, types)
    requires forall x :: 0 <= x < |types| ==> ShowsAPin(d, defs, cv, types[x])
    ensures TypesExported(d, defs, cv, types) && Exportable(d, cv)
  {
    hide ShowsVersion, VersionDangles, ShownSomewhere, Exportable;
    forall ver | PinnedVersion(d, cv, ver)
      ensures ShownSomewhere(d, defs, ver, types) && !VersionDangles(d, ver)
    {
      var p :| p in d.pins && d.pins[p] == Pin(cv, ver);
      assert PinShown(d, defs, cv, p, types);
    }
    assert forall p :: DanglingPin(d, cv, p) ==> p in all;
    NothingDangles(d, cv);
  }
}
