/** When an entity type of a file is taken for one that exists: the comparison of an import. */
module SchemaMatch {
  import opened Domain
  import opened Database
  import opened Conformance
  import opened Instances
  import opened SchemaExport

  /** Name, obligation and the name of the type definition. */
  predicate AttributeAlike(d: Db, defs: DefNames, ver: Id, a: Id, x: ExportAttribute) {
    && a in d.attributes && d.attributes[a].versionId == ver && d.attributes[a].name == x.name
    && d.attributes[a].required == x.required
    && d.attributes[a].typeDef in defs && defs[d.attributes[a].typeDef] == x.typeDefinition
  }

  /** Name, kind and the name of the target: not the roles, nor the cardinalities. */
  predicate AssociationAlike(d: Db, ver: Id, s: Id, x: ExportAssociation) {
    && s in d.associations && d.associations[s].versionId == ver && d.associations[s].name == x.name
    && d.associations[s].kind == x.kind
    && d.associations[s].target in d.types && d.types[d.associations[s].target] == x.target
  }

  ghost predicate HasAlike(d: Db, defs: DefNames, ver: Id, x: ExportAttribute) {
    exists a :: AttributeAlike(d, defs, ver, a, x)
  }

  ghost predicate HasAlikeAssociation(d: Db, ver: Id, x: ExportAssociation) {
    exists s :: AssociationAlike(d, ver, s, x)
  }

  /** As many of each, and every one of the file has its like in the version. */
  ghost predicate Identical(d: Db, defs: DefNames, ver: Id, t: ExportType) {
    && |AttributesIn(d, ver)| == |t.attributes| && |AssociationsIn(d, ver)| == |t.associations|
    && (forall x :: 0 <= x < |t.attributes| ==> HasAlike(d, defs, ver, t.attributes[x]))
    && forall y :: 0 <= y < |t.associations| ==> HasAlikeAssociation(d, ver, t.associations[y])
  }

  /** An attribute of the version with the name, the required mark and the type definition. */
  ghost predicate HoldsAttribute(d: Db, defs: DefNames, ver: Id, x: ExportAttribute) {
    exists a :: a in d.attributes && d.attributes[a].versionId == ver && d.attributes[a].name == x.name
                && d.attributes[a].required == x.required && d.attributes[a].typeDef in defs
                && defs[d.attributes[a].typeDef] == x.typeDefinition
  }

  /** An association of the version with the name and kind, to the type named. */
  ghost predicate HoldsAssociation(d: Db, ver: Id, y: ExportAssociation) {
    exists s :: s in d.associations && d.associations[s].versionId == ver && d.associations[s].name == y.name
                && d.associations[s].kind == y.kind && d.associations[s].target in d.types
                && d.types[d.associations[s].target] == y.target
  }

  /** In terms of the tables: as many of each, and each of the file is held. */
  lemma IdenticalMeans(d: Db, defs: DefNames, ver: Id, t: ExportType)
    ensures Identical(d, defs, ver, t) <==>
              && |set a | a in d.attributes && d.attributes[a].versionId == ver| == |t.attributes|
              && |set s | s in d.associations && d.associations[s].versionId == ver| == |t.associations|
              && (forall x :: 0 <= x < |t.attributes| ==> HoldsAttribute(d, defs, ver, t.attributes[x]))
              && forall y :: 0 <= y < |t.associations| ==> HoldsAssociation(d, ver, t.associations[y])
  {
    hide HasAlike, HasAlikeAssociation, HoldsAttribute, HoldsAssociation;
    assert (set a | a in d.attributes && d.attributes[a].versionId == ver) == AttributesIn(d, ver);
    assert (set s | s in d.associations && d.associations[s].versionId == ver) == AssociationsIn(d, ver);
    forall x | 0 <= x < |t.attributes|
      ensures HasAlike(d, defs, ver, t.attributes[x]) <==> HoldsAttribute(d, defs, ver, t.attributes[x])
    {
      AttributeHeld(d, defs, ver, t.attributes[x]);
    }
    forall y | 0 <= y < |t.associations|
      ensures HasAlikeAssociation(d, ver, t.associations[y]) <==> HoldsAssociation(d, ver, t.associations[y])
    {
      AssociationHeld(d, ver, t.associations[y]);
    }
  }

  lemma AttributeHeld(d: Db, defs: DefNames, ver: Id, x: ExportAttribute)
    ensures HasAlike(d, defs, ver, x) <==> HoldsAttribute(d, defs, ver, x)
  {
    if a :| a in d.attributes && d.attributes[a].versionId == ver && d.attributes[a].name == x.name
            && d.attributes[a].required == x.required && d.attributes[a].typeDef in defs
            && defs[d.attributes[a].typeDef] == x.typeDefinition {
      assert AttributeAlike(d, defs, ver, a, x);
    }
  }

  lemma AssociationHeld(d: Db, ver: Id, y: ExportAssociation)
    ensures HasAlikeAssociation(d, ver, y) <==> HoldsAssociation(d, ver, y)
  {
    if s :| s in d.associations && d.associations[s].versionId == ver && d.associations[s].name == y.name
            && d.associations[s].kind == y.kind && d.associations[s].target in d.types
            && d.types[d.associations[s].target] == y.target {
      assert AssociationAlike(d, ver, s, y);
    }
  }

  method IsIdentical(db: Store, defs: DefNames, ver: Id, t: ExportType) returns (same: bool)
    ensures same <==> Identical(db.State(), defs, ver, t)
  {
    hide AttributeAlike, AssociationAlike;
    if |AttributesIn(db.State(), ver)| != |t.attributes| || |AssociationsIn(db.State(), ver)| != |t.associations| {
      return false;
    }
    for x := 0 to |t.attributes|
      invariant forall y :: 0 <= y < x ==> HasAlike(db.State(), defs, ver, t.attributes[y])
    {
      var found := FindAlike(db, defs, ver, t.attributes[x]);
      if !found {
        return false;
      }
    }
    for x := 0 to |t.associations|
      invariant forall y :: 0 <= y < x ==> HasAlikeAssociation(db.State(), ver, t.associations[y])
    {
      var found := FindAlikeAssociation(db, ver, t.associations[x]);
      if !found {
        return false;
      }
    }
    return true;
  }

  method FindAlike(db: Store, defs: DefNames, ver: Id, x: ExportAttribute) returns (found: bool)
    ensures found <==> HasAlike(db.State(), defs, ver, x)
  {
    if a :| a in db.attributes && AttributeAlike(db.State(), defs, ver, a, x) {
      return true;
    }
    return false;
  }

  method FindAlikeAssociation(db: Store, ver: Id, x: ExportAssociation) returns (found: bool)
    ensures found <==> HasAlikeAssociation(db.State(), ver, x)
  {
    if s :| s in db.associations && AssociationAlike(db.State(), ver, s, x) {
      return true;
    }
    return false;
  }

  predicate AttributeNamesDiffer(attributes: seq<ExportAttribute>) {
    forall x, y :: 0 <= x < y < |attributes| ==> attributes[x].name != attributes[y].name
  }

  predicate AssociationNamesDiffer(associations: seq<ExportAssociation>) {
    forall x, y :: 0 <= x < y < |associations| ==> associations[x].name != associations[y].name
  }

  /** Each of the version has its like in the file, too. */
  ghost predicate Covered(d: Db, defs: DefNames, ver: Id, t: ExportType) {
    && (forall a :: a in AttributesIn(d, ver) ==> exists x :: 0 <= x < |t.attributes| && AttributeAlike(d, defs, ver, a, t.attributes[x]))
    && forall s :: s in AssociationsIn(d, ver) ==>
         exists x :: 0 <= x < |t.associations| && AssociationAlike(d, ver, s, t.associations[x])
  }

  /** Counting and looking one way is enough: an identical version holds nothing else. */
  lemma IdenticalIsCovered(d: Db, defs: DefNames, ver: Id, t: ExportType)
    requires Identical(d, defs, ver, t) && AttributeNamesDiffer(t.attributes) && AssociationNamesDiffer(t.associations)
    ensures Covered(d, defs, ver, t)
  {
    var ids := PickAlike(d, defs, ver, t.attributes, |t.attributes|);
    EnoughAreAll(AttributesIn(d, ver), ids);
    var links := PickAlikeAssociations(d, ver, t.associations, |t.associations|);
    EnoughAreAll(AssociationsIn(d, ver), links);
    forall a | a in AttributesIn(d, ver)
      ensures exists x :: 0 <= x < |t.attributes| && AttributeAlike(d, defs, ver, a, t.attributes[x])
    {
      assert a in ids;
    }
    forall s | s in AssociationsIn(d, ver)
      ensures exists x :: 0 <= x < |t.associations| && AssociationAlike(d, ver, s, t.associations[x])
    {
      assert s in links;
    }
  }

  lemma {:induction false} PickAlike(d: Db, defs: DefNames, ver: Id, attributes: seq<ExportAttribute>, n: nat) returns (ids: seq<Id>)
    requires n <= |attributes| && AttributeNamesDiffer(attributes)
    requires forall x :: 0 <= x < n ==> HasAlike(d, defs, ver, attributes[x])
    ensures |ids| == n && Distinct(ids) && forall x :: 0 <= x < n ==> AttributeAlike(d, defs, ver, ids[x], attributes[x])
  {
    ids := [];
    if n > 0 {
      ids := PickAlike(d, defs, ver, attributes, n - 1);
      var a :| AttributeAlike(d, defs, ver, a, attributes[n - 1]);
      ids := ids + [a];
    }
  }

  lemma {:induction false} PickAlikeAssociations(d: Db, ver: Id, associations: seq<ExportAssociation>, n: nat) returns (ids: seq<Id>)
    requires n <= |associations| && AssociationNamesDiffer(associations)
    requires forall x :: 0 <= x < n ==> HasAlikeAssociation(d, ver, associations[x])
    ensures |ids| == n && Distinct(ids) && forall x :: 0 <= x < n ==> AssociationAlike(d, ver, ids[x], associations[x])
  {
    ids := [];
    if n > 0 {
      ids := PickAlikeAssociations(d, ver, associations, n - 1);
      var s :| AssociationAlike(d, ver, s, associations[n - 1]);
      ids := ids + [s];
    }
  }

  /** A version is identical to what is exported of it, and its names differ. */
  lemma ShownIsIdentical(d: Db, defs: DefNames, ver: Id, t: ExportType)
    requires UniqueAttributeNames(d.attributes) && UniqueAssociationNames(d.associations)
    requires AttributesShown(d, defs, ver, t.attributes) && AssociationsShown(d, ver, t.associations)
    ensures Identical(d, defs, ver, t) && AttributeNamesDiffer(t.attributes) && AssociationNamesDiffer(t.associations)
  {
    AttributesAreAlike(d, defs, ver, t.attributes);
    AssociationsAreAlike(d, ver, t.associations);
  }

  lemma AttributesAreAlike(d: Db, defs: DefNames, ver: Id, out: seq<ExportAttribute>)
    requires UniqueAttributeNames(d.attributes) && AttributesShown(d, defs, ver, out)
    ensures |AttributesIn(d, ver)| == |out| && AttributeNamesDiffer(out)
    ensures forall x :: 0 <= x < |out| ==> HasAlike(d, defs, ver, out[x])
  {
    var ids :| Lists(AttributesIn(d, ver), ids) && |ids| == |out|
               && forall x :: 0 <= x < |out| ==> ShowsAttribute(d, defs, ids[x], out[x]);
    ListedCount(AttributesIn(d, ver), ids);
    forall x | 0 <= x < |out|
      ensures AttributeAlike(d, defs, ver, ids[x], out[x])
    {
      assert ids[x] in AttributesIn(d, ver);
    }
    forall x, y | 0 <= x < y < |out|
      ensures out[x].name != out[y].name
    {
      assert ids[x] in AttributesIn(d, ver) && ids[y] in AttributesIn(d, ver) && ids[x] != ids[y];
      assert !SameSlot(d.attributes[ids[x]], d.attributes[ids[y]]);
    }
  }

  lemma AssociationsAreAlike(d: Db, ver: Id, out: seq<ExportAssociation>)
    requires UniqueAssociationNames(d.associations) && AssociationsShown(d, ver, out)
    ensures |AssociationsIn(d, ver)| == |out| && AssociationNamesDiffer(out)
    ensures forall x :: 0 <= x < |out| ==> HasAlikeAssociation(d, ver, out[x])
  {
    var ids :| Lists(AssociationsIn(d, ver), ids) && |ids| == |out|
               && forall x :: 0 <= x < |out| ==> ShowsAssociation(d, ids[x], out[x]);
    ListedCount(AssociationsIn(d, ver), ids);
    forall x | 0 <= x < |out|
      ensures AssociationAlike(d, ver, ids[x], out[x])
    {
      assert ids[x] in AssociationsIn(d, ver);
    }
    forall x, y | 0 <= x < y < |out|
      ensures out[x].name != out[y].name
    {
      assert ids[x] in AssociationsIn(d, ver) && ids[y] in AssociationsIn(d, ver) && ids[x] != ids[y];
      assert !SameAssocSlot(d.associations[ids[x]], d.associations[ids[y]]);
    }
  }

  /** A type whose children are at most one each, and the same type with any number of them. */
  ghost const BOUNDED := Db(
    map[], map[], map[], map[], map[], map[], [], map[10 := "T"], map[11 := TypeVersion(10, 1, "")],
    map[], map[20 := Association(11, "parts", 10, Directional, "", "", "0..n", "0..1")], map[], map[], 100)

  const UNBOUNDED := ExportType("T", "", [], [ExportAssociation("parts", Directional, "T", "0..n", "0..n", "", "")])

  /** The comparison passes over cardinalities: what is valid where it was exported can break a
      rule of the type it is imported under. */
  lemma CardinalityIsPassedOver()
    ensures Identical(BOUNDED, map[], 11, UNBOUNDED)
    ensures !AssociationsShown(BOUNDED, 11, UNBOUNDED.associations)
  {
    assert AttributesIn(BOUNDED, 11) == {} && AssociationsIn(BOUNDED, 11) == {20};
    assert AssociationAlike(BOUNDED, 11, 20, UNBOUNDED.associations[0]);
  }
}
