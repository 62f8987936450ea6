/** The copy-on-write machinery: the latest version of an entity type, the bulk copies of its
    rows, and edits of the rows just copied. */
module CopyOnWrite {
  import opened Domain
  import opened Database
  import opened DataSteps
  import opened Instances
  import opened SchemaHistory
  import opened Partition

  /** The unique indexes of the schema tables, and fresh ids. */
  ghost predicate Indexed(d: Db) {
    FreshSchema(d) && UniqueAttributeNames(d.attributes) && UniqueAssociationNames(d.associations)
  }

  method GetLatest(db: Store, typeId: Id) returns (res: Result<Id>)
    ensures res.Ok? ==> IsLatest(db.State(), typeId, res.value)
    ensures res.Err? ==> res.error == NotFound
    ensures res.Err? <==> forall v :: v in db.versions ==> db.versions[v].typeId != typeId
  {
    var all := set v | v in db.versions && db.versions[v].typeId == typeId;
    if all == {} {
      forall v | v in db.versions
        ensures db.versions[v].typeId != typeId
      {
        assert v !in all;
      }
      return Err(NotFound);
    }
    var best :| best in all;
    var todo := all - {best};
    while todo != {}
      invariant todo <= all && best in all
      invariant forall v :: v in all - todo ==> db.versions[v].version <= db.versions[best].version
      decreases todo
    {
      var v :| v in todo;
      if db.versions[v].version > db.versions[best].version {
        best := v;
      }
      todo := todo - {v};
    }
    assert forall v :: v in db.versions && db.versions[v].typeId == typeId ==> v in all;
    return Ok(best);
  }

  // ---- bulk copies ----

  /** The rows listed, once more, each stamped and under a fresh id. */
  ghost predicate Copied<R>(rows: map<Id, R>, from: set<Id>, first: Id, stamp: R -> R, out: map<Id, R>, next: Id,
                            ids: map<Id, Id>) {
    && from <= rows.Keys && ids.Keys == from && first <= next
    && (forall x :: x in rows ==> x in out && out[x] == rows[x])
    && (forall y :: y in from ==> ids[y] !in rows && ids[y] in out && out[ids[y]] == stamp(rows[y]))
    && (forall x :: x in out && x !in rows ==> first <= x < next && exists y :: y in ids && ids[y] == x)
    && (forall y, z :: y in ids && z in ids && ids[y] == ids[z] ==> y == z)
  }

  method BulkCopy<R>(rows: map<Id, R>, from: set<Id>, first: Id, stamp: R -> R)
    returns (out: map<Id, R>, next: Id, ghost ids: map<Id, Id>)
    requires from <= rows.Keys && forall x :: x in rows ==> x < first
    ensures Copied(rows, from, first, stamp, out, next, ids)
  {
    hide Copied, Split;
    out, next, ids := rows, first, map[];
    NothingCopied(rows, first, stamp);
    var todo := from;
    ghost var done: set<Id> := {};
    SplitEnds(done, from);
    while todo != {}
      invariant Split(done, todo, from)
      invariant Copied(rows, done, first, stamp, out, next, ids) && first <= next
      decreases todo
    {
      var y :| y in todo;
      SplitMoves(done, todo, from, y);
      CopyOneMore(rows, done, first, stamp, out, next, ids, y);
      out, ids := out[next := stamp(rows[y])], ids[y := next];
      next := next + 1;
      todo, done := todo - {y}, done + {y};
    }
    SplitEnds(done, from);
  }

  lemma NothingCopied<R>(rows: map<Id, R>, first: Id, stamp: R -> R)
    ensures Copied(rows, {}, first, stamp, rows, first, map[])
  {
  }

  lemma CopyOneMore<R>(rows: map<Id, R>, done: set<Id>, first: Id, stamp: R -> R, out: map<Id, R>, next: Id,
                       ids: map<Id, Id>, y: Id)
    requires Copied(rows, done, first, stamp, out, next, ids) && y in rows && y !in done
    requires forall x :: x in rows ==> x < first
    ensures Copied(rows, done + {y}, first, stamp, out[next := stamp(rows[y])], next + 1, ids[y := next])
  {
    var more, moreIds := out[next := stamp(rows[y])], ids[y := next];
    forall x | x in more && x !in rows
      ensures first <= x < next + 1 && exists z :: z in moreIds && moreIds[z] == x
    {
      if x == next {
        assert y in moreIds;
      } else {
        var z :| z in ids && ids[z] == x;
        assert z in moreIds;
      }
    }
  }

  function AttrIds(attributes: map<Id, Attribute>, ver: Id): set<Id> {
    set a | a in attributes && attributes[a].versionId == ver
  }

  function AssocIds(associations: map<Id, Association>, ver: Id): set<Id> {
    set s | s in associations && associations[s].versionId == ver
  }

  ghost predicate AttributesCopied(attributes: map<Id, Attribute>, from: Id, ver: Id, first: Id, out: map<Id, Attribute>, next: Id) {
    && first <= next && AttrsOf(out, ver) == AttrsOf(attributes, from) && UniqueAttributeNames(out)
    && (forall a :: a in attributes ==> a in out && out[a] == attributes[a])
    && forall a :: a in out && a !in attributes ==> out[a].versionId == ver && first <= a < next
  }

  ghost predicate AssociationsCopied(associations: map<Id, Association>, from: Id, ver: Id, first: Id, out: map<Id, Association>,
                                     next: Id) {
    && first <= next && AssocsOf(out, ver) == AssocsOf(associations, from) && UniqueAssociationNames(out)
    && (forall s :: s in associations ==> s in out && out[s] == associations[s])
    && forall s :: s in out && s !in associations ==> out[s].versionId == ver && first <= s < next
  }

  /** What the copies of one version's attributes are. */
  lemma CopiedAttributes(attributes: map<Id, Attribute>, from: Id, ver: Id, first: Id, out: map<Id, Attribute>, next: Id, ids: map<Id, Id>)
    requires UniqueAttributeNames(attributes) && forall a :: a in attributes ==> attributes[a].versionId != ver
    requires Copied(attributes, AttrIds(attributes, from), first,
               (x: Attribute) => x.(versionId := ver), out, next, ids)
    ensures first <= next && AttributesCopied(attributes, from, ver, first, out, next)
  {
    var picked := AttrIds(attributes, from);
    forall a | a in out && a !in attributes
      ensures exists b :: b in picked && ids[b] == a && out[a] == attributes[b].(versionId := ver)
    {
      var b :| b in ids && ids[b] == a;
    }
    forall x | x in AttrsOf(attributes, from)
      ensures x in AttrsOf(out, ver)
    {
      var b :| b in attributes && attributes[b].versionId == from && attributes[b].(versionId := 0) == x;
      assert b in picked;
      assert out[ids[b]].(versionId := 0) == x;
    }
    forall x | x in AttrsOf(out, ver)
      ensures x in AttrsOf(attributes, from)
    {
      var a :| a in out && out[a].versionId == ver && out[a].(versionId := 0) == x;
      var b :| b in picked && ids[b] == a && out[a] == attributes[b].(versionId := ver);
      assert attributes[b].(versionId := 0) == x;
    }
    forall a, b | a in out && b in out && SameSlot(out[a], out[b])
      ensures a == b
    {
      if out[a].versionId == ver {
        var x :| x in picked && ids[x] == a && out[a] == attributes[x].(versionId := ver);
        var y :| y in picked && ids[y] == b && out[b] == attributes[y].(versionId := ver);
        assert SameSlot(attributes[x], attributes[y]);
      } else {
        assert SameSlot(attributes[a], attributes[b]);
      }
    }
  }

  lemma CopiedAssociations(associations: map<Id, Association>, from: Id, ver: Id, first: Id, out: map<Id, Association>, next: Id, ids: map<Id, Id>)
    requires UniqueAssociationNames(associations) && forall s :: s in associations ==> associations[s].versionId != ver
    requires Copied(associations, AssocIds(associations, from), first,
               (x: Association) => x.(versionId := ver), out, next, ids)
    ensures first <= next && AssociationsCopied(associations, from, ver, first, out, next)
  {
    var picked := AssocIds(associations, from);
    forall s | s in out && s !in associations
      ensures exists t :: t in picked && ids[t] == s && out[s] == associations[t].(versionId := ver)
    {
      var t :| t in ids && ids[t] == s;
    }
    forall x | x in AssocsOf(associations, from)
      ensures x in AssocsOf(out, ver)
    {
      var t :| t in associations && associations[t].versionId == from && associations[t].(versionId := 0) == x;
      assert t in picked;
      assert out[ids[t]].(versionId := 0) == x;
    }
    forall x | x in AssocsOf(out, ver)
      ensures x in AssocsOf(associations, from)
    {
      var s :| s in out && out[s].versionId == ver && out[s].(versionId := 0) == x;
      var t :| t in picked && ids[t] == s && out[s] == associations[t].(versionId := ver);
      assert associations[t].(versionId := 0) == x;
    }
    forall s, t | s in out && t in out && SameAssocSlot(out[s], out[t])
      ensures s == t
    {
      if out[s].versionId == ver {
        var x :| x in picked && ids[x] == s && out[s] == associations[x].(versionId := ver);
        var y :| y in picked && ids[y] == t && out[t] == associations[y].(versionId := ver);
        assert SameAssocSlot(associations[x], associations[y]);
      } else {
        assert SameAssocSlot(associations[s], associations[t]);
      }
    }
  }

  method CopyAttributes(attributes: map<Id, Attribute>, from: Id, ver: Id, first: Id)
    returns (out: map<Id, Attribute>, next: Id)
    requires UniqueAttributeNames(attributes) && forall a :: a in attributes ==> a < first && attributes[a].versionId != ver
    ensures first <= next && AttributesCopied(attributes, from, ver, first, out, next)
  {
    hide Copied, UniqueAttributeNames, AttributesCopied;
    var picked := AttrIds(attributes, from);
    ghost var ids;
    out, next, ids := BulkCopy(attributes, picked, first, (x: Attribute) => x.(versionId := ver));
    CopiedAttributes(attributes, from, ver, first, out, next, ids);
  }

  method CopyAssociations(associations: map<Id, Association>, from: Id, ver: Id, first: Id)
    returns (out: map<Id, Association>, next: Id)
    requires UniqueAssociationNames(associations) && forall s :: s in associations ==> s < first && associations[s].versionId != ver
    ensures first <= next && AssociationsCopied(associations, from, ver, first, out, next)
  {
    hide Copied, UniqueAssociationNames, AssociationsCopied;
    var picked := AssocIds(associations, from);
    ghost var ids;
    out, next, ids := BulkCopy(associations, picked, first, (x: Association) => x.(versionId := ver));
    CopiedAssociations(associations, from, ver, first, out, next, ids);
  }

  function NextRow(d: Db, latest: Id, description: string): TypeVersion
    requires latest in d.versions
  {
    TypeVersion(d.versions[latest].typeId, d.versions[latest].version + 1, description)
  }

  /** Creates the next version as a copy of the latest. */
  method CopyVersion(db: Store, typeId: Id, latest: Id, description: string) returns (ver: Id)
    requires Indexed(db.State()) && IsLatest(db.State(), typeId, latest)
    modifies db`versions, db`attributes, db`associations, db`nextId
    ensures NextVersion(old(db.State()), db.State(), typeId, latest, ver, NextRow(old(db.State()), latest, description),
              AttrsOf(old(db.attributes), latest), AssocsOf(old(db.associations), latest))
  {
    hide AttributesCopied, AssociationsCopied, UniqueAttributeNames, UniqueAssociationNames, FreshSchema, IsLatest, AttrsOf, AssocsOf,
         NextVersion;
    ghost var d := db.State();
    LatestIs(d, typeId, latest);
    FreshRows(d);
    ver := db.nextId;
    var row := TypeVersion(typeId, db.versions[latest].version + 1, description);
    db.versions := db.versions[ver := row];
    db.nextId := ver + 1;
    db.attributes, db.nextId := CopyAttributes(db.attributes, latest, ver, db.nextId);
    ghost var mid := db.nextId;
    db.associations, db.nextId := CopyAssociations(db.associations, latest, ver, db.nextId);
    CopyIsNext(d, db.State(), typeId, latest, ver, row, mid);
  }

  lemma LatestIs(d: Db, typeId: Id, latest: Id)
    requires IsLatest(d, typeId, latest)
    ensures latest in d.versions && d.versions[latest].typeId == typeId
  {
  }

  lemma FreshRows(d: Db)
    requires FreshSchema(d)
    ensures forall a :: a in d.attributes ==> a < d.nextId && d.attributes[a].versionId != d.nextId
    ensures forall s :: s in d.associations ==> s < d.nextId && d.associations[s].versionId != d.nextId
  {
  }

  lemma CopyIsNext(d: Db, e: Db, typeId: Id, latest: Id, ver: Id, row: TypeVersion, mid: Id)
    requires IsLatest(d, typeId, latest) && row.typeId == typeId && row.version == d.versions[latest].version + 1
    requires ver == d.nextId && e.versions == d.versions[ver := row] && e.types == d.types && SchemaOnly(d, e)
    requires AttributesCopied(d.attributes, latest, ver, ver + 1, e.attributes, mid)
    requires AssociationsCopied(d.associations, latest, ver, mid, e.associations, e.nextId)
    ensures NextVersion(d, e, typeId, latest, ver, row, AttrsOf(d.attributes, latest), AssocsOf(d.associations, latest))
  {
    hide AttrsOf, AssocsOf, UniqueAttributeNames, UniqueAssociationNames, IsLatest, SchemaOnly;
  }

  // ---- edits of the copy ----

  /** Only attribute rows, and the counter, have moved since the copy. */
  ghost predicate AttributesOnly(e: Db, f: Db) {
    SchemaOnly(e, f) && f.types == e.types && f.versions == e.versions && f.associations == e.associations
  }

  ghost predicate AssociationsOnly(e: Db, f: Db) {
    SchemaOnly(e, f) && f.types == e.types && f.versions == e.versions && f.attributes == e.attributes
  }

  function Bare(x: Attribute): Attribute {
    x.(versionId := 0)
  }

  function BareAssoc(x: Association): Association {
    x.(versionId := 0)
  }

  lemma NewRowsAreFresh(d: Db, e: Db, typeId: Id, latest: Id, ver: Id, row: TypeVersion, attrs: set<Attribute>, assocs: set<Association>)
    requires FreshSchema(d) && NextVersion(d, e, typeId, latest, ver, row, attrs, assocs)
    ensures forall a :: a in e.attributes ==> a < e.nextId && (e.attributes[a].versionId == ver <==> a !in d.attributes)
    ensures forall s :: s in e.associations ==> s < e.nextId && (e.associations[s].versionId == ver <==> s !in d.associations)
  {
    hide AttrsOf, AssocsOf, UniqueAttributeNames, UniqueAssociationNames, IsLatest;
  }

  lemma NextAttributes(d: Db, e: Db, f: Db, typeId: Id, latest: Id, ver: Id, row: TypeVersion, attrs: set<Attribute>,
                       assocs: set<Association>, newAttrs: set<Attribute>)
    requires NextVersion(d, e, typeId, latest, ver, row, attrs, assocs) && AttributesOnly(e, f)
    requires AttributesExtend(d, f, ver) && UniqueAttributeNames(f.attributes) && AttrsOf(f.attributes, ver) == newAttrs
    ensures NextVersion(d, f, typeId, latest, ver, row, newAttrs, assocs)
  {
    hide AttrsOf, AssocsOf, UniqueAttributeNames, UniqueAssociationNames, IsLatest, AttributesExtend;
  }

  lemma NextAssociations(d: Db, e: Db, f: Db, typeId: Id, latest: Id, ver: Id, row: TypeVersion, attrs: set<Attribute>,
                         assocs: set<Association>, newAssocs: set<Association>)
    requires NextVersion(d, e, typeId, latest, ver, row, attrs, assocs) && AssociationsOnly(e, f)
    requires AssociationsExtend(d, f, ver) && UniqueAssociationNames(f.associations)
    requires AssocsOf(f.associations, ver) == newAssocs
    ensures NextVersion(d, f, typeId, latest, ver, row, attrs, newAssocs)
  {
    hide AttrsOf, AssocsOf, UniqueAttributeNames, UniqueAssociationNames, IsLatest, AssociationsExtend;
  }

  lemma NextParts(d: Db, e: Db, typeId: Id, latest: Id, ver: Id, row: TypeVersion, attrs: set<Attribute>, assocs: set<Association>)
    requires NextVersion(d, e, typeId, latest, ver, row, attrs, assocs)
    ensures AttributesExtend(d, e, ver) && UniqueAttributeNames(e.attributes) && AttrsOf(e.attributes, ver) == attrs
    ensures AssociationsExtend(d, e, ver) && UniqueAssociationNames(e.associations) && AssocsOf(e.associations, ver) == assocs
    ensures d.nextId <= e.nextId
  {
    hide AttrsOf, AssocsOf, UniqueAttributeNames, UniqueAssociationNames, IsLatest, AttributesExtend, AssociationsExtend;
  }

  lemma UniqueAfterWrite(attributes: map<Id, Attribute>, a: Id, x: Attribute)
    requires UniqueAttributeNames(attributes) && forall b :: b in attributes && b != a ==> !SameSlot(attributes[b], x)
    ensures UniqueAttributeNames(attributes[a := x])
  {
  }

  lemma UniqueAssocAfterWrite(associations: map<Id, Association>, s: Id, x: Association)
    requires UniqueAssociationNames(associations) && forall t :: t in associations && t != s ==> !SameAssocSlot(associations[t], x)
    ensures UniqueAssociationNames(associations[s := x])
  {
  }

  lemma ExtendedStill(d: Db, e: Db, f: Db, ver: Id, a: Id)
    requires AttributesExtend(d, e, ver) && a !in d.attributes && e.nextId <= f.nextId
    requires f.attributes.Keys <= e.attributes.Keys + {a} && e.attributes.Keys - {a} <= f.attributes.Keys
    requires forall b :: b in f.attributes && b != a ==> f.attributes[b] == e.attributes[b]
    requires a in f.attributes ==> f.attributes[a].versionId == ver && d.nextId <= a < f.nextId
    ensures AttributesExtend(d, f, ver)
  {
  }

  lemma AssocExtendedStill(d: Db, e: Db, f: Db, ver: Id, s: Id)
    requires AssociationsExtend(d, e, ver) && s !in d.associations && e.nextId <= f.nextId
    requires f.associations.Keys <= e.associations.Keys + {s} && e.associations.Keys - {s} <= f.associations.Keys
    requires forall t :: t in f.associations && t != s ==> f.associations[t] == e.associations[t]
    requires s in f.associations ==> f.associations[s].versionId == ver && d.nextId <= s < f.nextId
    ensures AssociationsExtend(d, f, ver)
  {
  }

  /** An attribute of the copy is written: added, or changed, under an unused name. */
  lemma AttributeWritten(d: Db, e: Db, f: Db, typeId: Id, latest: Id, ver: Id, row: TypeVersion,
                         attrs: set<Attribute>, assocs: set<Association>, a: Id, x: Attribute)
    requires FreshSchema(d) && NextVersion(d, e, typeId, latest, ver, row, attrs, assocs) && AttributesOnly(e, f)
    requires f.attributes == e.attributes[a := x] && x.versionId == ver
    requires (a in e.attributes && e.attributes[a].versionId == ver) || (a == e.nextId && f.nextId > a)
    requires forall b :: b in e.attributes && b != a ==> !SameSlot(e.attributes[b], x)
    ensures NextVersion(d, f, typeId, latest, ver, row,
              (if a in e.attributes then attrs - {Bare(e.attributes[a])} else attrs) + {Bare(x)}, assocs)
  {
    hide AttrsOf, NextVersion, UniqueAttributeNames, UniqueAssociationNames, AttributesExtend, AssociationsExtend, FreshSchema;
    NewRowsAreFresh(d, e, typeId, latest, ver, row, attrs, assocs);
    NextParts(d, e, typeId, latest, ver, row, attrs, assocs);
    NotOld(d, e, ver, a);
    AttrsAfterWrite(e.attributes, ver, a, x);
    UniqueAfterWrite(e.attributes, a, x);
    ExtendedStill(d, e, f, ver, a);
    NextAttributes(d, e, f, typeId, latest, ver, row, attrs, assocs,
                   (if a in e.attributes then attrs - {Bare(e.attributes[a])} else attrs) + {Bare(x)});
  }

  lemma NotOld(d: Db, e: Db, ver: Id, a: Id)
    requires AttributesExtend(d, e, ver) && FreshSchema(d) && d.nextId <= e.nextId
    requires a in e.attributes ==> a !in d.attributes
    requires a in e.attributes || a == e.nextId
    ensures a !in d.attributes && d.nextId <= a
  {
  }

  lemma NotOldAssoc(d: Db, e: Db, ver: Id, s: Id)
    requires AssociationsExtend(d, e, ver) && FreshSchema(d) && d.nextId <= e.nextId
    requires s in e.associations ==> s !in d.associations
    requires s in e.associations || s == e.nextId
    ensures s !in d.associations && d.nextId <= s
  {
  }

  lemma AttrsAfterWrite(attributes: map<Id, Attribute>, ver: Id, a: Id, x: Attribute)
    requires UniqueAttributeNames(attributes) && x.versionId == ver
    requires a in attributes ==> attributes[a].versionId == ver
    requires forall b :: b in attributes && b != a ==> !SameSlot(attributes[b], x)
    ensures AttrsOf(attributes[a := x], ver) ==
            (if a in attributes then AttrsOf(attributes, ver) - {Bare(attributes[a])} else AttrsOf(attributes, ver)) + {Bare(x)}
  {
    var more := attributes[a := x];
    forall y | y in AttrsOf(more, ver)
      ensures y == Bare(x) || (y in AttrsOf(attributes, ver) && (a in attributes ==> y != Bare(attributes[a])))
    {
      var b :| b in more && more[b].versionId == ver && more[b].(versionId := 0) == y;
      if b != a && a in attributes {
        assert !SameSlot(attributes[b], attributes[a]);
      }
    }
    assert more[a].(versionId := 0) == Bare(x);
    forall y | y in AttrsOf(attributes, ver) && (a in attributes ==> y != Bare(attributes[a]))
      ensures y in AttrsOf(more, ver)
    {
      var b :| b in attributes && attributes[b].versionId == ver && attributes[b].(versionId := 0) == y;
      assert more[b].(versionId := 0) == y;
    }
  }

  lemma AttributeDropped(d: Db, e: Db, f: Db, typeId: Id, latest: Id, ver: Id, row: TypeVersion,
                         attrs: set<Attribute>, assocs: set<Association>, a: Id)
    requires FreshSchema(d) && NextVersion(d, e, typeId, latest, ver, row, attrs, assocs) && AttributesOnly(e, f)
    requires f.attributes == e.attributes - {a} && a in e.attributes && e.attributes[a].versionId == ver
    ensures NextVersion(d, f, typeId, latest, ver, row, attrs - {Bare(e.attributes[a])}, assocs)
  {
    hide AttrsOf, NextVersion, UniqueAttributeNames, UniqueAssociationNames, AttributesExtend, AssociationsExtend, FreshSchema;
    NewRowsAreFresh(d, e, typeId, latest, ver, row, attrs, assocs);
    NextParts(d, e, typeId, latest, ver, row, attrs, assocs);
    NotOld(d, e, ver, a);
    AttrsAfterDrop(e.attributes, ver, a);
    UniqueAfterDrop(e.attributes, a);
    ExtendedStill(d, e, f, ver, a);
    NextAttributes(d, e, f, typeId, latest, ver, row, attrs, assocs, attrs - {Bare(e.attributes[a])});
  }

  lemma UniqueAfterDrop(attributes: map<Id, Attribute>, a: Id)
    requires UniqueAttributeNames(attributes)
    ensures UniqueAttributeNames(attributes - {a})
  {
  }

  lemma UniqueAssocAfterDrop(associations: map<Id, Association>, s: Id)
    requires UniqueAssociationNames(associations)
    ensures UniqueAssociationNames(associations - {s})
  {
  }

  lemma AttrsAfterDrop(attributes: map<Id, Attribute>, ver: Id, a: Id)
    requires UniqueAttributeNames(attributes) && a in attributes && attributes[a].versionId == ver
    ensures AttrsOf(attributes - {a}, ver) == AttrsOf(attributes, ver) - {Bare(attributes[a])}
  {
    var less := attributes - {a};
    forall y | y in AttrsOf(less, ver)
      ensures y in AttrsOf(attributes, ver) && y != Bare(attributes[a])
    {
      var b :| b in less && less[b].versionId == ver && less[b].(versionId := 0) == y;
      assert !SameSlot(attributes[b], attributes[a]);
    }
    forall y | y in AttrsOf(attributes, ver) && y != Bare(attributes[a])
      ensures y in AttrsOf(less, ver)
    {
      var b :| b in attributes && attributes[b].versionId == ver && attributes[b].(versionId := 0) == y;
      assert less[b].(versionId := 0) == y;
    }
  }

  /** The same for an association of the copy. */
  lemma AssociationWritten(d: Db, e: Db, f: Db, typeId: Id, latest: Id, ver: Id, row: TypeVersion,
                           attrs: set<Attribute>, assocs: set<Association>, s: Id, x: Association)
    requires FreshSchema(d) && NextVersion(d, e, typeId, latest, ver, row, attrs, assocs) && AssociationsOnly(e, f)
    requires f.associations == e.associations[s := x] && x.versionId == ver
    requires (s in e.associations && e.associations[s].versionId == ver) || (s == e.nextId && f.nextId > s)
    requires forall t :: t in e.associations && t != s ==> !SameAssocSlot(e.associations[t], x)
    ensures NextVersion(d, f, typeId, latest, ver, row, attrs,
              (if s in e.associations then assocs - {BareAssoc(e.associations[s])} else assocs) + {BareAssoc(x)})
  {
    hide AssocsOf, NextVersion, UniqueAttributeNames, UniqueAssociationNames, AttributesExtend, AssociationsExtend, FreshSchema;
    NewRowsAreFresh(d, e, typeId, latest, ver, row, attrs, assocs);
    NextParts(d, e, typeId, latest, ver, row, attrs, assocs);
    NotOldAssoc(d, e, ver, s);
    AssocsAfterWrite(e.associations, ver, s, x);
    UniqueAssocAfterWrite(e.associations, s, x);
    AssocExtendedStill(d, e, f, ver, s);
    NextAssociations(d, e, f, typeId, latest, ver, row, attrs, assocs,
                     (if s in e.associations then assocs - {BareAssoc(e.associations[s])} else assocs) + {BareAssoc(x)});
  }

  lemma AssocsAfterWrite(associations: map<Id, Association>, ver: Id, s: Id, x: Association)
    requires UniqueAssociationNames(associations) && x.versionId == ver
    requires s in associations ==> associations[s].versionId == ver
    requires forall t :: t in associations && t != s ==> !SameAssocSlot(associations[t], x)
    ensures AssocsOf(associations[s := x], ver) ==
            (if s in associations then AssocsOf(associations, ver) - {BareAssoc(associations[s])}
             else AssocsOf(associations, ver)) + {BareAssoc(x)}
  {
    var more := associations[s := x];
    forall y | y in AssocsOf(more, ver)
      ensures y == BareAssoc(x) || (y in AssocsOf(associations, ver) && (s in associations ==> y != BareAssoc(associations[s])))
    {
      var t :| t in more && more[t].versionId == ver && more[t].(versionId := 0) == y;
      if t != s && s in associations {
        assert !SameAssocSlot(associations[t], associations[s]);
      }
    }
    assert more[s].(versionId := 0) == BareAssoc(x);
    forall y | y in AssocsOf(associations, ver) && (s in associations ==> y != BareAssoc(associations[s]))
      ensures y in AssocsOf(more, ver)
    {
      var t :| t in associations && associations[t].versionId == ver && associations[t].(versionId := 0) == y;
      assert more[t].(versionId := 0) == y;
    }
  }

  lemma AssociationDropped(d: Db, e: Db, f: Db, typeId: Id, latest: Id, ver: Id, row: TypeVersion,
                           attrs: set<Attribute>, assocs: set<Association>, s: Id)
    requires FreshSchema(d) && NextVersion(d, e, typeId, latest, ver, row, attrs, assocs) && AssociationsOnly(e, f)
    requires f.associations == e.associations - {s} && s in e.associations && e.associations[s].versionId == ver
    ensures NextVersion(d, f, typeId, latest, ver, row, attrs, assocs - {BareAssoc(e.associations[s])})
  {
    hide AssocsOf, NextVersion, UniqueAttributeNames, UniqueAssociationNames, AttributesExtend, AssociationsExtend, FreshSchema;
    NewRowsAreFresh(d, e, typeId, latest, ver, row, attrs, assocs);
    NextParts(d, e, typeId, latest, ver, row, attrs, assocs);
    NotOldAssoc(d, e, ver, s);
    AssocsAfterDrop(e.associations, ver, s);
    UniqueAssocAfterDrop(e.associations, s);
    AssocExtendedStill(d, e, f, ver, s);
    NextAssociations(d, e, f, typeId, latest, ver, row, attrs, assocs, assocs - {BareAssoc(e.associations[s])});
  }

  lemma AssocsAfterDrop(associations: map<Id, Association>, ver: Id, s: Id)
    requires UniqueAssociationNames(associations) && s in associations && associations[s].versionId == ver
    ensures AssocsOf(associations - {s}, ver) == AssocsOf(associations, ver) - {BareAssoc(associations[s])}
  {
    var less := associations - {s};
    forall y | y in AssocsOf(less, ver)
      ensures y in AssocsOf(associations, ver) && y != BareAssoc(associations[s])
    {
      var t :| t in less && less[t].versionId == ver && less[t].(versionId := 0) == y;
      assert !SameAssocSlot(associations[t], associations[s]);
    }
    forall y | y in AssocsOf(associations, ver) && y != BareAssoc(associations[s])
      ensures y in AssocsOf(less, ver)
    {
      var t :| t in associations && associations[t].versionId == ver && associations[t].(versionId := 0) == y;
      assert less[t].(versionId := 0) == y;
    }
  }

  // ---- what a new version holds, row by row ----

  ghost predicate HasAttribute(table: map<Id, Attribute>, x: Attribute) {
    exists a :: a in table && table[a] == x
  }

  ghost predicate HasAssociation(table: map<Id, Association>, x: Association) {
    exists s :: s in table && table[s] == x
  }

  /** The version has the attributes of another, but the one of a name, and more. */
  ghost predicate AttributesBecome(before: map<Id, Attribute>, after: map<Id, Attribute>, from: Id, to: Id, gone: Option<string>,
                                   more: set<Attribute>) {
    && (forall a :: a in before && before[a].versionId == from && Some(before[a].name) != gone ==>
          HasAttribute(after, Attribute(to, before[a].name, before[a].description, before[a].typeDef, before[a].ordinal,
                                        before[a].required)))
    && (forall x :: x in more ==> HasAttribute(after, x))
    && (forall b :: b in after && after[b].versionId == to && after[b] !in more ==>
          exists a :: a in before && before[a].versionId == from && Some(before[a].name) != gone && AttributeAs(before[a], after[b]))
    && forall a :: a in before ==> a in after && after[a] == before[a]
  }

  ghost predicate AttributeAs(x: Attribute, y: Attribute) {
    && y.name == x.name && y.description == x.description && y.typeDef == x.typeDef && y.ordinal == x.ordinal
    && y.required == x.required
  }

  ghost predicate AssociationsBecome(before: map<Id, Association>, after: map<Id, Association>, from: Id, to: Id,
                                     gone: Option<string>, more: set<Association>) {
    && (forall s :: s in before && before[s].versionId == from && Some(before[s].name) != gone ==>
          HasAssociation(after, Association(to, before[s].name, before[s].target, before[s].kind, before[s].sourceRole,
                                            before[s].targetRole, before[s].sourceCardinality, before[s].targetCardinality)))
    && (forall x :: x in more ==> HasAssociation(after, x))
    && (forall t :: t in after && after[t].versionId == to && after[t] !in more ==>
          exists s :: s in before && before[s].versionId == from && Some(before[s].name) != gone && AssociationAs(before[s], after[t]))
    && forall s :: s in before ==> s in after && after[s] == before[s]
  }

  ghost predicate AssociationAs(x: Association, y: Association) {
    && y.name == x.name && y.target == x.target && y.kind == x.kind && y.sourceRole == x.sourceRole
    && y.targetRole == x.targetRole && y.sourceCardinality == x.sourceCardinality && y.targetCardinality == x.targetCardinality
  }

  /** One version more of the type: numbered next, described, and holding what the one before it
      held, less and more. */
  ghost predicate VersionBecomes(d: Db, e: Db, typeId: Id, from: Id, to: Id, description: string,
                                 gone: Option<string>, more: set<Attribute>, dropped: Option<string>, drawn: set<Association>) {
    && from in d.versions && d.versions[from].typeId == typeId && to !in d.versions
    && e.versions == d.versions[to := TypeVersion(typeId, d.versions[from].version + 1, description)]
    && AttributesBecome(d.attributes, e.attributes, from, to, gone, more)
    && AssociationsBecome(d.associations, e.associations, from, to, dropped, drawn)
  }

  lemma AttributesHeld(attributes: map<Id, Attribute>, ver: Id, x: Attribute)
    requires x.versionId == ver
    ensures HasAttribute(attributes, x) <==> Bare(x) in AttrsOf(attributes, ver)
  {
    if Bare(x) in AttrsOf(attributes, ver) {
      var a :| a in attributes && attributes[a].versionId == ver && attributes[a].(versionId := 0) == Bare(x);
      assert attributes[a] == x;
    }
  }

  lemma AssociationsHeld(associations: map<Id, Association>, ver: Id, x: Association)
    requires x.versionId == ver
    ensures HasAssociation(associations, x) <==> BareAssoc(x) in AssocsOf(associations, ver)
  {
    if BareAssoc(x) in AssocsOf(associations, ver) {
      var s :| s in associations && associations[s].versionId == ver && associations[s].(versionId := 0) == BareAssoc(x);
      assert associations[s] == x;
    }
  }

  /** What is given up has a name that no other row of its version has. */
  ghost predicate AttributeGone(attributes: map<Id, Attribute>, ver: Id, gone: Option<string>, lost: set<Attribute>) {
    forall a :: a in attributes && attributes[a].versionId == ver ==> (Bare(attributes[a]) in lost <==> Some(attributes[a].name) == gone)
  }

  ghost predicate AssociationGone(associations: map<Id, Association>, ver: Id, gone: Option<string>, lost: set<Association>) {
    forall s :: s in associations && associations[s].versionId == ver ==>
      (BareAssoc(associations[s]) in lost <==> Some(associations[s].name) == gone)
  }

  lemma OneAttributeGone(attributes: map<Id, Attribute>, ver: Id, x: Attribute)
    requires UniqueAttributeNames(attributes) && x in AttrsOf(attributes, ver)
    ensures AttributeGone(attributes, ver, Some(x.name), {x})
  {
    var a :| a in attributes && attributes[a].versionId == ver && attributes[a].(versionId := 0) == x;
    forall b | b in attributes && attributes[b].versionId == ver
      ensures Bare(attributes[b]) in {x} <==> Some(attributes[b].name) == Some(x.name)
    {
      if attributes[b].name == x.name {
        assert SameSlot(attributes[a], attributes[b]);
      }
    }
  }

  lemma OneAssociationGone(associations: map<Id, Association>, ver: Id, x: Association)
    requires UniqueAssociationNames(associations) && x in AssocsOf(associations, ver)
    ensures AssociationGone(associations, ver, Some(x.name), {x})
  {
    var a :| a in associations && associations[a].versionId == ver && associations[a].(versionId := 0) == x;
    forall b | b in associations && associations[b].versionId == ver
      ensures BareAssoc(associations[b]) in {x} <==> Some(associations[b].name) == Some(x.name)
    {
      if associations[b].name == x.name {
        assert SameAssocSlot(associations[a], associations[b]);
      }
    }
  }

  lemma AttributesFrom(before: map<Id, Attribute>, after: map<Id, Attribute>, from: Id, to: Id, gone: Option<string>,
                      lost: set<Attribute>, more: set<Attribute>)
    requires forall a :: a in before ==> a in after && after[a] == before[a]
    requires AttributeGone(before, from, gone, lost) && forall x :: x in more ==> x.versionId == to
    requires AttrsOf(after, to) == AttrsOf(before, from) - lost + set x | x in more :: Bare(x)
    ensures AttributesBecome(before, after, from, to, gone, more)
  {
    hide AttrsOf, HasAttribute;
    forall a | a in before && before[a].versionId == from && Some(before[a].name) != gone
      ensures HasAttribute(after, Attribute(to, before[a].name, before[a].description, before[a].typeDef, before[a].ordinal,
                                            before[a].required))
    {
      InAttrsOf(before, from, a);
      AttributesHeld(after, to, before[a].(versionId := to));
    }
    forall x | x in more
      ensures HasAttribute(after, x)
    {
      AttributesHeld(after, to, x);
    }
    forall b | b in after && after[b].versionId == to && after[b] !in more
      ensures exists a :: a in before && before[a].versionId == from && Some(before[a].name) != gone && AttributeAs(before[a], after[b])
    {
      InAttrsOf(after, to, b);
      var y := Bare(after[b]);
      assert forall x :: x in more ==> Bare(x) != y;
      var a := FromAttrsOf(before, from, y);
      assert AttributeAs(before[a], after[b]);
    }
  }

  lemma InAttrsOf(attributes: map<Id, Attribute>, ver: Id, a: Id)
    requires a in attributes && attributes[a].versionId == ver
    ensures Bare(attributes[a]) in AttrsOf(attributes, ver)
  {
  }

  lemma FromAttrsOf(attributes: map<Id, Attribute>, ver: Id, x: Attribute) returns (a: Id)
    requires x in AttrsOf(attributes, ver)
    ensures a in attributes && attributes[a].versionId == ver && Bare(attributes[a]) == x
  {
    a :| a in attributes && attributes[a].versionId == ver && attributes[a].(versionId := 0) == x;
  }

  lemma InAssocsOf(associations: map<Id, Association>, ver: Id, s: Id)
    requires s in associations && associations[s].versionId == ver
    ensures BareAssoc(associations[s]) in AssocsOf(associations, ver)
  {
  }

  lemma FromAssocsOf(associations: map<Id, Association>, ver: Id, x: Association) returns (s: Id)
    requires x in AssocsOf(associations, ver)
    ensures s in associations && associations[s].versionId == ver && BareAssoc(associations[s]) == x
  {
    s :| s in associations && associations[s].versionId == ver && associations[s].(versionId := 0) == x;
  }

  lemma AssociationsFrom(before: map<Id, Association>, after: map<Id, Association>, from: Id, to: Id, gone: Option<string>,
                        lost: set<Association>, more: set<Association>)
    requires forall s :: s in before ==> s in after && after[s] == before[s]
    requires AssociationGone(before, from, gone, lost) && forall x :: x in more ==> x.versionId == to
    requires AssocsOf(after, to) == AssocsOf(before, from) - lost + set x | x in more :: BareAssoc(x)
    ensures AssociationsBecome(before, after, from, to, gone, more)
  {
    hide AssocsOf, HasAssociation;
    forall s | s in before && before[s].versionId == from && Some(before[s].name) != gone
      ensures HasAssociation(after, Association(to, before[s].name, before[s].target, before[s].kind, before[s].sourceRole,
                                                before[s].targetRole, before[s].sourceCardinality, before[s].targetCardinality))
    {
      InAssocsOf(before, from, s);
      AssociationsHeld(after, to, before[s].(versionId := to));
    }
    forall x | x in more
      ensures HasAssociation(after, x)
    {
      AssociationsHeld(after, to, x);
    }
    forall t | t in after && after[t].versionId == to && after[t] !in more
      ensures exists s :: s in before && before[s].versionId == from && Some(before[s].name) != gone && AssociationAs(before[s], after[t])
    {
      InAssocsOf(after, to, t);
      var y := BareAssoc(after[t]);
      assert forall x :: x in more ==> BareAssoc(x) != y;
      var s := FromAssocsOf(before, from, y);
      assert AssociationAs(before[s], after[t]);
    }
  }

  lemma NothingGone(d: Db, ver: Id)
    ensures AttributeGone(d.attributes, ver, None, {}) && AssociationGone(d.associations, ver, None, {})
  {
  }

  /** A change holds what its sets say, row by row. */
  lemma ChangeByRows(d: Db, e: Db, c: Change, gone: Option<string>, lost: set<Attribute>, more: set<Attribute>,
                     dropped: Option<string>, away: set<Association>, drawn: set<Association>)
    requires FreshSchema(d) && Next(d, e, c)
    requires AttributeGone(d.attributes, c.latest, gone, lost) && AssociationGone(d.associations, c.latest, dropped, away)
    requires (forall x :: x in more ==> x.versionId == c.ver) && (forall x :: x in drawn ==> x.versionId == c.ver)
    requires c.attrs == AttrsOf(d.attributes, c.latest) - lost + set x | x in more :: Bare(x)
    requires c.assocs == AssocsOf(d.associations, c.latest) - away + set x | x in drawn :: BareAssoc(x)
    ensures VersionBecomes(d, e, c.typeId, c.latest, c.ver, c.row.description, gone, more, dropped, drawn)
  {
    hide AttrsOf, AssocsOf, UniqueAttributeNames, UniqueAssociationNames, AttributeGone, AssociationGone, AttributesBecome,
         AssociationsBecome;
    AttributesFrom(d.attributes, e.attributes, c.latest, c.ver, gone, lost, more);
    AssociationsFrom(d.associations, e.associations, c.latest, c.ver, dropped, away, drawn);
  }

  lemma NoChangeByRows(d: Db, e: Db, c: Change)
    requires FreshSchema(d) && Next(d, e, c)
    requires c.attrs == AttrsOf(d.attributes, c.latest) && c.assocs == AssocsOf(d.associations, c.latest)
    ensures VersionBecomes(d, e, c.typeId, c.latest, c.ver, c.row.description, None, {}, None, {})
  {
    hide AttrsOf, AssocsOf, NextVersion, FreshSchema, VersionBecomes;
    NothingGone(d, c.latest);
    ChangeByRows(d, e, c, None, {}, {}, None, {}, {});
  }

  /** Attributes change: one may go, one may come. */
  lemma AttributesByRows(d: Db, e: Db, c: Change, was: Option<Attribute>, x: Option<Attribute>)
    requires Indexed(d) && Next(d, e, c) && c.assocs == AssocsOf(d.associations, c.latest)
    requires (was.Some? ==> was.value in AttrsOf(d.attributes, c.latest)) && (x.Some? ==> x.value.versionId == c.ver)
    requires c.attrs == AttrsOf(d.attributes, c.latest) - (if was.Some? then {was.value} else {}) + (if x.Some? then {Bare(x.value)} else {})
    ensures VersionBecomes(d, e, c.typeId, c.latest, c.ver, c.row.description,
                           if was.Some? then Some(was.value.name) else None, if x.Some? then {x.value} else {}, None, {})
  {
    hide AttrsOf, AssocsOf, NextVersion, FreshSchema, UniqueAttributeNames, UniqueAssociationNames, VersionBecomes;
    NothingGone(d, c.latest);
    if was.Some? {
      OneAttributeGone(d.attributes, c.latest, was.value);
    }
    var more := if x.Some? then {x.value} else {};
    assert (set y | y in more :: Bare(y)) == if x.Some? then {Bare(x.value)} else {};
    ChangeByRows(d, e, c, if was.Some? then Some(was.value.name) else None, if was.Some? then {was.value} else {}, more, None, {}, {});
  }

  lemma AssociationsByRows(d: Db, e: Db, c: Change, was: Option<Association>, x: Option<Association>)
    requires Indexed(d) && Next(d, e, c) && c.attrs == AttrsOf(d.attributes, c.latest)
    requires (was.Some? ==> was.value in AssocsOf(d.associations, c.latest)) && (x.Some? ==> x.value.versionId == c.ver)
    requires c.assocs == AssocsOf(d.associations, c.latest) - (if was.Some? then {was.value} else {})
                         + (if x.Some? then {BareAssoc(x.value)} else {})
    ensures VersionBecomes(d, e, c.typeId, c.latest, c.ver, c.row.description, None, {},
                           if was.Some? then Some(was.value.name) else None, if x.Some? then {x.value} else {})
  {
    hide AttrsOf, AssocsOf, NextVersion, FreshSchema, UniqueAttributeNames, UniqueAssociationNames, VersionBecomes;
    NothingGone(d, c.latest);
    if was.Some? {
      OneAssociationGone(d.associations, c.latest, was.value);
    }
    var more := if x.Some? then {x.value} else {};
    assert (set y | y in more :: BareAssoc(y)) == if x.Some? then {BareAssoc(x.value)} else {};
    ChangeByRows(d, e, c, None, {}, {}, if was.Some? then Some(was.value.name) else None, if was.Some? then {was.value} else {}, more);
  }
}
