/** The history of entity types: every edit writes the next version from a copy of the
    latest, and no stored version is rewritten. */
module SchemaHistory {
  import opened Domain
  import opened Database
  import opened Digraph
  import opened Conformance
  import opened DataSteps
  import opened Instances
  import opened Catalogs
  import opened Staleness

  // ---- versions and what is in them ----

  ghost predicate IsLatest(d: Db, typeId: Id, v: Id) {
    && v in d.versions && d.versions[v].typeId == typeId
    && forall w :: w in d.versions && d.versions[w].typeId == typeId ==> d.versions[w].version <= d.versions[v].version
  }

  /** The attributes of a version, without ids. */
  ghost function AttrsOf(attributes: map<Id, Attribute>, ver: Id): set<Attribute> {
    set a | a in attributes && attributes[a].versionId == ver :: attributes[a].(versionId := 0)
  }

  ghost function AssocsOf(associations: map<Id, Association>, ver: Id): set<Association> {
    set s | s in associations && associations[s].versionId == ver :: associations[s].(versionId := 0)
  }

  /** Attributes and associations of a version share one namespace. */
  ghost predicate SharedNames(d: Db) {
    forall a, s :: a in d.attributes && s in d.associations && d.attributes[a].versionId == d.associations[s].versionId ==>
      d.attributes[a].name != d.associations[s].name
  }

  ghost predicate HasVersion(d: Db, typeId: Id, k: nat) {
    exists v :: v in d.versions && d.versions[v].typeId == typeId && d.versions[v].version == k
  }

  /** The version numbers of each entity type are exactly 1 to n. */
  ghost predicate Numbered(d: Db) {
    && (forall v, w :: v in d.versions && w in d.versions && SameNumber(d.versions[v], d.versions[w]) ==> v == w)
    && (forall v :: v in d.versions ==> d.versions[v].version >= 1)
    && (forall v, k: nat :: v in d.versions && 1 <= k <= d.versions[v].version ==> HasVersion(d, d.versions[v].typeId, k))
  }

  predicate SameNumber(x: TypeVersion, y: TypeVersion) {
    x.typeId == y.typeId && x.version == y.version
  }

  predicate IsEdge(d: Db, s: Id) {
    s in d.associations && d.associations[s].kind.Containment? && d.associations[s].versionId in d.versions
  }

  /** The containment graph over the versions of all entity types, old ones included. */
  ghost function ContainmentEdges(d: Db): set<Edge> {
    set s | s in d.associations && IsEdge(d, s) :: (d.versions[d.associations[s].versionId].typeId, d.associations[s].target)
  }

  ghost predicate SchemaInv(d: Db) {
    && Numbered(d) && UniqueAttributeNames(d.attributes) && UniqueAssociationNames(d.associations) && SharedNames(d)
    && UniqueTypeNames(d) && Acyclic(ContainmentEdges(d))
  }

  // ---- steps ----

  /** Nothing but the schema tables and the counter has moved. */
  ghost predicate SchemaOnly(d: Db, e: Db) {
    && e.catalogs == d.catalogs && e.instances == d.instances && e.values == d.values && e.links == d.links
    && e.versionSets == d.versionSets && e.pins == d.pins && e.log == d.log && e.typeDefs == d.typeDefs
    && e.resources == d.resources && d.nextId <= e.nextId
  }

  /** Old attribute rows are as they were; new ones belong to the version. */
  ghost predicate AttributesExtend(d: Db, e: Db, ver: Id) {
    && (forall a :: a in d.attributes ==> a in e.attributes && e.attributes[a] == d.attributes[a])
    && (forall a :: a in e.attributes && a !in d.attributes ==>
          e.attributes[a].versionId == ver && d.nextId <= a < e.nextId)
  }

  ghost predicate AssociationsExtend(d: Db, e: Db, ver: Id) {
    && (forall s :: s in d.associations ==> s in e.associations && e.associations[s] == d.associations[s])
    && (forall s :: s in e.associations && s !in d.associations ==>
          e.associations[s].versionId == ver && d.nextId <= s < e.nextId)
  }

  /** Copy-on-write: one more version of the type, holding these attributes and associations. */
  ghost predicate NextVersion(d: Db, e: Db, typeId: Id, latest: Id, ver: Id, row: TypeVersion,
                              attrs: set<Attribute>, assocs: set<Association>) {
    && IsLatest(d, typeId, latest) && row.typeId == typeId && row.version == d.versions[latest].version + 1
    && d.nextId <= ver < e.nextId && e.versions == d.versions[ver := row] && e.types == d.types
    && SchemaOnly(d, e) && AttributesExtend(d, e, ver) && AssociationsExtend(d, e, ver)
    && UniqueAttributeNames(e.attributes) && UniqueAssociationNames(e.associations)
    && AttrsOf(e.attributes, ver) == attrs && AssocsOf(e.associations, ver) == assocs
  }

  /** A new entity type under a free name with its first version, which may hold attributes but
      no associations. */
  ghost predicate NewType(d: Db, e: Db, typeId: Id, ver: Id, row: TypeVersion, attrs: set<Attribute>) {
    && typeId !in d.types && d.nextId <= typeId < e.nextId && d.nextId <= ver < e.nextId
    && typeId in e.types && e.types == d.types[typeId := e.types[typeId]]
    && (forall t :: t in d.types ==> d.types[t] != e.types[typeId])
    && row.typeId == typeId && row.version == 1 && e.versions == d.versions[ver := row]
    && SchemaOnly(d, e) && AttributesExtend(d, e, ver) && e.associations == d.associations
    && UniqueAttributeNames(e.attributes) && AttrsOf(e.attributes, ver) == attrs
  }

  /** Only ordinals, and only of the latest version. */
  ghost predicate Reordered(d: Db, e: Db, typeId: Id, latest: Id) {
    && IsLatest(d, typeId, latest) && SchemaOnly(d, e) && e.nextId == d.nextId
    && e.types == d.types && e.versions == d.versions && e.associations == d.associations
    && e.attributes.Keys == d.attributes.Keys
    && forall a :: a in d.attributes ==>
         e.attributes[a] == if d.attributes[a].versionId == latest then d.attributes[a].(ordinal := e.attributes[a].ordinal)
                            else d.attributes[a]
  }

  ghost predicate Apart(attrs: set<Attribute>, assocs: set<Association>) {
    forall x, y :: x in attrs && y in assocs ==> x.name != y.name
  }

  ghost function EdgesFrom(typeId: Id, assocs: set<Association>): set<Edge> {
    set x | x in assocs && x.kind.Containment? :: (typeId, x.target)
  }

  // ---- version numbers ----

  lemma NextKeepsNumbers(d: Db, e: Db, typeId: Id, latest: Id, ver: Id, row: TypeVersion,
                         attrs: set<Attribute>, assocs: set<Association>)
    requires Numbered(d) && FreshSchema(d) && NextVersion(d, e, typeId, latest, ver, row, attrs, assocs)
    ensures Numbered(e)
  {
    hide AttributesExtend, AssociationsExtend, UniqueAttributeNames, UniqueAssociationNames, AttrsOf, AssocsOf, SchemaOnly;
    forall v, k: nat | v in e.versions && 1 <= k <= e.versions[v].version
      ensures HasVersion(e, e.versions[v].typeId, k)
    {
      if v == ver && k == row.version {
        assert ver in e.versions;
      } else {
        assert HasVersion(d, e.versions[v].typeId, k);
        var w :| w in d.versions && d.versions[w].typeId == e.versions[v].typeId && d.versions[w].version == k;
        assert w in e.versions && e.versions[w] == d.versions[w];
      }
    }
  }

  lemma TypeKeepsNumbers(d: Db, e: Db, typeId: Id, ver: Id, row: TypeVersion, attrs: set<Attribute>)
    requires Numbered(d) && FreshSchema(d) && NewType(d, e, typeId, ver, row, attrs)
    ensures Numbered(e)
  {
    hide AttributesExtend, UniqueAttributeNames, AttrsOf, SchemaOnly;
    forall v, k: nat | v in e.versions && 1 <= k <= e.versions[v].version
      ensures HasVersion(e, e.versions[v].typeId, k)
    {
      if v == ver {
        assert ver in e.versions;
      } else {
        assert HasVersion(d, e.versions[v].typeId, k);
        var w :| w in d.versions && d.versions[w].typeId == e.versions[v].typeId && d.versions[w].version == k;
        assert w in e.versions && e.versions[w] == d.versions[w];
      }
    }
  }

  // ---- frozen versions ----

  ghost function AttributeRows(d: Db, v: Id): map<Id, Attribute> {
    map a | a in d.attributes && d.attributes[a].versionId == v :: d.attributes[a]
  }

  ghost function AssociationRows(d: Db, v: Id): map<Id, Association> {
    map s | s in d.associations && d.associations[s].versionId == v :: d.associations[s]
  }

  /** The version is the same, row by row. */
  ghost predicate SameVersion(d: Db, e: Db, v: Id) {
    && v in d.versions && v in e.versions && e.versions[v] == d.versions[v]
    && AttributeRows(e, v) == AttributeRows(d, v) && AssociationRows(e, v) == AssociationRows(d, v)
  }

  lemma NextFreezes(d: Db, e: Db, typeId: Id, latest: Id, ver: Id, row: TypeVersion,
                    attrs: set<Attribute>, assocs: set<Association>, v: Id)
    requires FreshSchema(d) && NextVersion(d, e, typeId, latest, ver, row, attrs, assocs) && v in d.versions
    ensures SameVersion(d, e, v)
    ensures !IsLatest(d, d.versions[v].typeId, v) ==> !IsLatest(e, e.versions[v].typeId, v)
    ensures IsLatest(e, typeId, ver)
  {
    hide UniqueAttributeNames, UniqueAssociationNames, AttrsOf, AssocsOf, SchemaOnly;
    assert forall w :: w in d.versions ==> w in e.versions && e.versions[w] == d.versions[w];
  }

  lemma TypeFreezes(d: Db, e: Db, typeId: Id, ver: Id, row: TypeVersion, attrs: set<Attribute>, v: Id)
    requires FreshSchema(d) && NewType(d, e, typeId, ver, row, attrs) && v in d.versions
    ensures SameVersion(d, e, v)
    ensures !IsLatest(d, d.versions[v].typeId, v) ==> !IsLatest(e, e.versions[v].typeId, v)
  {
    hide UniqueAttributeNames, AttrsOf, SchemaOnly;
    assert forall w :: w in d.versions ==> w in e.versions && e.versions[w] == d.versions[w];
  }

  lemma ReorderFreezes(d: Db, e: Db, typeId: Id, latest: Id, v: Id)
    requires Reordered(d, e, typeId, latest) && v in d.versions
    ensures !IsLatest(d, d.versions[v].typeId, v) ==> SameVersion(d, e, v) && !IsLatest(e, e.versions[v].typeId, v)
  {
    hide SchemaOnly;
    assert v == latest ==> IsLatest(d, d.versions[v].typeId, v);
  }

  // ---- names ----

  lemma NextKeepsNames(d: Db, e: Db, typeId: Id, latest: Id, ver: Id, row: TypeVersion,
                       attrs: set<Attribute>, assocs: set<Association>)
    requires SharedNames(d) && FreshSchema(d) && NextVersion(d, e, typeId, latest, ver, row, attrs, assocs)
    ensures SharedNames(e) <==> Apart(attrs, assocs)
  {
    hide UniqueAttributeNames, UniqueAssociationNames, SchemaOnly, IsLatest;
    if Apart(attrs, assocs) {
      forall a, s | a in e.attributes && s in e.associations && e.attributes[a].versionId == e.associations[s].versionId
        ensures e.attributes[a].name != e.associations[s].name
      {
        if e.attributes[a].versionId == ver {
          assert e.attributes[a].(versionId := 0) in attrs && e.associations[s].(versionId := 0) in assocs;
        }
      }
    } else {
      var x, y :| x in attrs && y in assocs && x.name == y.name;
      var a :| a in e.attributes && e.attributes[a].versionId == ver && e.attributes[a].(versionId := 0) == x;
      var s :| s in e.associations && e.associations[s].versionId == ver && e.associations[s].(versionId := 0) == y;
      assert e.attributes[a].name == e.associations[s].name;
    }
  }

  lemma TypeKeepsNames(d: Db, e: Db, typeId: Id, ver: Id, row: TypeVersion, attrs: set<Attribute>)
    requires SharedNames(d) && FreshSchema(d) && NewType(d, e, typeId, ver, row, attrs)
    ensures SharedNames(e)
  {
    hide UniqueAttributeNames, SchemaOnly, AttrsOf;
  }

  // ---- containment edges ----

  lemma EdgeMembership(d: Db, x: Edge)
    ensures x in ContainmentEdges(d) <==>
            exists s :: IsEdge(d, s) && x == (d.versions[d.associations[s].versionId].typeId, d.associations[s].target)
  {
  }

  /** The graph only grows, by the containments of the new version. */
  lemma NextEdges(d: Db, e: Db, typeId: Id, latest: Id, ver: Id, row: TypeVersion,
                  attrs: set<Attribute>, assocs: set<Association>)
    requires FreshSchema(d) && NextVersion(d, e, typeId, latest, ver, row, attrs, assocs)
    ensures ContainmentEdges(e) == ContainmentEdges(d) + EdgesFrom(typeId, assocs)
  {
    hide UniqueAttributeNames, UniqueAssociationNames, SchemaOnly, IsLatest, AttrsOf, AttributesExtend, ContainmentEdges;
    forall x
      ensures x in ContainmentEdges(e) <==> x in ContainmentEdges(d) || x in EdgesFrom(typeId, assocs)
    {
      EdgeMembership(d, x);
      EdgeMembership(e, x);
      NextEdge(d, e, typeId, latest, ver, row, attrs, assocs, x);
    }
  }

  lemma NextEdge(d: Db, e: Db, typeId: Id, latest: Id, ver: Id, row: TypeVersion,
                 attrs: set<Attribute>, assocs: set<Association>, x: Edge)
    requires FreshSchema(d) && NextVersion(d, e, typeId, latest, ver, row, attrs, assocs)
    ensures (exists s :: IsEdge(e, s) && x == (e.versions[e.associations[s].versionId].typeId, e.associations[s].target)) <==>
              || (exists s :: IsEdge(d, s) && x == (d.versions[d.associations[s].versionId].typeId, d.associations[s].target))
              || x in EdgesFrom(typeId, assocs)
  {
    hide UniqueAttributeNames, UniqueAssociationNames, SchemaOnly, IsLatest, AttrsOf, AttributesExtend;
    if s :| IsEdge(d, s) && x == (d.versions[d.associations[s].versionId].typeId, d.associations[s].target) {
      assert IsEdge(e, s);
    }
    if x in EdgesFrom(typeId, assocs) {
      var y :| y in assocs && y.kind.Containment? && x == (typeId, y.target);
      var s :| s in e.associations && e.associations[s].versionId == ver && e.associations[s].(versionId := 0) == y;
      assert IsEdge(e, s);
    }
    if s :| IsEdge(e, s) && x == (e.versions[e.associations[s].versionId].typeId, e.associations[s].target) {
      if s in d.associations && d.associations[s].versionId != ver {
        assert IsEdge(d, s);
      } else {
        assert e.associations[s].(versionId := 0) in assocs;
      }
    }
  }

  lemma LatestEdges(d: Db, typeId: Id, latest: Id)
    requires IsLatest(d, typeId, latest)
    ensures EdgesFrom(typeId, AssocsOf(d.associations, latest)) <= ContainmentEdges(d)
  {
    hide ContainmentEdges;
    forall x | x in EdgesFrom(typeId, AssocsOf(d.associations, latest))
      ensures x in ContainmentEdges(d)
    {
      var y :| y in AssocsOf(d.associations, latest) && y.kind.Containment? && x == (typeId, y.target);
      var s :| s in d.associations && d.associations[s].versionId == latest && d.associations[s].(versionId := 0) == y;
      assert IsEdge(d, s);
      EdgeMembership(d, x);
    }
  }

  /** An edit that adds at most one containment keeps the graph acyclic exactly when the
      cycle check would have accepted it. */
  lemma NextKeepsAcyclic(d: Db, e: Db, typeId: Id, latest: Id, ver: Id, row: TypeVersion,
                         attrs: set<Attribute>, assocs: set<Association>, extra: Association)
    requires FreshSchema(d) && NextVersion(d, e, typeId, latest, ver, row, attrs, assocs)
    requires Acyclic(ContainmentEdges(d))
    requires assocs <= AssocsOf(d.associations, latest) + {extra}
    ensures extra !in assocs || !extra.kind.Containment? ==> Acyclic(ContainmentEdges(e))
    ensures extra in assocs && extra.kind.Containment? ==>
              (Acyclic(ContainmentEdges(e)) <==> !Reaches(ContainmentEdges(d), extra.target, typeId))
  {
    hide NextVersion, AssocsOf, ContainmentEdges, FreshSchema, Acyclic;
    NextEdges(d, e, typeId, latest, ver, row, attrs, assocs);
    NextIsLatest(d, e, typeId, latest, ver, row, attrs, assocs);
    LatestEdges(d, typeId, latest);
    AddEdgeAcyclic(ContainmentEdges(d), typeId, extra.target);
    assert EdgesFrom(typeId, assocs) <= EdgesFrom(typeId, AssocsOf(d.associations, latest)) + EdgesFrom(typeId, {extra});
    if extra in assocs && extra.kind.Containment? {
      assert (typeId, extra.target) in EdgesFrom(typeId, assocs);
      assert ContainmentEdges(e) == ContainmentEdges(d) + {(typeId, extra.target)};
    } else {
      assert EdgesFrom(typeId, assocs) <= EdgesFrom(typeId, AssocsOf(d.associations, latest));
      assert ContainmentEdges(e) == ContainmentEdges(d);
    }
  }

  lemma NextIsLatest(d: Db, e: Db, typeId: Id, latest: Id, ver: Id, row: TypeVersion,
                     attrs: set<Attribute>, assocs: set<Association>)
    requires NextVersion(d, e, typeId, latest, ver, row, attrs, assocs)
    ensures IsLatest(d, typeId, latest)
  {
  }

  lemma TypeKeepsEdges(d: Db, e: Db, typeId: Id, ver: Id, row: TypeVersion, attrs: set<Attribute>)
    requires FreshSchema(d) && NewType(d, e, typeId, ver, row, attrs)
    ensures ContainmentEdges(e) == ContainmentEdges(d)
  {
    hide UniqueAttributeNames, SchemaOnly, AttrsOf, AttributesExtend;
    forall s
      ensures IsEdge(e, s) <==> IsEdge(d, s)
    {
    }
  }

  /** Every entity type lies under a root of the graph, so the tree that starts at the roots
      misses none. */
  lemma EveryTypeUnderARoot(d: Db, typeId: Id)
    requires SchemaInv(d)
    ensures exists root :: IsRoot(ContainmentEdges(d), root) && Reaches(ContainmentEdges(d), root, typeId)
  {
    EveryNodeUnderARoot(ContainmentEdges(d), typeId);
  }

  // ---- whole runs ----

  datatype Change = Change(
    typeId: Id, latest: Id, ver: Id, row: TypeVersion, attrs: set<Attribute>, assocs: set<Association>, extra: Association)

  ghost predicate Next(d: Db, e: Db, c: Change) {
    NextVersion(d, e, c.typeId, c.latest, c.ver, c.row, c.attrs, c.assocs)
  }

  /** A next version with its names apart and at most one association that the version before
      did not have, which closes no cycle. */
  ghost predicate SafeNext(d: Db, e: Db, c: Change) {
    && Next(d, e, c) && Apart(c.attrs, c.assocs)
    && c.assocs <= AssocsOf(d.associations, c.latest) + {c.extra}
    && (c.extra in c.assocs && c.extra.kind.Containment? ==> !Reaches(ContainmentEdges(d), c.extra.target, c.typeId))
  }

  ghost predicate FirstVersion(d: Db, e: Db, c: Change) {
    NewType(d, e, c.typeId, c.ver, c.row, c.attrs)
  }

  ghost predicate SchemaStep(d: Db, e: Db) {
    || (exists c: Change :: SafeNext(d, e, c))
    || (exists c: Change :: FirstVersion(d, e, c))
    || (exists typeId, latest :: Reordered(d, e, typeId, latest))
  }

  lemma SafeNextKeeps(d: Db, e: Db, c: Change)
    requires SchemaInv(d) && FreshSchema(d) && SafeNext(d, e, c)
    ensures SchemaInv(e)
  {
    hide Numbered, SharedNames, Acyclic, ContainmentEdges, FreshSchema, AssocsOf, AttrsOf, Apart;
    NextKeepsNumbers(d, e, c.typeId, c.latest, c.ver, c.row, c.attrs, c.assocs);
    NextKeepsNames(d, e, c.typeId, c.latest, c.ver, c.row, c.attrs, c.assocs);
    NextKeepsAcyclic(d, e, c.typeId, c.latest, c.ver, c.row, c.attrs, c.assocs, c.extra);
  }

  lemma FirstVersionKeeps(d: Db, e: Db, c: Change)
    requires SchemaInv(d) && FreshSchema(d) && FirstVersion(d, e, c)
    ensures SchemaInv(e)
  {
    hide Numbered, SharedNames, Acyclic, ContainmentEdges, FreshSchema, AttrsOf;
    TypeKeepsNumbers(d, e, c.typeId, c.ver, c.row, c.attrs);
    TypeKeepsNames(d, e, c.typeId, c.ver, c.row, c.attrs);
    TypeKeepsEdges(d, e, c.typeId, c.ver, c.row, c.attrs);
  }

  lemma ReorderKeeps(d: Db, e: Db, typeId: Id, latest: Id)
    requires SchemaInv(d) && Reordered(d, e, typeId, latest)
    ensures SchemaInv(e)
  {
    hide Acyclic, SchemaOnly;
    SameEdges(d, e);
    forall a, b | a in e.attributes && b in e.attributes && SameSlot(e.attributes[a], e.attributes[b])
      ensures a == b
    {
      assert SameSlot(d.attributes[a], d.attributes[b]);
    }
    assert Numbered(e) by {
      hide UniqueAttributeNames, UniqueAssociationNames, SharedNames, ContainmentEdges;
      SameNumbers(d, e);
    }
  }

  lemma SameNumbers(d: Db, e: Db)
    requires Numbered(d) && e.versions == d.versions
    ensures Numbered(e)
  {
    forall v, k: nat | v in e.versions && 1 <= k <= e.versions[v].version
      ensures HasVersion(e, e.versions[v].typeId, k)
    {
      assert HasVersion(d, d.versions[v].typeId, k);
    }
  }

  lemma SameEdges(d: Db, e: Db)
    requires e.versions == d.versions && e.associations == d.associations
    ensures ContainmentEdges(e) == ContainmentEdges(d)
  {
    assert forall s :: IsEdge(e, s) <==> IsEdge(d, s);
  }

  lemma SchemaStepKeeps(d: Db, e: Db)
    requires SchemaInv(d) && FreshSchema(d) && SchemaStep(d, e)
    ensures SchemaInv(e) && FreshSchema(e)
  {
    hide SchemaInv, FreshSchema, SafeNext, FirstVersion, Reordered;
    if c: Change :| SafeNext(d, e, c) {
      SafeNextKeeps(d, e, c);
      SafeNextFresh(d, e, c);
    } else if c: Change :| FirstVersion(d, e, c) {
      FirstVersionKeeps(d, e, c);
      FirstVersionFresh(d, e, c);
    } else {
      var typeId, latest :| Reordered(d, e, typeId, latest);
      ReorderKeeps(d, e, typeId, latest);
      ReorderFresh(d, e, typeId, latest);
    }
  }

  lemma SafeNextFresh(d: Db, e: Db, c: Change)
    requires FreshSchema(d) && SafeNext(d, e, c)
    ensures FreshSchema(e)
  {
    hide UniqueAttributeNames, UniqueAssociationNames, AttrsOf, AssocsOf, ContainmentEdges;
  }

  lemma FirstVersionFresh(d: Db, e: Db, c: Change)
    requires FreshSchema(d) && FirstVersion(d, e, c)
    ensures FreshSchema(e)
  {
    hide UniqueAttributeNames, AttrsOf;
  }

  lemma ReorderFresh(d: Db, e: Db, typeId: Id, latest: Id)
    requires FreshSchema(d) && Reordered(d, e, typeId, latest)
    ensures FreshSchema(e)
  {
    hide IsLatest;
  }

  lemma SchemaStepFreezes(d: Db, e: Db, v: Id)
    requires FreshSchema(d) && SchemaStep(d, e) && v in d.versions && !IsLatest(d, d.versions[v].typeId, v)
    ensures SameVersion(d, e, v) && !IsLatest(e, e.versions[v].typeId, v)
  {
    hide FreshSchema, Reordered, NextVersion, NewType, IsLatest, SameVersion, AssocsOf, ContainmentEdges;
    if c: Change :| SafeNext(d, e, c) {
      NextFreezes(d, e, c.typeId, c.latest, c.ver, c.row, c.attrs, c.assocs, v);
    } else if c: Change :| FirstVersion(d, e, c) {
      TypeFreezes(d, e, c.typeId, c.ver, c.row, c.attrs, v);
    } else {
      var typeId, latest :| Reordered(d, e, typeId, latest);
      ReorderFreezes(d, e, typeId, latest, v);
    }
  }

  ghost predicate SchemaRun(run: seq<Db>) {
    |run| > 0 && forall k :: 0 <= k < |run| - 1 ==> SchemaStep(run[k], run[k + 1])
  }

  /** Over any run the versions of every type are numbered 1 to n, names within a version are
      unique, the containment graph stays acyclic, and a version that is no longer the latest
      is never touched again. */
  lemma {:induction false} SchemaRunKeeps(run: seq<Db>, v: Id)
    requires SchemaRun(run) && SchemaInv(run[0]) && FreshSchema(run[0])
    ensures SchemaInv(run[|run| - 1]) && FreshSchema(run[|run| - 1])
    ensures v in run[0].versions && !IsLatest(run[0], run[0].versions[v].typeId, v) ==>
              SameVersion(run[0], run[|run| - 1], v)
    decreases |run|
  {
    hide SchemaInv, FreshSchema, SchemaStep, IsLatest;
    if |run| > 1 {
      assert SchemaStep(run[0], run[1]);
      SchemaStepKeeps(run[0], run[1]);
      var rest := run[1..];
      forall k | 0 <= k < |rest| - 1
        ensures SchemaStep(rest[k], rest[k + 1])
      {
        assert SchemaStep(run[k + 1], run[k + 2]);
      }
      if v in run[0].versions && !IsLatest(run[0], run[0].versions[v].typeId, v) {
        SchemaStepFreezes(run[0], run[1], v);
      }
      SchemaRunKeeps(rest, v);
    }
  }

  // ---- catalogs ----

  /** Pins name versions that have been made. */
  ghost predicate PinsKnown(d: Db) {
    forall p :: p in d.pins ==> d.pins[p].versionId < d.nextId
  }

  /** What a schema step adds lies in a version no pin names; what it changes is order. */
  ghost predicate SchemaGrows(d: Db, e: Db, ver: Id) {
    && SchemaOnly(d, e) && ver >= d.nextId
    && (forall v :: v in d.versions ==> v in e.versions && e.versions[v] == d.versions[v])
    && (forall v :: v in e.versions && v != ver ==> v in d.versions)
    && (forall a :: a in d.attributes ==> a in e.attributes && e.attributes[a].(ordinal := 0) == d.attributes[a].(ordinal := 0))
    && (forall a :: a in e.attributes && a !in d.attributes ==> e.attributes[a].versionId == ver)
    && AssociationsExtend(d, e, ver)
  }

  lemma NextGrows(d: Db, e: Db, c: Change)
    requires SafeNext(d, e, c) && FreshSchema(d)
    ensures SchemaGrows(d, e, c.ver)
  {
    hide UniqueAttributeNames, UniqueAssociationNames, AttrsOf, AssocsOf, ContainmentEdges, IsLatest, SchemaOnly;
  }

  lemma ReorderGrows(d: Db, e: Db, typeId: Id, latest: Id)
    requires Reordered(d, e, typeId, latest) && FreshSchema(d)
    ensures SchemaGrows(d, e, d.nextId)
  {
    hide UniqueAttributeNames, UniqueAssociationNames, AttrsOf, AssocsOf, ContainmentEdges, IsLatest, SchemaOnly;
  }

  lemma SchemaStepGrows(d: Db, e: Db) returns (ver: Id)
    requires SchemaStep(d, e) && FreshSchema(d)
    ensures SchemaGrows(d, e, ver)
  {
    hide UniqueAttributeNames, UniqueAssociationNames, AttrsOf, AssocsOf, ContainmentEdges, IsLatest, SchemaOnly, SafeNext, Reordered;
    if c: Change :| SafeNext(d, e, c) {
      ver := c.ver;
      NextGrows(d, e, c);
    } else if c: Change :| FirstVersion(d, e, c) {
      ver := c.ver;
    } else {
      var typeId, latest :| Reordered(d, e, typeId, latest);
      ver := d.nextId;
      ReorderGrows(d, e, typeId, latest);
    }
  }

  lemma SamePinnedTypes(d: Db, e: Db, ver: Id, cv: Id)
    requires SchemaGrows(d, e, ver) && PinsKnown(d)
    ensures PinnedTypes(e, cv) == PinnedTypes(d, cv)
  {
    hide AssociationsExtend;
    assert Pin(cv, ver) !in d.pins.Values;
  }

  lemma SameVersionRows(d: Db, e: Db, ver: Id, pinned: map<Id, Id>)
    requires SchemaGrows(d, e, ver) && ver !in pinned
    ensures forall a :: a in e.attributes && e.attributes[a].versionId in pinned <==>
              a in d.attributes && d.attributes[a].versionId in pinned
    ensures forall a :: a in d.attributes && a in e.attributes ==>
              e.attributes[a].(ordinal := 0) == d.attributes[a].(ordinal := 0)
    ensures forall s :: s in e.associations && e.associations[s].versionId in pinned <==>
              s in d.associations && d.associations[s].versionId in pinned
    ensures forall s :: s in d.associations && s in e.associations ==> e.associations[s] == d.associations[s]
  {
    hide SchemaOnly;
    forall a | a in d.attributes
      ensures e.attributes[a].versionId == d.attributes[a].versionId
    {
      assert e.attributes[a].(ordinal := 0).versionId == d.attributes[a].(ordinal := 0).versionId;
    }
  }

  lemma SameDataSeen(d: Db, e: Db, c: Id)
    requires SchemaOnly(d, e)
    ensures MembersOf(d, c) == MembersOf(e, c) && CurrentRows(d, c) == CurrentRows(e, c)
    ensures LinksTouching(d, c) == LinksTouching(e, c)
  {
  }

  lemma NotPinned(d: Db, ver: Id, cv: Id)
    requires FreshSchema(d) && ver >= d.nextId
    ensures ver !in PinnedTypes(d, cv)
  {
  }

  /** No schema edit shows in any catalog. */
  lemma SchemaGrowsUnseen(d: Db, e: Db, ver: Id, c: Id)
    requires SchemaGrows(d, e, ver) && PinsKnown(d) && FreshSchema(d) && c in d.catalogs
    ensures c in e.catalogs && ViewOf(e, c) == ViewOf(d, c)
  {
    hide MembersOf, CurrentRows, LinksTouching, PinnedTypes, AssociationsExtend, FreshSchema, PinsKnown;
    var cv := d.catalogs[c].cvId;
    SameDataSeen(d, e, c);
    SamePinnedTypes(d, e, ver, cv);
    NotPinned(d, ver, cv);
    SameVersionRows(d, e, ver, PinnedTypes(d, cv));
    assert ViewOf(e, c).attributes == ViewOf(d, c).attributes;
    assert ViewOf(e, c).associations == ViewOf(d, c).associations;
  }

  lemma SchemaStepNeverStale(d: Db, e: Db, rules: Rules)
    requires SchemaStep(d, e) && FreshSchema(d) && PinsKnown(d) && NeverStale(d, rules)
    ensures NeverStale(e, rules)
  {
    hide SchemaStep, FreshSchema, PinsKnown, ViewOf, Conforms, NeverStale, AssociationsExtend;
    var ver := SchemaStepGrows(d, e);
    forall c | c in e.catalogs && e.catalogs[c].status.Valid?
      ensures c in d.catalogs && d.catalogs[c].status.Valid? && ViewOf(d, c) == ViewOf(e, c)
    {
      SchemaGrowsUnseen(d, e, ver, c);
    }
    UnchangedStaysFresh(d, e, rules);
  }
}
