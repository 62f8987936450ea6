/** The entity type service: creation, new versions, copies and the tree of types. */
module TypeCalls {
  import opened Domain
  import opened Database
  import opened Digraph
  import opened CycleDetection
  import opened DataSteps
  import opened Instances
  import opened SchemaHistory
  import opened CopyOnWrite
  import opened AttributeCalls
  import opened AssociationCalls

  const RESERVED: set<string> :=
    {"links", "references", "referenced-by", "copy", "replace", "tree", "validate", "publish", "unpublish"}

  predicate TypeNameOk(name: string) {
    0 < |name| <= 255 && name !in RESERVED
  }

  ghost predicate TypeNamed(d: Db, name: string) {
    exists t :: t in d.types && d.types[t] == name
  }

  lemma NothingIn(d: Db, ver: Id)
    requires FreshSchema(d) && ver >= d.nextId
    ensures AttrsOf(d.attributes, ver) == {}
  {
  }

  lemma FirstIsStep(d: Db, e: Db, typeId: Id, ver: Id, row: TypeVersion, attrs: set<Attribute>)
    requires NewType(d, e, typeId, ver, row, attrs)
    ensures SchemaStep(d, e)
  {
    hide NewType;
    assert FirstVersion(d, e, Change(typeId, 0, ver, row, attrs, {}, NO_CONTAINMENT));
  }

  method CreateEntityType(db: Store, name: string, description: string) returns (res: Result<(Id, Id)>)
    requires Indexed(db.State())
    modifies db`types, db`versions, db`nextId
    ensures res.Ok? <==>
              && 0 < |name| <= 255 && |description| <= 1024 && !TypeNamed(old(db.State()), name)
              && name !in {"links", "references", "referenced-by", "copy", "replace", "tree", "validate", "publish", "unpublish"}
    ensures res.Ok? ==>
              && var (typeId, ver) := res.value;
              && NewType(old(db.State()), db.State(), typeId, ver, TypeVersion(typeId, 1, description), {})
              && db.types[typeId] == name && SchemaStep(old(db.State()), db.State())
    ensures res.Ok? ==>
              && db.types == old(db.types)[res.value.0 := name] && res.value.0 !in old(db.types) && res.value.1 !in old(db.versions)
              && db.versions == old(db.versions)[res.value.1 := TypeVersion(res.value.0, 1, description)]
    ensures res.Err? ==> db.State() == old(db.State())
  {
    hide UniqueAttributeNames, UniqueAssociationNames, AttrsOf, SchemaStep;
    if !TypeNameOk(name) || |description| > 1024 {
      return Err(Rejected);
    }
    if t :| t in db.types && db.types[t] == name {
      return Err(Conflict);
    }
    ghost var d := db.State();
    var typeId, ver := db.nextId, db.nextId + 1;
    db.types := db.types[typeId := name];
    db.versions := db.versions[ver := TypeVersion(typeId, 1, description)];
    db.nextId := ver + 1;
    NothingIn(d, ver);
    FirstIsStep(d, db.State(), typeId, ver, TypeVersion(typeId, 1, description), {});
    return Ok((typeId, ver));
  }

  /** The new type, its first version, and the attributes of the version copied. */
  method StoreTypeCopy(db: Store, from: Id, description: string, name: string) returns (typeId: Id, ver: Id)
    requires Indexed(db.State()) && !TypeNamed(db.State(), name)
    modifies db`types, db`versions, db`attributes, db`nextId
    ensures typeId in db.types && db.types[typeId] == name
    ensures NewType(old(db.State()), db.State(), typeId, ver, TypeVersion(typeId, 1, description), AttrsOf(old(db.attributes), from))
    ensures SchemaStep(old(db.State()), db.State())
  {
    hide UniqueAttributeNames, UniqueAssociationNames, AttrsOf, SchemaStep, AttributesCopied, FreshSchema, NewType;
    ghost var d := db.State();
    FreshRows(d);
    typeId, ver := db.nextId, db.nextId + 1;
    var row := TypeVersion(typeId, 1, description);
    NoRowsOf(d, ver);
    db.types := db.types[typeId := name];
    db.versions := db.versions[ver := row];
    db.attributes, db.nextId := CopyAttributes(db.attributes, from, ver, ver + 1);
    CopyIsNewType(d, db.State(), typeId, ver, row, name, from);
  }

  /** A copy takes the attributes of one version and no associations. "text" is the source's id as text. */
  method CopyEntityType(db: Store, source: Id, text: string, number: nat, name: string)
    returns (res: Result<(Id, Id)>, ghost from: Id)
    requires Indexed(db.State())
    modifies db`types, db`versions, db`attributes, db`nextId
    ensures res.Ok? <==> name != "" && (exists v :: IsVersion(old(db.State()), source, number, v))
                         && !TypeNamed(old(db.State()), name)
    ensures res.Ok? ==>
              && var (typeId, ver) := res.value;
              && IsVersion(old(db.State()), source, number, from) && typeId in db.types && db.types[typeId] == name
              && NewType(old(db.State()), db.State(), typeId, ver, TypeVersion(typeId, 1, "Copied from " + text),
                         AttrsOf(old(db.attributes), from))
              && SchemaStep(old(db.State()), db.State())
    ensures res.Ok? ==>
              && db.types == old(db.types)[res.value.0 := name] && res.value.0 !in old(db.types) && res.value.1 !in old(db.versions)
              && db.versions == old(db.versions)[res.value.1 := TypeVersion(res.value.0, 1, "Copied from " + text)]
              && AttributesBecome(old(db.attributes), db.attributes, from, res.value.1, None, {})
    ensures res.Err? ==> db.State() == old(db.State())
  {
    hide UniqueAttributeNames, UniqueAssociationNames, AttrsOf, SchemaStep, FreshSchema, NewType, IsVersion, AttributesBecome;
    from := 0;
    ghost var d := db.State();
    if name == "" {
      return Err(Rejected), from;
    }
    var src := FindVersion(db, source, number);
    if src.None? {
      assert db.State() == d;
      assert forall v :: !IsVersion(d, source, number, v);
      return Err(NotFound), from;
    }
    from := src.value;
    if t :| t in db.types && db.types[t] == name {
      return Err(Conflict), from;
    }
    var typeId, ver := StoreTypeCopy(db, src.value, "Copied from " + text, name);
    NewTypeByRows(d, db.State(), typeId, ver, TypeVersion(typeId, 1, "Copied from " + text), name, src.value);
    return Ok((typeId, ver)), from;
  }

  lemma NewTypeByRows(d: Db, e: Db, typeId: Id, ver: Id, row: TypeVersion, name: string, from: Id)
    requires FreshSchema(d) && NewType(d, e, typeId, ver, row, AttrsOf(d.attributes, from)) && typeId in e.types && e.types[typeId] == name
    ensures typeId !in d.types && ver !in d.versions && e.types == d.types[typeId := name] && e.versions == d.versions[ver := row]
    ensures AttributesBecome(d.attributes, e.attributes, from, ver, None, {})
  {
    hide AttrsOf, UniqueAttributeNames, AttributesBecome;
    AttributesFrom(d.attributes, e.attributes, from, ver, None, {}, {});
  }

  lemma CopyIsNewType(d: Db, e: Db, typeId: Id, ver: Id, row: TypeVersion, name: string, from: Id)
    requires FreshSchema(d) && !TypeNamed(d, name) && typeId == d.nextId && ver == typeId + 1
    requires e.types == d.types[typeId := name] && e.versions == d.versions[ver := row]
    requires row.typeId == typeId && row.version == 1 && SchemaOnly(d, e) && e.associations == d.associations
    requires AttributesCopied(d.attributes, from, ver, ver + 1, e.attributes, e.nextId)
    ensures NewType(d, e, typeId, ver, row, AttrsOf(d.attributes, from)) && SchemaStep(d, e)
  {
    hide AttrsOf, UniqueAttributeNames, SchemaOnly, SchemaStep;
    var attrs := AttrsOf(d.attributes, from);
    assert NewType(d, e, typeId, ver, row, attrs);
    FirstIsStep(d, e, typeId, ver, row, attrs);
  }

  lemma NoRowsOf(d: Db, ver: Id)
    requires FreshSchema(d) && ver >= d.nextId
    ensures forall a :: a in d.attributes ==> a < ver && d.attributes[a].versionId != ver
    ensures d.nextId <= ver
  {
  }

  /** A new description is a new version with the same attributes and associations. */
  method UpdateEntityType(db: Store, typeId: Id, description: string) returns (res: Result<Id>, ghost c: Change)
    requires Indexed(db.State())
    modifies db`versions, db`attributes, db`associations, db`nextId
    ensures res.Ok? <==> HasVersions(old(db.State()), typeId) && typeId in old(db.types)
    ensures !HasVersions(old(db.State()), typeId) ==> db.State() == old(db.State())
    ensures HasVersions(old(db.State()), typeId) ==>
              && Next(old(db.State()), db.State(), c) && c.typeId == typeId && c.row.description == description
              && c.attrs == AttrsOf(old(db.attributes), c.latest) && c.assocs == AssocsOf(old(db.associations), c.latest)
              && (SharedNames(old(db.State())) ==> SchemaStep(old(db.State()), db.State()))
    ensures HasVersions(old(db.State()), typeId) ==>
              VersionBecomes(old(db.State()), db.State(), typeId, c.latest, c.ver, description, None, {}, None, {})
    ensures res.Ok? ==> res.value == c.ver
  {
    hide NextVersion, FreshSchema, UniqueAttributeNames, UniqueAssociationNames, IsLatest, AttrsOf, AssocsOf, SharedNames,
         Apart, SchemaStep, SchemaOnly, VersionBecomes;
    c := Change(0, 0, 0, TypeVersion(0, 0, ""), {}, {}, NO_CONTAINMENT);
    var found := GetLatest(db, typeId);
    if found.Err? {
      return Err(NotFound), c;
    }
    LatestIs(db.State(), typeId, found.value);
    ghost var d := db.State();
    var ver := CopyVersion(db, typeId, found.value, description);
    c := PlainChange(d, typeId, found.value, ver, description);
    if SharedNames(d) {
      NamesStayApart(d, found.value);
      AttributeChangeIsSafe(d, db.State(), c);
    }
    NoChangeByRows(d, db.State(), c);
    if typeId !in db.types {
      return Err(NotFound), c;
    }
    return Ok(ver), c;
  }

  // ---- the tree of types ----

  datatype TypeNode = TypeNode(versions: seq<Id>, latest: nat, children: set<Id>)

  function VersionsOfType(versions: map<Id, TypeVersion>, typeId: Id): set<Id> {
    set v | v in versions && versions[v].typeId == typeId
  }

  /** The versions of the type, each once, by rising number. */
  ghost predicate ListsVersions(versions: map<Id, TypeVersion>, typeId: Id, list: seq<Id>) {
    && Distinct(list) && (forall v :: v in list <==> v in VersionsOfType(versions, typeId))
    && forall j, k :: 0 <= j < k < |list| && list[j] in versions && list[k] in versions ==>
         versions[list[j]].version <= versions[list[k]].version
  }

  lemma {:induction false} LowestExists(versions: map<Id, TypeVersion>, some: set<Id>)
    requires some <= versions.Keys && some != {}
    ensures exists v :: v in some && forall w :: w in some ==> versions[v].version <= versions[w].version
    decreases some
  {
    var v :| v in some;
    if some != {v} {
      LowestExists(versions, some - {v});
      var w :| w in some - {v} && forall x :: x in some - {v} ==> versions[w].version <= versions[x].version;
      if versions[v].version < versions[w].version {
        assert forall x :: x in some ==> versions[v].version <= versions[x].version;
      } else {
        assert forall x :: x in some ==> versions[w].version <= versions[x].version;
      }
    }
  }

  /** Listed so far, and nothing left is lower. */
  ghost predicate ListedBefore(versions: map<Id, TypeVersion>, typeId: Id, list: seq<Id>, todo: set<Id>) {
    && todo <= VersionsOfType(versions, typeId)
    && Distinct(list) && (forall v :: v in list <==> v in VersionsOfType(versions, typeId) - todo)
    && (forall v, w :: v in list && w in todo ==> v in versions && versions[v].version <= versions[w].version)
    && forall j, k :: 0 <= j < k < |list| && list[j] in versions && list[k] in versions ==>
         versions[list[j]].version <= versions[list[k]].version
  }

  lemma LowestListed(versions: map<Id, TypeVersion>, typeId: Id, list: seq<Id>, todo: set<Id>, v: Id)
    requires ListedBefore(versions, typeId, list, todo) && v in todo
    requires forall w :: w in todo ==> versions[v].version <= versions[w].version
    ensures ListedBefore(versions, typeId, list + [v], todo - {v})
  {
  }

  method ListByEntityType(db: Store, typeId: Id) returns (list: seq<Id>)
    ensures ListsVersions(db.versions, typeId, list)
  {
    list := [];
    var todo := VersionsOfType(db.versions, typeId);
    while todo != {}
      invariant ListedBefore(db.versions, typeId, list, todo)
      decreases todo
    {
      LowestExists(db.versions, todo);
      var v :| v in todo && forall w :: w in todo ==> db.versions[v].version <= db.versions[w].version;
      LowestListed(db.versions, typeId, list, todo, v);
      list, todo := list + [v], todo - {v};
    }
  }

  /** The node lists the type's versions, with the highest of their numbers, or 0. */
  ghost predicate NodeOf(d: Db, typeId: Id, node: TypeNode) {
    && ListsVersions(d.versions, typeId, node.versions)
    && (forall v :: v in VersionsOfType(d.versions, typeId) ==> d.versions[v].version <= node.latest)
    && (node.latest == 0 || exists v :: v in VersionsOfType(d.versions, typeId) && d.versions[v].version == node.latest)
  }

  method ReadNode(db: Store, typeId: Id, children: set<Id>) returns (node: TypeNode)
    ensures NodeOf(db.State(), typeId, node) && node.children == children
  {
    var list := ListByEntityType(db, typeId);
    assert forall j :: 0 <= j < |list| ==> list[j] in VersionsOfType(db.versions, typeId);
    var latest := 0;
    for k := 0 to |list|
      invariant forall j :: 0 <= j < k ==> db.versions[list[j]].version <= latest
      invariant latest == 0 || exists v :: v in VersionsOfType(db.versions, typeId) && db.versions[v].version == latest
    {
      if db.versions[list[k]].version > latest {
        latest := db.versions[list[k]].version;
        assert list[k] in VersionsOfType(db.versions, typeId);
      }
    }
    return TypeNode(list, latest, children);
  }

  /** The numbers run from 1 without a gap, so a node lists version k at place k and its highest
      number is how many versions there are. */
  lemma {:induction false} NodeListsAll(d: Db, typeId: Id, node: TypeNode, k: nat)
    requires Numbered(d) && NodeOf(d, typeId, node) && k <= |node.versions|
    ensures forall j :: 0 <= j < k ==> node.versions[j] in d.versions && d.versions[node.versions[j]].version == j + 1
    ensures k == |node.versions| ==> node.latest == k
  {
    var list := node.versions;
    if k > 0 {
      NodeListsAll(d, typeId, node, k - 1);
      NextNumber(d, typeId, list, k - 1);
    }
    if k == |list| {
      if k > 0 {
        assert list[k - 1] in VersionsOfType(d.versions, typeId);
      }
      if v :| v in VersionsOfType(d.versions, typeId) && d.versions[v].version == node.latest {
        assert v in list;
        var j :| 0 <= j < |list| && list[j] == v;
      }
    }
  }

  lemma NextNumber(d: Db, typeId: Id, list: seq<Id>, k: nat)
    requires Numbered(d) && ListsVersions(d.versions, typeId, list) && k < |list|
    requires forall j :: 0 <= j < k ==> list[j] in d.versions && d.versions[list[j]].version == j + 1
    ensures list[k] in d.versions && d.versions[list[k]].version == k + 1
  {
    var v := list[k];
    assert v in VersionsOfType(d.versions, typeId);
    if k > 0 {
      assert list[k - 1] in VersionsOfType(d.versions, typeId) && list[k - 1] != v;
      assert !SameNumber(d.versions[v], d.versions[list[k - 1]]);
    }
    assert HasVersion(d, typeId, k + 1);
    var w :| w in d.versions && d.versions[w].typeId == typeId && d.versions[w].version == k + 1;
    assert w in list;
    var j :| 0 <= j < |list| && list[j] == w;
    assert j >= k;
  }

  /** Every entity type with its versions and what it contains, and who is contained by nobody. */
  method GetContainmentTree(db: Store) returns (nodes: map<Id, TypeNode>, roots: set<Id>)
    ensures nodes.Keys == db.types.Keys
    ensures forall t, u :: t in nodes ==> (u in nodes[t].children <==> u in db.types && (t, u) in ContainmentEdges(db.State()))
    ensures forall t :: t in nodes ==> NodeOf(db.State(), t, nodes[t])
    ensures forall t :: t in roots <==> t in db.types && IsRoot(ContainmentEdges(db.State()), t)
  {
    hide NodeOf, ContainmentEdges, IsRoot;
    var children;
    children, roots := GetChildren(db);
    nodes := map[];
    var todo := db.types.Keys;
    while todo != {}
      invariant todo <= db.types.Keys && nodes.Keys == db.types.Keys - todo
      invariant forall t :: t in nodes ==> nodes[t].children == children[t] && NodeOf(db.State(), t, nodes[t])
      decreases todo
    {
      var t :| t in todo;
      var node := ReadNode(db, t, children[t]);
      nodes := nodes[t := node];
      todo := todo - {t};
    }
  }

  method GetChildren(db: Store) returns (children: map<Id, set<Id>>, roots: set<Id>)
    ensures children.Keys == db.types.Keys
    ensures forall t, u :: t in children ==> (u in children[t] <==> u in db.types && (t, u) in ContainmentEdges(db.State()))
    ensures forall t :: t in roots <==> t in db.types && IsRoot(ContainmentEdges(db.State()), t)
  {
    hide ContainmentEdges;
    var edges := GetContainmentGraph(db);
    var all, contained: set<Id> := map[], {};
    for k := 0 to |edges|
      invariant forall t, u :: (t in all && u in all[t]) <==> (t, u) in edges[..k]
      invariant forall u :: u in contained <==> exists e :: e in edges[..k] && e.1 == u
    {
      var (t, u) := edges[k];
      ghost var was := contained;
      assert edges[..k + 1] == edges[..k] + [(t, u)];
      all := all[t := (if t in all then all[t] else {}) + {u}];
      contained := contained + {u};
      MoreContained(edges[..k], (t, u), was);
    }
    assert edges[..|edges|] == edges;
    children := map t | t in db.types :: set u | u in db.types && t in all && u in all[t];
    roots := set t | t in db.types && t !in contained;
    forall t
      ensures t in contained <==> !IsRoot(ContainmentEdges(db.State()), t)
    {
      if t in contained {
        var e :| e in edges && e.1 == t;
        assert e in EdgeSet(edges);
      } else {
        forall e | e in ContainmentEdges(db.State())
          ensures e.1 != t
        {
          assert e in edges;
        }
      }
    }
  }

  lemma MoreContained(edges: seq<Edge>, e: Edge, contained: set<Id>)
    requires forall u :: u in contained <==> exists x :: x in edges && x.1 == u
    ensures forall u :: u in contained + {e.1} <==> exists x :: x in edges + [e] && x.1 == u
  {
    forall u | u in contained + {e.1}
      ensures exists x :: x in edges + [e] && x.1 == u
    {
      if u in contained {
        var x :| x in edges && x.1 == u;
        assert x in edges + [e];
      } else {
        assert e in edges + [e];
      }
    }
  }

  /** Every entity type is reached from a root the tree lists, and no descent comes back, so
      walking down the tree ends and misses none. */
  lemma TreeReachesEveryType(d: Db, roots: set<Id>, typeId: Id)
    requires SchemaInv(d) && typeId in d.types
    requires forall e :: e in ContainmentEdges(d) ==> e.0 in d.types
    requires forall t :: t in roots <==> t in d.types && IsRoot(ContainmentEdges(d), t)
    ensures exists root :: root in roots && Reaches(ContainmentEdges(d), root, typeId)
    ensures forall e :: e in ContainmentEdges(d) ==> !Reaches(ContainmentEdges(d), e.1, e.0)
  {
    hide ContainmentEdges;
    EveryTypeUnderARoot(d, typeId);
    AcyclicMeansNoReturn(ContainmentEdges(d));
    var root :| IsRoot(ContainmentEdges(d), root) && Reaches(ContainmentEdges(d), root, typeId);
    if root != typeId {
      var w :| WalkFromTo(ContainmentEdges(d), w, root, typeId);
      assert (w[0], w[1]) in ContainmentEdges(d);
    }
  }
}
