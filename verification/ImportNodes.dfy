/** One node of an imported tree: its row, its values, and what export makes of them. */
module ImportNodes {
  import opened Domain
  import opened Database
  import opened Conformance
  import opened DataSteps
  import opened Revisions
  import opened Instances
  import opened ExportJson
  import opened ExportTree
  import opened CatalogExport

  /** What the schema phase hands over: types and versions by type name, and the associations of
      the types it created or reused, by name. */
  datatype Target = Target(typeIds: map<string, Id>, versionIds: map<string, Id>, associations: map<string, Id>)

  ghost predicate TargetSound(g: Target) {
    && (forall m, n :: m in g.typeIds && n in g.typeIds && g.typeIds[m] == g.typeIds[n] ==> m == n)
    && g.typeIds.Keys == g.versionIds.Keys
  }

  function TypeNames(g: Target): map<Id, string>
    requires TargetSound(g)
  {
    map n | n in g.typeIds :: g.typeIds[n] := n
  }

  function VersionsOf(g: Target): map<Id, Id>
    requires TargetSound(g)
  {
    map n | n in g.typeIds :: g.typeIds[n] := g.versionIds[n]
  }

  lemma TypeIsNamed(g: Target, n: string)
    requires TargetSound(g) && n in g.typeIds
    ensures var i := g.typeIds[n];
            && i in TypeNames(g) && TypeNames(g)[i] == n && i in VersionsOf(g) && VersionsOf(g)[i] == g.versionIds[n]
  {
  }

  /** The new catalog, as the import's types and versions read it. */
  ghost function ImportScene(d: Db, c: Id, g: Target): Scene
    requires TargetSound(g)
  {
    Scene(TypeNames(g), VersionsOf(g), MembersOf(d, c), d.values, d.links, d.attributes, d.typeDefs, d.associations)
  }

  // ---- growing scenes ----

  /** More instances, with their rows; the others as they were. */
  ghost predicate Grown(s: Scene, w: Scene) {
    && w.typeName == s.typeName && w.versionOf == s.versionOf && w.attributes == s.attributes
    && w.typeDefs == s.typeDefs && w.associations == s.associations
    && (forall i :: i in s.members ==> i in w.members && w.members[i] == s.members[i])
    && forall k: RowKey :: k.inst in s.members ==> (k in w.values <==> k in s.values) && (k in s.values ==> w.values[k] == s.values[k])
  }

  ghost predicate MoreNames(m: map<string, Id>, n: map<string, Id>) {
    forall key :: key in m ==> key in n && n[key] == m[key]
  }

  lemma GrownTransitive(s: Scene, v: Scene, w: Scene)
    requires Grown(s, v) && Grown(v, w)
    ensures Grown(s, w)
  {
  }

  lemma NodeShownStill(s: Scene, w: Scene, codec: TextCodec, i: Id, t: ExportInstance, parent: Option<Id>)
    requires ShowsNode(s, codec, i, t, parent) && Grown(s, w)
    ensures ShowsNode(w, codec, i, t, parent)
  {
    hide ExportValue;
    forall a | AttributeHere(w, i, a)
      ensures AttributeHere(s, i, a) && ExportedAt(w, codec, i, a) == ExportedAt(s, codec, i, a)
    {
    }
  }

  /** What a tree depicts it still depicts in a grown scene. */
  lemma {:induction false} DepictedStill(s: Scene, w: Scene, codec: TextCodec, m: map<string, Id>, n: map<string, Id>,
                                         t: ExportInstance, parent: Option<Id>)
    requires DepictsNodes(s, codec, m, t, parent) && Grown(s, w) && MoreNames(m, n)
    ensures DepictsNodes(w, codec, n, t, parent)
    decreases t
  {
    hide ShowsNode, Grown;
    NodeShownStill(s, w, codec, m[NodeKey(t)], t, parent);
    forall k, x | k in t.children && 0 <= x < |t.children[k].trees|
      ensures DepictsNodes(w, codec, n, t.children[k].trees[x], Some(n[NodeKey(t)]))
    {
      DepictedStill(s, w, codec, m, n, t.children[k].trees[x], Some(m[NodeKey(t)]));
    }
  }

  // ---- what an import needs of a tree ----

  ghost predicate ValueFits(s: Scene, codec: TextCodec, ver: Id, n: string, j: Json) {
    exists a :: a in s.attributes && s.attributes[a].versionId == ver && s.attributes[a].name == n
                && ExportValue(codec, BaseHere(s, a), ImportValue(codec, BaseHere(s, a), j)) == Some(j)
  }

  /** Every value is one of an attribute of the target version, and survives there. */
  ghost predicate Importable(s: Scene, g: Target, codec: TextCodec, t: ExportInstance)
    decreases t
  {
    && t.entityType in g.versionIds
    && (forall n :: n in t.attributes ==> ValueFits(s, codec, g.versionIds[t.entityType], n, t.attributes[n]))
    && forall k, x :: k in t.children && 0 <= x < |t.children[k].trees| ==> Importable(s, g, codec, t.children[k].trees[x])
  }

  lemma {:induction false} ImportableStill(s: Scene, w: Scene, g: Target, codec: TextCodec, t: ExportInstance)
    requires Importable(s, g, codec, t) && w.attributes == s.attributes && w.typeDefs == s.typeDefs
    ensures Importable(w, g, codec, t)
    decreases t
  {
    hide ExportValue, ImportValue;
    forall n | n in t.attributes
      ensures ValueFits(w, codec, g.versionIds[t.entityType], n, t.attributes[n])
    {
      assert ValueFits(s, codec, g.versionIds[t.entityType], n, t.attributes[n]);
    }
    forall k, x | k in t.children && 0 <= x < |t.children[k].trees|
      ensures Importable(w, g, codec, t.children[k].trees[x])
    {
      ImportableStill(s, w, g, codec, t.children[k].trees[x]);
    }
  }

  // ---- values ----

  ghost predicate RowsRead(d: Db, codec: TextCodec, ver: Id, attrs: map<string, Json>, rows: map<Id, Value>) {
    && (forall a :: a in rows <==> a in d.attributes && d.attributes[a].versionId == ver && d.attributes[a].name in attrs)
    && (forall a :: a in rows && a in d.attributes && d.attributes[a].name in attrs ==>
          rows[a] == ImportValue(codec, BaseOfAttribute(d, a), attrs[d.attributes[a].name]))
  }

  /** Values of names that are no attribute of the version are dropped. */
  method ReadValues(db: Store, codec: TextCodec, ver: Id, attrs: map<string, Json>) returns (rows: map<Id, Value>)
    requires UniqueAttributeNames(db.attributes)
    ensures RowsRead(db.State(), codec, ver, attrs, rows)
  {
    hide ImportValue;
    rows := map[];
    var todo := attrs.Keys;
    while todo != {}
      invariant todo <= attrs.Keys
      invariant forall a :: a in rows <==> a in db.attributes && db.attributes[a].versionId == ver
                                           && db.attributes[a].name in attrs && db.attributes[a].name !in todo
      invariant forall a :: a in rows ==> rows[a] == ImportValue(codec, BaseOfAttribute(db.State(), a), attrs[db.attributes[a].name])
      decreases todo
    {
      var n :| n in todo;
      if a :| a in db.attributes && db.attributes[a].versionId == ver && db.attributes[a].name == n {
        forall b | b in db.attributes && db.attributes[b].versionId == ver && db.attributes[b].name == n
          ensures b == a
        {
          assert SameSlot(db.attributes[a], db.attributes[b]);
        }
        rows := rows[a := ImportValue(codec, BaseOfAttribute(db.State(), a), attrs[n])];
      }
      todo := todo - {n};
    }
  }

  // ---- one node ----

  /** More rows, all of them in one catalog; the rest of the store as it was. */
  ghost predicate Added(d: Db, e: Db, c: Id) {
    && SchemaSame(d, e) && e.catalogs == d.catalogs && e.resources == d.resources && e.links == d.links && d.nextId <= e.nextId
    && (forall i :: i in d.instances ==> i in e.instances && e.instances[i] == d.instances[i])
    && (forall i :: i in e.instances && i !in d.instances ==> d.nextId <= i && e.instances[i].catalogId == c)
    && (forall k: RowKey :: k.inst < d.nextId ==> (k in e.values <==> k in d.values) && (k in d.values ==> e.values[k] == d.values[k]))
  }

  lemma AddedTwice(d: Db, e: Db, f: Db, c: Id)
    requires Added(d, e, c) && Added(e, f, c)
    ensures Added(d, f, c)
  {
  }

  lemma AddedGrows(d: Db, e: Db, c: Id, g: Target)
    requires FreshData(d) && TargetSound(g) && Added(d, e, c)
    ensures Grown(ImportScene(d, c, g), ImportScene(e, c, g))
  {
    hide TypeNames, VersionsOf;
  }

  /** The store after one row has been created with its values. */
  ghost predicate RowCreated(d: Db, e: Db, row: Instance, rows: map<Id, Value>) {
    && SchemaSame(d, e) && e.catalogs == d.catalogs && e.resources == d.resources && e.links == d.links
    && e.instances == d.instances[d.nextId := row] && e.values == WithRows(d.values, d.nextId, 1, rows)
    && e.nextId == d.nextId + 1
  }

  lemma CreatedAdds(d: Db, e: Db, c: Id, row: Instance, rows: map<Id, Value>)
    requires FreshData(d) && RowCreated(d, e, row, rows) && row.catalogId == c && c < d.nextId
    ensures Added(d, e, c) && FreshData(e)
    ensures MembersOf(e, c) == MembersOf(d, c)[d.nextId := row] && d.nextId !in MembersOf(d, c)
    ensures forall a :: RowKey(d.nextId, 1, a) in e.values <==> a in rows
    ensures forall a :: a in rows ==> e.values[RowKey(d.nextId, 1, a)] == rows[a]
  {
    hide WithRows, SchemaSame;
    forall k: RowKey
      ensures k in e.values <==> k in d.values || (k.inst == d.nextId && k.ver == 1 && k.attr in rows)
      ensures k in d.values && k.inst != d.nextId ==> k in e.values && e.values[k] == d.values[k]
    {
      RowsCreated(d.values, d.nextId, rows, k);
    }
    forall a | a in rows
      ensures e.values[RowKey(d.nextId, 1, a)] == rows[a]
    {
      RowsCreated(d.values, d.nextId, rows, RowKey(d.nextId, 1, a));
    }
  }

  lemma RowsCreated(values: Rows, i: Id, rows: map<Id, Value>, k: RowKey)
    ensures k in WithRows(values, i, 1, rows) <==> k in values || (k.inst == i && k.ver == 1 && k.attr in rows)
    ensures k in values && k.inst != i ==> WithRows(values, i, 1, rows)[k] == values[k]
    ensures k.inst == i && k.ver == 1 && k.attr in rows ==> WithRows(values, i, 1, rows)[k] == rows[k.attr]
  {
  }

  /** The instance's rows are the values read from the map, and each is exported as it was. */
  ghost predicate RowsShow(w: Scene, codec: TextCodec, i: Id, ver: Id, attrs: map<string, Json>) {
    && (forall a :: a in w.attributes && w.attributes[a].versionId == ver ==>
          if w.attributes[a].name in attrs
          then RowKey(i, 1, a) in w.values && ExportValue(codec, BaseHere(w, a), w.values[RowKey(i, 1, a)]) == Some(attrs[w.attributes[a].name])
          else RowKey(i, 1, a) !in w.values)
    && forall n :: n in attrs ==> exists a :: a in w.attributes && w.attributes[a].versionId == ver && w.attributes[a].name == n
  }

  lemma RowsShowMeans(w: Scene, codec: TextCodec, i: Id, ver: Id, attrs: map<string, Json>)
    requires RowsShow(w, codec, i, ver, attrs) && i in w.members && w.members[i].version == 1
    requires w.members[i].typeId in w.versionOf && w.versionOf[w.members[i].typeId] == ver
    ensures ShowsAttributes(w, codec, i, attrs)
  {
    hide ExportValue;
    forall n | n in attrs
      ensures exists a :: AttributeHere(w, i, a) && w.attributes[a].name == n
    {
      var a :| a in w.attributes && w.attributes[a].versionId == ver && w.attributes[a].name == n;
      assert AttributeHere(w, i, a);
    }
  }

  lemma RowsReadShow(d: Db, w: Scene, codec: TextCodec, i: Id, g: Target, t: ExportInstance, rows: map<Id, Value>)
    requires UniqueAttributeNames(d.attributes) && w.attributes == d.attributes && w.typeDefs == d.typeDefs
    requires t.entityType in g.versionIds && RowsRead(d, codec, g.versionIds[t.entityType], t.attributes, rows)
    requires Importable(w, g, codec, t)
    requires forall a :: RowKey(i, 1, a) in w.values <==> a in rows
    requires forall a :: a in rows ==> w.values[RowKey(i, 1, a)] == rows[a]
    ensures RowsShow(w, codec, i, g.versionIds[t.entityType], t.attributes)
  {
    hide ExportValue, ImportValue, UniqueAttributeNames, Importable;
    var ver := g.versionIds[t.entityType];
    forall a | a in w.attributes && w.attributes[a].versionId == ver && w.attributes[a].name in t.attributes
      ensures RowKey(i, 1, a) in w.values
      ensures ExportValue(codec, BaseHere(w, a), w.values[RowKey(i, 1, a)]) == Some(t.attributes[w.attributes[a].name])
    {
      FitsHere(w, g, codec, t, a);
      assert BaseHere(w, a) == BaseOfAttribute(d, a);
    }
    forall n | n in t.attributes
      ensures exists a :: a in w.attributes && w.attributes[a].versionId == ver && w.attributes[a].name == n
    {
      var a := FitAttribute(w, g, codec, t, n);
    }
  }

  lemma FitAttribute(s: Scene, g: Target, codec: TextCodec, t: ExportInstance, n: string) returns (a: Id)
    requires Importable(s, g, codec, t) && n in t.attributes && t.entityType in g.versionIds
    ensures a in s.attributes && s.attributes[a].versionId == g.versionIds[t.entityType] && s.attributes[a].name == n
    ensures ExportValue(codec, BaseHere(s, a), ImportValue(codec, BaseHere(s, a), t.attributes[n])) == Some(t.attributes[n])
  {
    hide ExportValue, ImportValue;
    assert ValueFits(s, codec, g.versionIds[t.entityType], n, t.attributes[n]);
    a :| a in s.attributes && s.attributes[a].versionId == g.versionIds[t.entityType] && s.attributes[a].name == n
         && ExportValue(codec, BaseHere(s, a), ImportValue(codec, BaseHere(s, a), t.attributes[n])) == Some(t.attributes[n]);
  }

  lemma FitsHere(s: Scene, g: Target, codec: TextCodec, t: ExportInstance, a: Id)
    requires Importable(s, g, codec, t) && t.entityType in g.versionIds && UniqueAttributeNames(s.attributes)
    requires a in s.attributes && s.attributes[a].versionId == g.versionIds[t.entityType] && s.attributes[a].name in t.attributes
    ensures var j := t.attributes[s.attributes[a].name];
            ExportValue(codec, BaseHere(s, a), ImportValue(codec, BaseHere(s, a), j)) == Some(j)
  {
    hide ExportValue, ImportValue, Importable;
    var b := FitAttribute(s, g, codec, t, s.attributes[a].name);
    assert SameSlot(s.attributes[a], s.attributes[b]);
  }

  /** The new row is what its node says. */
  lemma CreatedShows(d: Db, e: Db, c: Id, g: Target, codec: TextCodec, t: ExportInstance, parent: Option<Id>, row: Instance,
                     rows: map<Id, Value>)
    requires FreshData(d) && TargetSound(g) && RowCreated(d, e, row, rows) && UniqueAttributeNames(d.attributes) && c < d.nextId
    requires t.entityType in g.typeIds && row == Instance(g.typeIds[t.entityType], c, parent, t.name, t.description, 1)
    requires RowsRead(d, codec, g.versionIds[t.entityType], t.attributes, rows)
    requires Importable(ImportScene(d, c, g), g, codec, t)
    ensures ShowsNode(ImportScene(e, c, g), codec, d.nextId, t, parent)
  {
    hide WithRows, Importable, UniqueAttributeNames, FreshData, Added, TypeNames, VersionsOf, MembersOf, RowsRead, RowsShow,
         ShowsAttributes;
    var w := ImportScene(e, c, g);
    CreatedAdds(d, e, c, row, rows);
    TypeIsNamed(g, t.entityType);
    ImportableStill(ImportScene(d, c, g), w, g, codec, t);
    RowsReadShow(d, w, codec, d.nextId, g, t, rows);
    RowsShowMeans(w, codec, d.nextId, g.versionIds[t.entityType], t.attributes);
  }

  ghost predicate NodeCreated(d: Db, e: Db, codec: TextCodec, g: Target, c: Id, t: ExportInstance, parent: Option<Id>,
                              rows: map<Id, Value>) {
    && t.entityType in g.typeIds && t.entityType in g.versionIds
    && RowsRead(d, codec, g.versionIds[t.entityType], t.attributes, rows)
    && RowCreated(d, e, Instance(g.typeIds[t.entityType], c, parent, t.name, t.description, 1), rows)
  }

  /** The type is known, and no instance of the type and name is under the parent yet. */
  ghost predicate Creatable(d: Db, g: Target, c: Id, t: ExportInstance, parent: Option<Id>) {
    && t.entityType in g.typeIds
    && !ScopeTaken(d.instances, d.nextId, Instance(g.typeIds[t.entityType], c, parent, t.name, t.description, 1))
  }

  method InsertInstance(db: Store, row: Instance, rows: map<Id, Value>)
    requires FreshData(db.State())
    modifies db`instances, db`values, db`nextId
    ensures RowCreated(old(db.State()), db.State(), row, rows)
  {
    hide FreshData, Keyed;
    NoRowsYet(db.State(), rows);
    var i := db.nextId;
    db.instances := db.instances[i := row];
    db.nextId := i + 1;
    var out := SetValues(db, Keyed(i, 1, rows));
  }

  lemma NoRowsYet(d: Db, rows: map<Id, Value>)
    requires FreshData(d)
    ensures forall k :: k in Keyed(d.nextId, 1, rows) ==> k !in d.values
  {
  }

  /** The row of one node and its values. An unknown type, or an instance of the same type and
      name already under the parent, is refused. */
  method CreateNode(db: Store, codec: TextCodec, g: Target, c: Id, t: ExportInstance, parent: Option<Id>)
    returns (out: Outcome, ghost rows: map<Id, Value>)
    requires TargetSound(g) && FreshData(db.State()) && UniqueAttributeNames(db.attributes)
    modifies db`instances, db`values, db`nextId
    ensures out.Fail? <==> !Creatable(old(db.State()), g, c, t, parent)
    ensures out.Fail? ==> db.State() == old(db.State())
    ensures out.Pass? ==> NodeCreated(old(db.State()), db.State(), codec, g, c, t, parent, rows)
  {
    hide RowsRead, SameScope, RowCreated, FreshData, UniqueAttributeNames;
    rows := map[];
    if t.entityType !in g.typeIds || t.entityType !in g.versionIds {
      return Fail(Rejected), rows;
    }
    var row := Instance(g.typeIds[t.entityType], c, parent, t.name, t.description, 1);
    if j :| j in db.instances && j != db.nextId && SameScope(db.instances[j], row) {
      return Fail(Conflict), rows;
    }
    var read := ReadValues(db, codec, g.versionIds[t.entityType], t.attributes);
    rows := read;
    InsertInstance(db, row, read);
    return Pass, rows;
  }
}
