/** The data phase of an import: a new draft catalog, every tree, then every link, as one
    transaction. */
module DataImport {
  import opened Domain
  import opened Database
  import opened Conformance
  import opened DataSteps
  import opened Instances
  import opened Catalogs
  import opened ExportJson
  import opened ExportTree
  import opened CatalogExport
  import opened ImportNodes
  import opened ImportRows
  import opened CatalogImport
  import opened ImportLinks

  /** No two instances of the forest share type and name, every value survives, and every link
      resolves to an association of its name and an instance of the forest. */
  ghost predicate Acceptable(s: Scene, g: Target, codec: TextCodec, forest: seq<ExportInstance>) {
    && ForestApart(forest)
    && forall x :: 0 <= x < |forest| ==>
         Importable(s, g, codec, forest[x]) && DistinctKeys(forest[x]) && Linkable(s, g, KeysOfForest(forest), forest[x])
  }

  /** One more catalog, with rows and links of its own; what was there is as it was. */
  ghost predicate Imported(d: Db, e: Db, row: Catalog) {
    && SchemaSame(d, e) && e.catalogs == d.catalogs[d.nextId := row] && e.resources == d.resources && d.nextId < e.nextId
    && (forall i :: i in d.instances ==> i in e.instances && e.instances[i] == d.instances[i])
    && (forall i :: i in e.instances && i !in d.instances ==> d.nextId < i && e.instances[i].catalogId == d.nextId)
    && (forall k: RowKey :: k.inst <= d.nextId ==> (k in e.values <==> k in d.values) && (k in d.values ==> e.values[k] == d.values[k]))
    && (forall l :: l in d.links ==> l in e.links && e.links[l] == d.links[l])
    && forall l :: l in e.links && l !in d.links ==> d.nextId < l
  }

  lemma CatalogAdded(d: Db, e: Db, c: Id, g: Target, row: Catalog)
    requires FreshData(d) && TargetSound(g) && c == d.nextId && UniqueAttributeNames(d.attributes)
    requires SchemaSame(d, e) && DataSame(d.(nextId := c + 1), e) && e.catalogs == d.catalogs[c := row]
    ensures forall i :: i in e.instances ==> e.instances[i].catalogId != c
    ensures Importing(e, c, g) && MembersOf(e, c) == map[] && Ready(ImportScene(e, c, g), map[])
  {
    hide TypeNames, VersionsOf, UniqueAttributeNames;
  }

  lemma AcceptableFits(d: Db, e: Db, c: Id, g: Target, codec: TextCodec, forest: seq<ExportInstance>)
    requires TargetSound(g) && Acceptable(ImportScene(d, c, g), g, codec, forest) && SchemaSame(d, e)
    requires Ready(ImportScene(e, c, g), map[])
    ensures Fits(ImportScene(e, c, g), g, codec, map[], forest)
  {
    hide TypeNames, VersionsOf, MembersOf, Importable, Linkable, DistinctKeys, Ready, ForestApart;
    forall x | 0 <= x < |forest|
      ensures Importable(ImportScene(e, c, g), g, codec, forest[x])
    {
      ImportableStill(ImportScene(d, c, g), ImportScene(e, c, g), g, codec, forest[x]);
    }
  }

  /** The links of the store end at older instances, so none starts at a new one. */
  lemma PlantedIsBlank(d: Db, mid: Db, e: Db, c: Id, g: Target, names: map<string, Id>, key: string)
    requires FreshData(d) && LinksInside(d) && c == d.nextId && TargetSound(g)
    requires mid.instances == d.instances && mid.links == d.links && Added(mid, e, c)
    requires key in names && Ready(ImportScene(e, c, g), names)
    ensures NoLinksFrom(ImportScene(e, c, g), names[key])
  {
    hide TypeNames, VersionsOf, SchemaSame, InstanceKey;
    var i := names[key];
    assert i in MembersOf(e, c);
    forall l | l in e.links
      ensures e.links[l].source != i
    {
      assert e.links[l].source in d.instances;
    }
  }

  lemma PlantedIsLinkable(d: Db, mid: Db, e: Db, c: Id, row: Catalog, g: Target, codec: TextCodec, names: map<string, Id>,
                          forest: seq<ExportInstance>)
    requires FreshData(d) && LinksInside(d) && c == d.nextId && TargetSound(g) && RowAdded(d, mid, row) && Added(mid, e, c)
    requires Acceptable(ImportScene(d, c, g), g, codec, forest)
    requires Planted(ImportScene(mid, c, g), ImportScene(e, c, g), codec, map[], names, forest, None)
    ensures ForestLinkable(ImportScene(e, c, g), g, names, forest)
  {
    hide TypeNames, VersionsOf, MembersOf, Importable, Linkable, DistinctKeys, Ready, ForestApart, FreshData, LinksInside, KeyIn,
         Grown, DepictsNodes, NoLinksFrom, Added, ExportTree.DistinctIds, RowAdded;
    RowsAfter(d, mid, row);
    var w := ImportScene(e, c, g);
    ReadyMeans(w, names);
    forall key | key in KeysOfForest(forest)
      ensures key in names && NoLinksFrom(w, names[key])
    {
      PlantedIsBlank(d, mid, e, c, g, names, key);
    }
    forall x | 0 <= x < |forest|
      ensures Linkable(w, g, Known(names), forest[x])
    {
      AssociationsKept(mid, e, c);
      LinkableStill(ImportScene(d, c, g), w, g, KeysOfForest(forest), Known(names), forest[x]);
    }
  }

  lemma AssociationsKept(d: Db, e: Db, c: Id)
    requires Added(d, e, c)
    ensures e.associations == d.associations
  {
  }

  lemma DrawnGrows(d: Db, e: Db, c: Id, g: Target, names: map<string, Id>, keys: iset<string>)
    requires TargetSound(g) && Drawn(d, e, names, keys)
    ensures Grown(ImportScene(d, c, g), ImportScene(e, c, g))
    ensures ImportScene(e, c, g).members == ImportScene(d, c, g).members
  {
    hide TypeNames, VersionsOf;
  }

  lemma LinkedDepicts(mid: Db, e: Db, f: Db, c: Id, g: Target, codec: TextCodec, names: map<string, Id>,
                      forest: seq<ExportInstance>)
    requires TargetSound(g) && Planted(ImportScene(mid, c, g), ImportScene(e, c, g), codec, map[], names, forest, None)
    requires Drawn(e, f, names, KeysOfForest(forest)) && ForestLinked(ImportScene(f, c, g), names, forest)
    ensures Depicts(ImportScene(f, c, g), codec, names, forest)
  {
    hide ImportScene, Ready, DepictsNodes, DepictsLinks, Drawn, Grown, ExportTree.DistinctIds, KeyInForest;
    var v, w := ImportScene(e, c, g), ImportScene(f, c, g);
    DrawnGrows(e, f, c, g, names, KeysOfForest(forest));
    ReadyMeans(v, names);
    forall x | 0 <= x < |forest|
      ensures DepictsNodes(w, codec, names, forest[x], None)
    {
      DepictedStill(v, w, codec, names, names, forest[x], None);
    }
  }

  lemma ImportedAll(d: Db, mid: Db, e: Db, f: Db, c: Id, row: Catalog, names: map<string, Id>, keys: iset<string>)
    requires FreshData(d) && c == d.nextId
    requires RowAdded(d, mid, row) && Added(mid, e, c) && Drawn(e, f, names, keys)
    ensures Imported(d, f, row)
  {
  }

  ghost predicate RowAdded(d: Db, e: Db, row: Catalog) {
    && SchemaSame(d, e) && DataSame(d.(nextId := d.nextId + 1), e) && e.resources == d.resources
    && e.catalogs == d.catalogs[d.nextId := row]
  }

  /** Catalog names are unique. */
  method CreateCatalogRow(db: Store, row: Catalog) returns (out: Outcome)
    modifies db`catalogs, db`nextId
    ensures out.Fail? <==> exists c :: c in old(db.catalogs) && old(db.catalogs)[c].name == row.name
    ensures out.Fail? ==> db.State() == old(db.State())
    ensures out.Pass? ==> RowAdded(old(db.State()), db.State(), row)
  {
    var taken := FindCatalog(db.catalogs, row.name);
    if taken.Some? {
      return Fail(Conflict);
    }
    db.catalogs := db.catalogs[db.nextId := row];
    db.nextId := db.nextId + 1;
    return Pass;
  }

  lemma CatalogRowAdded(d: Db, e: Db, c: Id, g: Target, codec: TextCodec, row: Catalog, forest: seq<ExportInstance>)
    requires FreshData(d) && TargetSound(g) && c == d.nextId && UniqueAttributeNames(d.attributes) && RowAdded(d, e, row)
    ensures Importing(e, c, g) && (ForestPlantable(e, g, c, forest, None) <==> Accepted(g, forest))
    ensures Acceptable(ImportScene(d, c, g), g, codec, forest) ==> Fits(ImportScene(e, c, g), g, codec, map[], forest)
  {
    hide FreshData, UniqueAttributeNames, Acceptable, ImportScene, Fits, Ready, TargetSound, ForestPlantable, Accepted,
         ParentsBelow;
    CatalogAdded(d, e, c, g, row);
    EmptyCatalogAccepts(e, g, c, forest);
    if Acceptable(ImportScene(d, c, g), g, codec, forest) {
      AcceptableFits(d, e, c, g, codec, forest);
    }
  }

  /** The new links are those that the forest's entries draw, in their order, and come last. */
  ghost predicate LinksOf(d: Db, e: Db, g: Target, names: map<string, Id>, forest: seq<ExportInstance>, drawn: seq<Link>) {
    && TreesDraw(d.associations, g, names, Group(forest), |forest|, drawn)
    && var first: int := e.nextId - |drawn|;
    && first > d.nextId && (forall l :: l in e.links <==> l in d.links || first <= l < e.nextId)
    && forall k :: 0 <= k < |drawn| ==> first + k in e.links && e.links[first + k] == drawn[k]
  }

  lemma DrawnAreLinks(d: Db, mid: Db, e: Db, f: Db, c: Id, row: Catalog, g: Target, names: map<string, Id>,
                      forest: seq<ExportInstance>, drawn: seq<Link>)
    requires RowAdded(d, mid, row) && Added(mid, e, c) && LinksDrawn(e, f, drawn)
    requires TreesDraw(f.associations, g, names, Group(forest), |forest|, drawn)
    ensures LinksOf(d, f, g, names, forest, drawn)
  {
    hide TreesDraw;
    assert f.associations == d.associations && e.links == d.links && e.nextId > d.nextId;
  }

  /** Every name is that of an instance of the new catalog. */
  lemma NamesPlaced(mid: Db, e: Db, codec: TextCodec, g: Target, c: Id, forest: seq<ExportInstance>, names: map<string, Id>)
    requires ForestMade(mid, e, codec, g, c, forest, None, map[], names) && Added(mid, e, c)
    ensures forall key :: key in KeysOfForest(forest) ==> key in names
    ensures forall key :: key in names ==> names[key] in e.instances && e.instances[names[key]].catalogId == c
  {
    hide SchemaSame, StandsSomewhere, InSomeTree, KeysOfForest;
  }

  lemma {:induction false} LinksAreSteps(d: Db, e: Db, c: Id, drawn: seq<Link>)
    requires LinksDrawn(d, e, drawn) && forall l :: l in d.links ==> l < d.nextId
    requires forall k :: 0 <= k < |drawn| ==> StepAllowed(d, c, AddLink(drawn[k]))
    ensures Worked(d, e, c)
    decreases |drawn|
  {
    hide Worked;
    if drawn == [] {
      assert e == d;
      NotWorked(d, c);
    } else {
      var v := ApplyStep(d, AddLink(drawn[0]));
      WorkedOnce(d, c, AddLink(drawn[0]));
      LinksAreSteps(v, e, c, drawn[1..]);
      WorkedTwice(d, v, e, c);
    }
  }

  /** The links of an import are links between instances of its catalog. */
  lemma DrawnIsWorked(mid: Db, e: Db, f: Db, codec: TextCodec, g: Target, c: Id, forest: seq<ExportInstance>,
                      names: map<string, Id>, drawn: seq<Link>)
    requires ForestMade(mid, e, codec, g, c, forest, None, map[], names) && Added(mid, e, c) && FreshData(e)
    requires Drawn(e, f, names, KeysOfForest(forest)) && LinksDrawn(e, f, drawn)
    ensures Worked(e, f, c)
  {
    hide SchemaSame, ForestMade, Added, KeysOfForest, Worked;
    NamesPlaced(mid, e, codec, g, c, forest, names);
    forall k | 0 <= k < |drawn|
      ensures StepAllowed(e, c, AddLink(drawn[k]))
    {
      assert e.nextId + k in f.links && f.links[e.nextId + k] == drawn[k];
      assert Between(names, KeysOfForest(forest), drawn[k]);
    }
    LinksAreSteps(e, f, c, drawn);
  }

  /** The trees, then their links. */
  method FillCatalog(db: Store, codec: TextCodec, g: Target, c: Id, forest: seq<ExportInstance>, ghost d: Db, ghost row: Catalog)
    returns (out: Outcome, ghost names: map<string, Id>, ghost drawn: seq<Link>)
    requires FreshData(d) && LinksInside(d) && TargetSound(g) && UniqueAttributeNames(d.attributes)
    requires c == d.nextId && RowAdded(d, db.State(), row)
    modifies db`instances, db`values, db`links, db`nextId
    ensures Imported(d, db.State(), row)
    ensures out.Pass? <==> Accepted(g, forest)
    ensures out.Pass? ==> Worked(old(db.State()), db.State(), c)
    ensures out.Pass? ==> RowsOf(d, db.State(), codec, g, c, forest, names) && LinksOf(d, db.State(), g, names, forest, drawn)
    ensures out.Fail? ==> db.links == old(db.links)
    ensures Acceptable(ImportScene(d, c, g), g, codec, forest) ==>
              out.Pass? && Depicts(ImportScene(db.State(), c, g), codec, names, forest)
  {
    hide FreshData, LinksInside, UniqueAttributeNames, TargetSound, Acceptable, ImportScene, Imported, Added, Drawn, Planted,
         Depicts, Fits, ForestLinkable, ForestLinked, RowAdded, KeysOfForest, Accepted, ForestPlantable, ForestMade, RowsOf,
         ParentsBelow, LinksOf, LinksDrawn, TreesDraw, Worked;
    ghost var fits := Acceptable(ImportScene(d, c, g), g, codec, forest);
    ghost var mid := db.State();
    CatalogRowAdded(d, mid, c, g, codec, row, forest);
    var created, ids := CreateForest(db, codec, g, c, Group(forest), None, map[]);
    out, names, drawn := created, ids, [];
    ghost var e := db.State();
    DrawnNone(e, ids, KeysOfForest(forest));
    if out.Fail? {
      ImportedAll(d, mid, e, e, c, row, ids, KeysOfForest(forest));
      return;
    }
    if fits {
      PlantedIsLinkable(d, mid, e, c, row, g, codec, ids, forest);
    }
    drawn := CreateForestLinks(db, g, Group(forest), ids, c);
    DrawnAreLinks(d, mid, e, db.State(), c, row, g, ids, forest, drawn);
    RowsAfter(d, mid, row);
    DrawnKeeps(e, db.State(), ids, KeysOfForest(forest));
    MadeAreRows(d, mid, e, db.State(), codec, g, c, forest, ids);
    DrawnIsWorked(mid, e, db.State(), codec, g, c, forest, ids, drawn);
    WorkedTwice(mid, e, db.State(), c);
    ImportedAll(d, mid, e, db.State(), c, row, ids, KeysOfForest(forest));
    if fits {
      LinkedDepicts(mid, e, db.State(), c, g, codec, ids, forest);
    }
  }

  lemma DrawnKeeps(d: Db, e: Db, names: map<string, Id>, keys: iset<string>)
    requires Drawn(d, e, names, keys)
    ensures RowsKept(d, e) && e.instances == d.instances
  {
    hide SchemaSame;
  }

  /** The import succeeds exactly when the name is free and the forest is accepted; otherwise
      everything is as it was. Then it is a new catalog and allowed steps on it: every node has its
      row, every entry that resolves its link, and nothing else is new. A forest that is acceptable
      depicts the new catalog. */
  method ImportData(db: Store, codec: TextCodec, g: Target, name: string, description: string, cvId: Id, forest: seq<ExportInstance>)
    returns (res: Result<Id>, ghost names: map<string, Id>, ghost drawn: seq<Link>)
    requires TargetSound(g) && FreshData(db.State()) && LinksInside(db.State()) && UniqueAttributeNames(db.attributes)
    modifies db`catalogs, db`instances, db`values, db`links, db`nextId
    ensures res.Err? ==> db.State() == old(db.State())
    ensures res.Ok? ==> res.value == old(db.nextId)
                        && Imported(old(db.State()), db.State(), Catalog(name, description, cvId, Draft, false))
    ensures res.Ok? <==> Accepted(g, forest) && forall c :: c in old(db.catalogs) ==> old(db.catalogs)[c].name != name
    ensures res.Ok? ==> Worked(ApplyCatalogStep(old(db.State()), NewCatalog(Catalog(name, description, cvId, Draft, false))),
                               db.State(), res.value)
    ensures res.Ok? ==>
              && RowsOf(old(db.State()), db.State(), codec, g, res.value, forest, names)
              && LinksOf(old(db.State()), db.State(), g, names, forest, drawn)
    ensures (forall c :: c in old(db.catalogs) ==> old(db.catalogs)[c].name != name)
            && Acceptable(ImportScene(old(db.State()), old(db.nextId), g), g, codec, forest) ==>
              res.Ok? && Depicts(ImportScene(db.State(), res.value, g), codec, names, forest)
  {
    hide FreshData, LinksInside, UniqueAttributeNames, TargetSound, Acceptable, ImportScene, Imported, Depicts, RowAdded, Accepted,
         RowsOf, LinksOf, Worked;
    names, drawn := map[], [];
    ghost var d := db.State();
    var c := db.nextId;
    var catalogs, instances, values := db.catalogs, db.instances, db.values;
    var row := Catalog(name, description, cvId, Draft, false);
    var out := CreateCatalogRow(db, row);
    if out.Fail? {
      return Err(out.error), names, drawn;
    }
    RowsAfter(d, db.State(), row);
    RowIsCatalog(d, db.State(), row);
    out, names, drawn := FillCatalog(db, codec, g, c, forest, d, row);
    if out.Fail? {
      db.catalogs, db.instances, db.values, db.nextId := catalogs, instances, values, c;
      return Err(out.error), names, drawn;
    }
    return Ok(c), names, drawn;
  }

  lemma RowIsCatalog(d: Db, e: Db, row: Catalog)
    requires RowAdded(d, e, row)
    ensures e == ApplyCatalogStep(d, NewCatalog(row))
  {
  }

  lemma RowsAfter(d: Db, e: Db, row: Catalog)
    requires RowAdded(d, e, row)
    ensures e.instances == d.instances && e.links == d.links && e.associations == d.associations
  {
  }
}
