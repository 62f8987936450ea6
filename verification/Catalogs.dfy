/** Catalog records over their life: names, publication, and the cluster's resources that
    mirror what is published. */
module Catalogs {
  import opened Domain
  import opened Database
  import opened Conformance
  import opened DataSteps
  import opened Revisions
  import opened Containment
  import opened CatalogVersions
  import opened Staleness

  type CatalogTable = map<Id, Catalog>

  datatype CatalogStep =
    | NewCatalog(row: Catalog)
    | Destroy(id: Id)
    | Edit(id: Id, to: Catalog, synced: bool)
    | SetPublished(id: Id, on: bool)
    | Swap(source: Id, target: Id, archive: string)

  function WithoutInstances(values: Rows, gone: set<Id>): Rows {
    map k | k in values && k.inst !in gone :: values[k]
  }

  function MemberIds(d: Db, c: Id): set<Id> {
    set i | i in d.instances && d.instances[i].catalogId == c
  }

  /** A catalog and everything in it is gone, with the links that touched it. */
  function Emptied(d: Db, c: Id): Db {
    var gone := MemberIds(d, c);
    d.(catalogs := d.catalogs - {c}, instances := d.instances - gone, values := WithoutInstances(d.values, gone),
       links := WithoutLinksTo(d.links, gone))
  }

  function Swapped(catalogs: CatalogTable, source: Id, target: Id, archive: string): CatalogTable
    requires source in catalogs && target in catalogs
  {
    catalogs[target := catalogs[target].(name := archive, published := false)]
            [source := catalogs[source].(name := catalogs[target].name, published := catalogs[target].published)]
  }

  /** The resources after a swap: the target's now names the source, the source's own is gone. */
  function SwappedResources(d: Db, source: Id, target: Id, archive: string): map<string, Resource>
    requires source in d.catalogs && target in d.catalogs
  {
    var afterTarget := if d.catalogs[target].published
                       then (d.resources - {archive})[d.catalogs[target].name := Resource(source)] else d.resources;
    if d.catalogs[source].published then afterTarget - {d.catalogs[source].name} else afterTarget
  }

  /** The step when the cluster answers. */
  function ApplyCatalogStep(d: Db, s: CatalogStep): Db {
    match s
    case NewCatalog(row) => d.(catalogs := d.catalogs[d.nextId := row], nextId := d.nextId + 1)
    case Destroy(c) =>
      if c !in d.catalogs then d
      else Emptied(d, c).(resources := if d.catalogs[c].published then d.resources - {d.catalogs[c].name} else d.resources)
    case Edit(c, to, synced) =>
      d.(catalogs := d.catalogs[c := to],
         resources := if synced && to.published then d.resources[to.name := Resource(c)] else d.resources)
    case SetPublished(c, on) =>
      if c !in d.catalogs then d
      else d.(catalogs := d.catalogs[c := d.catalogs[c].(published := on)],
              resources := if on then d.resources[d.catalogs[c].name := Resource(c)] else d.resources - {d.catalogs[c].name})
    case Swap(source, target, archive) =>
      if source !in d.catalogs || target !in d.catalogs then d
      else d.(catalogs := Swapped(d.catalogs, source, target, archive),
              resources := SwappedResources(d, source, target, archive))
  }

  ghost predicate NameFree(catalogs: CatalogTable, name: string) {
    forall c :: c in catalogs ==> catalogs[c].name != name
  }

  /** What the service has checked before a step. */
  ghost predicate CatalogStepAllowed(d: Db, s: CatalogStep) {
    match s
    case NewCatalog(row) =>
      row.status.Draft? && !row.published && row.cvId in d.versionSets && NameFree(d.catalogs, row.name)
    case Destroy(c) => c in d.catalogs
    case Edit(c, to, _) =>
      && c in d.catalogs && to.published == d.catalogs[c].published
      && (to.cvId == d.catalogs[c].cvId || (to.cvId in d.versionSets && to.status.Draft?))
      && (to.status == d.catalogs[c].status || to.status.Draft?)
      && (to.name == d.catalogs[c].name || (!to.published && NameFree(d.catalogs, to.name)))
    case SetPublished(c, on) => c in d.catalogs && d.catalogs[c].published != on && (on ==> d.catalogs[c].status.Valid?)
    case Swap(source, target, archive) =>
      && source in d.catalogs && target in d.catalogs && source != target
      && d.catalogs[source].status.Valid? && NameFree(d.catalogs, archive)
  }

  /** The resources are the published catalogs, by name and source id. */
  ghost predicate Mirrors(d: Db) {
    && (forall c :: c in d.catalogs && d.catalogs[c].published ==>
          d.catalogs[c].name in d.resources && d.resources[d.catalogs[c].name].sourceId == c)
    && (forall n :: n in d.resources ==> Mirrored(d, n))
  }

  ghost predicate Mirrored(d: Db, n: string)
    requires n in d.resources
  {
    var c := d.resources[n].sourceId;
    c in d.catalogs && d.catalogs[c].published && d.catalogs[c].name == n
  }

  // ---- names and resources ----

  lemma StepKeepsNames(d: Db, s: CatalogStep)
    requires UniqueNames(d.catalogs) && CatalogStepAllowed(d, s)
    ensures UniqueNames(ApplyCatalogStep(d, s).catalogs)
  {
    hide WithoutInstances, WithoutLinksTo, SwappedResources;
  }

  lemma StepKeepsMirror(d: Db, s: CatalogStep)
    requires UniqueNames(d.catalogs) && Mirrors(d) && CatalogStepAllowed(d, s) && FreshData(d)
    ensures Mirrors(ApplyCatalogStep(d, s))
  {
    hide UniqueNames, Mirrors, CatalogStepAllowed, ApplyCatalogStep, FreshData;
    match s
    case NewCatalog(row) => NewKeepsMirror(d, row);
    case Destroy(c) => DestroyKeepsMirror(d, c);
    case Edit(c, to, synced) => EditKeepsMirror(d, c, to, synced);
    case SetPublished(c, on) => PublishKeepsMirror(d, c, on);
    case Swap(source, target, archive) => SwapKeepsMirror(d, source, target, archive);
  }

  lemma NewKeepsMirror(d: Db, row: Catalog)
    requires Mirrors(d) && CatalogStepAllowed(d, NewCatalog(row)) && FreshData(d)
    ensures Mirrors(ApplyCatalogStep(d, NewCatalog(row)))
  {
  }

  lemma DestroyKeepsMirror(d: Db, c: Id)
    requires UniqueNames(d.catalogs) && Mirrors(d) && CatalogStepAllowed(d, Destroy(c))
    ensures Mirrors(ApplyCatalogStep(d, Destroy(c)))
  {
    hide WithoutInstances, WithoutLinksTo;
  }

  lemma PublishKeepsMirror(d: Db, c: Id, on: bool)
    requires UniqueNames(d.catalogs) && Mirrors(d) && CatalogStepAllowed(d, SetPublished(c, on))
    ensures Mirrors(ApplyCatalogStep(d, SetPublished(c, on)))
  {
  }

  lemma EditKeepsMirror(d: Db, c: Id, to: Catalog, synced: bool)
    requires UniqueNames(d.catalogs) && Mirrors(d) && CatalogStepAllowed(d, Edit(c, to, synced))
    ensures Mirrors(ApplyCatalogStep(d, Edit(c, to, synced)))
  {
  }

  lemma SwapKeepsMirror(d: Db, source: Id, target: Id, archive: string)
    requires UniqueNames(d.catalogs) && Mirrors(d) && CatalogStepAllowed(d, Swap(source, target, archive))
    ensures Mirrors(ApplyCatalogStep(d, Swap(source, target, archive)))
  {
    var e := ApplyCatalogStep(d, Swap(source, target, archive));
    assert archive !in d.resources by {
      assert archive in d.resources ==> Mirrored(d, archive);
    }
    forall n | n in e.resources
      ensures Mirrored(e, n)
    {
      assert n in d.resources ==> Mirrored(d, n);
    }
  }

  // ---- without the cluster ----

  /** The step when the cluster does not answer: the records change, the resources do not. */
  function Unanswered(d: Db, s: CatalogStep): Db {
    ApplyCatalogStep(d, s).(resources := d.resources)
  }

  /** The step changes what is published, or under which name or id. */
  predicate TouchesPublished(d: Db, s: CatalogStep) {
    match s
    case NewCatalog(_) => false
    case Destroy(c) => c in d.catalogs && d.catalogs[c].published
    case Edit(_, _, _) => false
    case SetPublished(_, _) => true
    case Swap(source, target, _) =>
      source in d.catalogs && target in d.catalogs && (d.catalogs[source].published || d.catalogs[target].published)
  }

  /** Without the cluster, resources still mirror the published catalogs exactly after the steps
      that leave what is published alone. */
  lemma UnansweredMirrorsIff(d: Db, s: CatalogStep)
    requires UniqueNames(d.catalogs) && Mirrors(d) && CatalogStepAllowed(d, s) && (s.NewCatalog? ==> d.nextId !in d.catalogs)
    ensures Mirrors(Unanswered(d, s)) <==> !TouchesPublished(d, s)
  {
    hide WithoutInstances, WithoutLinksTo, SwappedResources;
    var e := Unanswered(d, s);
    match s
    case NewCatalog(row) => ResourcesStill(d, e);
    case Destroy(c) =>
      if d.catalogs[c].published {
        assert d.catalogs[c].name in e.resources && !Mirrored(e, d.catalogs[c].name);
      } else {
        ResourcesStill(d, e);
      }
    case Edit(c, to, _) => ResourcesStill(d, e);
    case SetPublished(c, on) =>
      if on {
        assert c in e.catalogs && e.catalogs[c].published;
      } else {
        assert d.catalogs[c].name in e.resources && !Mirrored(e, d.catalogs[c].name);
      }
    case Swap(source, target, archive) => UnansweredSwap(d, source, target, archive);
  }

  lemma ResourcesStill(d: Db, e: Db)
    requires Mirrors(d) && e.resources == d.resources
    requires forall c :: c in d.catalogs && d.catalogs[c].published ==>
               c in e.catalogs && e.catalogs[c].published && e.catalogs[c].name == d.catalogs[c].name
    requires forall c :: c in e.catalogs && e.catalogs[c].published ==> c in d.catalogs && d.catalogs[c].published
    ensures Mirrors(e)
  {
    forall n | n in e.resources
      ensures Mirrored(e, n)
    {
      assert Mirrored(d, n);
    }
  }

  lemma UnansweredSwap(d: Db, source: Id, target: Id, archive: string)
    requires UniqueNames(d.catalogs) && Mirrors(d) && CatalogStepAllowed(d, Swap(source, target, archive))
    ensures Mirrors(Unanswered(d, Swap(source, target, archive))) <==> !d.catalogs[source].published && !d.catalogs[target].published
  {
    hide SwappedResources;
    var e := Unanswered(d, Swap(source, target, archive));
    if d.catalogs[target].published {
      assert d.catalogs[target].name in e.resources && !Mirrored(e, d.catalogs[target].name);
    } else if d.catalogs[source].published {
      assert d.catalogs[source].name in e.resources && !Mirrored(e, d.catalogs[source].name);
    } else {
      ResourcesStill(d, e);
    }
  }

  /** A published catalog with its resource, and a valid one to take its place. */
  ghost const MIRRORED := Db(
    map[1 := Catalog("live", "", 3, Valid, true), 2 := Catalog("next", "", 3, Valid, false)], map[], map[], map[],
    map[3 := CatalogVersion("v", Development)], map[], [], map[], map[], map[], map[], map[], map["live" := Resource(1)], 10)

  /** Unpublishing the one, and replacing it by the other, without the cluster. */
  lemma MirrorIsLost()
    ensures Mirrors(MIRRORED) && UniqueNames(MIRRORED.catalogs)
    ensures CatalogStepAllowed(MIRRORED, SetPublished(1, false)) && !Mirrors(Unanswered(MIRRORED, SetPublished(1, false)))
    ensures CatalogStepAllowed(MIRRORED, Swap(2, 1, "old")) && !Mirrors(Unanswered(MIRRORED, Swap(2, 1, "old")))
  {
    hide SwappedResources;
    assert "live" != "next" && "live" != "old" && "next" != "old" by {
      assert "live"[0] == 'l' && "next"[0] == 'n' && "old"[0] == 'o';
    }
    assert Mirrored(MIRRORED, "live");
    UnansweredMirrorsIff(MIRRORED, SetPublished(1, false));
    UnansweredMirrorsIff(MIRRORED, Swap(2, 1, "old"));
  }

  // ---- the data ----

  lemma RemovalIsStep(d: Db, c: Id)
    ensures var f := ApplyStep(d, Remove(MemberIds(d, c)));
            Emptied(d, c) == f.(catalogs := f.catalogs - {c}, values := WithoutInstances(f.values, MemberIds(d, c)))
    ensures StepAllowed(d, c, Remove(MemberIds(d, c)))
  {
  }

  lemma EmptiedKeepsData(d: Db, c: Id)
    requires DataInv(d)
    ensures DataInv(Emptied(d, c))
  {
    hide FreshSchema, SameScope, ParentInside;
    RemovalIsStep(d, c);
    var f := ApplyStep(d, Remove(MemberIds(d, c)));
    RemoveInv(d, c, MemberIds(d, c));
    var e := Emptied(d, c);
    SchemaStays(f, e);
    forall i | i in e.instances
      ensures ParentInside(e, i)
    {
      assert ParentInside(f, i);
      ParentStaysInside(f, e, i);
    }
  }

  lemma SchemaStays(f: Db, e: Db)
    requires FreshSchema(f) && e.nextId >= f.nextId && e.pins == f.pins && e.versionSets == f.versionSets
    requires e.types == f.types && e.versions == f.versions && e.attributes == f.attributes && e.associations == f.associations
    ensures FreshSchema(e)
  {
  }

  /** A catalog that has not changed its version looks the same if its data do. */
  lemma SameDataSameView(d: Db, e: Db, c: Id)
    requires c in d.catalogs && c in e.catalogs && e.catalogs[c].cvId == d.catalogs[c].cvId
    requires e.instances == d.instances && e.values == d.values && e.links == d.links
    requires e.pins == d.pins && e.versions == d.versions && e.attributes == d.attributes
    requires e.associations == d.associations && e.typeDefs == d.typeDefs
    ensures ViewOf(e, c) == ViewOf(d, c)
  {
    assert MembersOf(d, c) == MembersOf(e, c) && CurrentRows(d, c) == CurrentRows(e, c)
        && LinksTouching(d, c) == LinksTouching(e, c);
    assert PinnedTypes(d, d.catalogs[c].cvId) == PinnedTypes(e, d.catalogs[c].cvId);
  }

  lemma EmptiedElsewhere(d: Db, c: Id, k: Id)
    requires DataInv(d) && k in d.catalogs && k != c
    ensures k in Emptied(d, c).catalogs && ViewOf(Emptied(d, c), k) == ViewOf(d, k)
  {
    hide DataInv, ViewOf, WithoutInstances, WithoutLinksTo;
    RemovalIsStep(d, c);
    var f := ApplyStep(d, Remove(MemberIds(d, c)));
    RemoveElsewhere(d, c, MemberIds(d, c));
    ElsewhereKeepsViews(d, f, c, k);
    assert LooksSame(f, Emptied(d, c), k) by {
      RemovedRowsUnseen(d, f, c, k);
    }
    LooksSameView(f, Emptied(d, c), k);
  }

  lemma RemovedRowsUnseen(d: Db, f: Db, c: Id, k: Id)
    requires f == ApplyStep(d, Remove(MemberIds(d, c))) && k in d.catalogs && k != c
    ensures LooksSame(f, Emptied(d, c), k)
  {
    hide PinsOf;
    RemovalIsStep(d, c);
    assert PinsOf(f, f.catalogs[k].cvId) == PinsOf(Emptied(d, c), f.catalogs[k].cvId) by {
      PinsOfSame(f, Emptied(d, c), f.catalogs[k].cvId);
    }
  }

  lemma StepKeepsData(d: Db, s: CatalogStep)
    requires DataInv(d) && CatalogStepAllowed(d, s)
    ensures DataInv(ApplyCatalogStep(d, s))
  {
    hide FreshSchema, SameScope, ParentInside, Emptied, Swapped, SwappedResources, NameFree;
    var e := ApplyCatalogStep(d, s);
    if s.Destroy? {
      EmptiedKeepsData(d, s.id);
      OtherTables(Emptied(d, s.id), e);
    } else {
      SwappedKeys(d, s);
      OtherTables(d, e);
    }
  }

  lemma SwappedKeys(d: Db, s: CatalogStep)
    requires FreshData(d) && CatalogStepAllowed(d, s)
    ensures forall c :: c in ApplyCatalogStep(d, s).catalogs ==> c < ApplyCatalogStep(d, s).nextId
  {
    hide SwappedResources, WithoutInstances, WithoutLinksTo, NameFree;
  }

  lemma OtherTables(d: Db, e: Db)
    requires DataInv(d) && d.nextId <= e.nextId && forall c :: c in e.catalogs ==> c < e.nextId
    requires e.instances == d.instances && e.values == d.values && e.links == d.links
    requires e.pins == d.pins && e.versionSets == d.versionSets
    requires e.types == d.types && e.versions == d.versions && e.attributes == d.attributes && e.associations == d.associations
    ensures DataInv(e)
  {
    hide FreshSchema, SameScope, ParentInside;
    SchemaStays(d, e);
    forall i | i in e.instances
      ensures ParentInside(e, i)
    {
      assert ParentInside(d, i);
      ParentStaysInside(d, e, i);
    }
  }

  /** Catalog calls leave no stale "valid" behind. */
  lemma CatalogStepNeverStale(d: Db, s: CatalogStep, rules: Rules)
    requires DataInv(d) && CatalogStepAllowed(d, s) && NeverStale(d, rules)
    ensures NeverStale(ApplyCatalogStep(d, s), rules)
  {
    hide DataInv, ViewOf, Conforms, NeverStale;
    var e := ApplyCatalogStep(d, s);
    forall c | c in e.catalogs && e.catalogs[c].status.Valid?
      ensures c in d.catalogs && d.catalogs[c].status.Valid? && ViewOf(d, c) == ViewOf(e, c)
    {
      ValidBefore(d, s, c);
      if s.Destroy? {
        EmptiedElsewhere(d, s.id, c);
        SameDataSameView(Emptied(d, s.id), e, c);
      } else {
        SameDataSameView(d, e, c);
      }
    }
    UnchangedStaysFresh(d, e, rules);
  }

  lemma ValidBefore(d: Db, s: CatalogStep, c: Id)
    requires CatalogStepAllowed(d, s) && c in ApplyCatalogStep(d, s).catalogs
    requires ApplyCatalogStep(d, s).catalogs[c].status.Valid?
    ensures c in d.catalogs && d.catalogs[c].status.Valid?
    ensures ApplyCatalogStep(d, s).catalogs[c].cvId == d.catalogs[c].cvId
    ensures s.Destroy? ==> c != s.id
  {
    hide SwappedResources, WithoutInstances, WithoutLinksTo, NameFree;
  }

  lemma StepKeepsPlaced(d: Db, s: CatalogStep)
    requires CatalogsPlaced(d) && CatalogStepAllowed(d, s)
    ensures CatalogsPlaced(ApplyCatalogStep(d, s))
  {
    hide SwappedResources, WithoutInstances, WithoutLinksTo, NameFree;
  }
}
