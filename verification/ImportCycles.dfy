/** An import makes no cycle check: when the containment graph survives its schema phase. */
module ImportCycles {
  import opened Domain
  import opened Database
  import opened Digraph
  import opened DataSteps
  import opened Instances
  import opened SchemaHistory
  import opened TypeCalls
  import opened CatalogVersionCalls
  import opened ImportNodes
  import opened SchemaExport
  import opened SchemaMatch
  import opened SchemaTypes
  import opened SchemaLinks
  import opened SchemaImport

  // ---- the containments of a file ----

  ghost predicate Contains(types: seq<ExportType>, x: int, y: int) {
    && 0 <= x < |types| && 0 <= y < |types|
    && exists a :: 0 <= a < |types[x].associations| && types[x].associations[a].kind.Containment?
                   && types[x].associations[a].target == types[y].name
  }

  function Places(n: nat): (s: set<Id>)
    ensures forall x: Id :: x in s <==> x < n
  {
    if n == 0 then {} else Places(n - 1) + {n - 1}
  }

  /** Which of the file's types that do not exist yet contain which, by their place in the file. */
  ghost function FileEdges(d: Db, types: seq<ExportType>): set<Edge> {
    set x: Id, y: Id | x in Places(|types|) && y in Places(|types|) && Contains(types, x, y)
                       && !TypeNamed(d, types[x].name) && !TypeNamed(d, types[y].name) :: (x, y)
  }

  /** The edges that the import adds: from each created type to what it contains. */
  ghost predicate IsAdded(d: Db, e: Db, s: Id) {
    IsEdge(e, s) && s !in d.associations
  }

  ghost function AddedEdges(d: Db, e: Db): set<Edge> {
    set s | s in e.associations && IsAdded(d, e, s) :: (e.versions[e.associations[s].versionId].typeId, e.associations[s].target)
  }

  ghost predicate TargetsKnownIn(d: Db) {
    forall s :: s in d.associations ==> d.associations[s].target < d.nextId
  }

  lemma EdgesGrow(d: Db, e: Db)
    requires FreshSchema(d) && SchemaAdded(d, e) && OldIsFrozen(d, e)
    ensures ContainmentEdges(e) == ContainmentEdges(d) + AddedEdges(d, e)
  {
    hide ContainmentEdges;
    forall s | s in d.associations
      ensures s in e.associations && e.associations[s] == d.associations[s] && (IsEdge(e, s) <==> IsEdge(d, s))
      ensures IsEdge(d, s) ==> e.versions[d.associations[s].versionId] == d.versions[d.associations[s].versionId]
    {
    }
    forall x
      ensures x in ContainmentEdges(e) <==> x in ContainmentEdges(d) || x in AddedEdges(d, e)
    {
      EdgeMembership(d, x);
      EdgeMembership(e, x);
    }
  }

  // ---- places in the file and ids ----

  function IdAt(g: Target, types: seq<ExportType>, x: Id): Id {
    if x < |types| && types[x].name in g.typeIds then g.typeIds[types[x].name] else 0
  }

  ghost predicate StandsAt(g: Target, types: seq<ExportType>, x: Id, i: Id) {
    x < |types| && types[x].name in g.typeIds && g.typeIds[types[x].name] == i
  }

  ghost function PlaceOf(g: Target, types: seq<ExportType>, i: Id): (x: Id)
    ensures (exists y: Id :: StandsAt(g, types, y, i)) ==> StandsAt(g, types, x, i)
  {
    if exists y: Id :: StandsAt(g, types, y, i) then
      var y: Id :| StandsAt(g, types, y, i); y
    else 0
  }

  lemma OnePlace(g: Target, types: seq<ExportType>, x: Id, i: Id)
    requires TargetSound(g) && TypeNamesDiffer(types) && StandsAt(g, types, x, i)
    ensures PlaceOf(g, types, i) == x
  {
    var y := PlaceOf(g, types, i);
    assert StandsAt(g, types, y, i) && types[y].name == types[x].name;
  }

  // ---- from the file to the graph ----

  /** The type at a place of the file is new exactly when its name was. */
  lemma NewAtPlace(d: Db, e: Db, g: Target, n: string)
    requires Sound(d) && Sound(e) && SchemaAdded(d, e) && OldIsFrozen(d, e) && Named(e, g, n)
    ensures g.typeIds[n] >= d.nextId <==> !TypeNamed(d, n)
  {
    hide UniqueAttributeNames, UniqueAssociationNames, UniqueNumbers, IsLatest, OldIsFrozen;
    if TypeNamed(d, n) {
      var i :| i in d.types && d.types[i] == n;
      assert e.types[i] == n && i == g.typeIds[n];
    }
  }

  lemma AddedHasPlace(d: Db, e: Db, defs: DefNames, types: seq<ExportType>, reuse: set<string>, text: string, cv: Id, g: Target,
                      created: set<string>, s: Id) returns (x: nat, a: nat)
    requires Sound(d) && SchemaImported(d, e, defs, types, reuse, text, cv, g, created) && TypeNamesDiffer(types) && IsAdded(d, e, s)
    ensures x < |types| && types[x].name in created && types[x].name in g.typeIds && Named(e, g, types[x].name)
    ensures e.versions[e.associations[s].versionId].typeId == g.typeIds[types[x].name]
    ensures a < |types[x].associations| && ShowsAssociation(e, s, types[x].associations[a])
  {
    hide Sound, Settled, Covers, LabelTaken, AttributesShown, AssociationsShown, Identical, TypeNamed, PinsDone, IsLatest;
    SoundIsFresh(d);
    var ver := e.associations[s].versionId;
    assert ver >= d.nextId && ver in e.versions && ver !in d.versions;
    var n :| n in created && n in g.versionIds && g.versionIds[n] == ver;
    assert NameOf(types, n);
    x :| x < |types| && types[x].name == n;
    assert Standing(e, defs, reuse, g, created, types[x], x < |types|);
    SettledNames(e, g, n);
    LatestExists(e, g.typeIds[n], g.versionIds[n]);
    a := EntryOf(e, ver, types[x].associations, s);
  }

  lemma PlaceIsAdded(d: Db, e: Db, defs: DefNames, types: seq<ExportType>, reuse: set<string>, text: string, cv: Id, g: Target,
                     created: set<string>, x: nat, a: nat) returns (s: Id)
    requires Sound(d) && SchemaImported(d, e, defs, types, reuse, text, cv, g, created) && TypeNamesDiffer(types)
    requires x < |types| && types[x].name in created && a < |types[x].associations| && types[x].associations[a].kind.Containment?
    ensures IsAdded(d, e, s) && ShowsAssociation(e, s, types[x].associations[a])
    ensures types[x].name in g.typeIds && e.versions[e.associations[s].versionId].typeId == g.typeIds[types[x].name]
  {
    hide Sound, Settled, Covers, LabelTaken, AttributesShown, AssociationsShown, Identical, TypeNamed, PinsDone, IsLatest;
    SoundIsFresh(d);
    var n := types[x].name;
    assert Standing(e, defs, reuse, g, created, types[x], x < |types|);
    SettledNames(e, g, n);
    LatestExists(e, g.typeIds[n], g.versionIds[n]);
    CreatedIsNew(d, e, g, n);
    s := AssociationShownAt(e, g.versionIds[n], types[x].associations, a);
    FreshVersions(d, s, g.versionIds[n]);
  }

  lemma FreshVersions(d: Db, s: Id, ver: Id)
    requires FreshSchema(d) && ver >= d.nextId
    ensures s in d.associations ==> d.associations[s].versionId != ver
  {
  }

  lemma EdgeOfAdded(d: Db, e: Db, x: Edge) returns (s: Id)
    requires x in AddedEdges(d, e)
    ensures IsAdded(d, e, s) && x == (e.versions[e.associations[s].versionId].typeId, e.associations[s].target)
  {
    s :| s in e.associations && IsAdded(d, e, s) && x == (e.versions[e.associations[s].versionId].typeId, e.associations[s].target);
  }

  /** An edge between new types comes from one of the file. */
  lemma InnerIsOfFile(d: Db, e: Db, defs: DefNames, types: seq<ExportType>, reuse: set<string>, text: string, cv: Id, g: Target,
                      created: set<string>, x: Edge)
    requires Sound(d) && SchemaImported(d, e, defs, types, reuse, text, cv, g, created) && TypeNamesDiffer(types)
    requires x in AddedEdges(d, e)
    ensures x.0 >= d.nextId
    ensures x.1 >= d.nextId ==> (PlaceOf(g, types, x.0), PlaceOf(g, types, x.1)) in FileEdges(d, types)
  {
    hide Sound, Covers, LabelTaken, AllLinked, TypeNamed, PinsDone, IsLatest, AddedEdges, SchemaAdded, OldIsFrozen, NameOf,
         Settled, PlaceOf;
    var s := EdgeOfAdded(d, e, x);
    var k, a := AddedHasPlace(d, e, defs, types, reuse, text, cv, g, created, s);
    NewAtPlace(d, e, g, types[k].name);
    SettledIsSound(e, g);
    assert StandsAt(g, types, k, x.0);
    OnePlace(g, types, k, x.0);
    if x.1 >= d.nextId {
      var j := TargetPlace(d, e, defs, types, reuse, text, cv, g, created, x.1);
      OnePlace(g, types, j, x.1);
      assert Contains(types, k, j);
    }
  }

  /** A new type that an association ends at is one of the file. */
  lemma TargetPlace(d: Db, e: Db, defs: DefNames, types: seq<ExportType>, reuse: set<string>, text: string, cv: Id, g: Target,
                    created: set<string>, i: Id) returns (j: Id)
    requires Sound(d) && SchemaImported(d, e, defs, types, reuse, text, cv, g, created) && i in e.types && i >= d.nextId
    ensures StandsAt(g, types, j, i) && e.types[i] == types[j].name && !TypeNamed(d, types[j].name)
  {
    hide Sound, Covers, LabelTaken, AllLinked, TypeNamed, PinsDone, IsLatest, OldIsFrozen, Settled;
    TypesFresh(d);
    var n := e.types[i];
    assert n in g.typeIds;
    SettledNames(e, g, n);
    SameName(e, g.typeIds[n], i);
    assert NameOf(types, n);
    j :| j < |types| && types[j].name == n;
    NewAtPlace(d, e, g, n);
  }

  lemma TypesFresh(d: Db)
    requires Sound(d)
    ensures forall t :: t in d.types ==> t < d.nextId
  {
    hide UniqueAttributeNames, UniqueAssociationNames, UniqueTypeNames, UniqueNumbers;
  }

  lemma SameName(e: Db, i: Id, j: Id)
    requires Sound(e) && i in e.types && j in e.types && e.types[i] == e.types[j]
    ensures i == j
  {
    hide FreshSchema, UniqueAttributeNames, UniqueAssociationNames, UniqueNumbers;
  }

  /** And every one of the file is there. */
  lemma FileIsInner(d: Db, e: Db, defs: DefNames, types: seq<ExportType>, reuse: set<string>, text: string, cv: Id, g: Target,
                    created: set<string>, x: Edge)
    requires Sound(d) && SchemaImported(d, e, defs, types, reuse, text, cv, g, created) && TypeNamesDiffer(types)
    requires x in FileEdges(d, types)
    ensures (IdAt(g, types, x.0), IdAt(g, types, x.1)) in Inner(AddedEdges(d, e), d.nextId)
  {
    hide Sound, Covers, LabelTaken, AllLinked, TypeNamed, PinsDone, IsLatest, SchemaAdded, OldIsFrozen, Settled, IsAdded;
    var (k, j) := x;
    var a :| 0 <= a < |types[k].associations| && types[k].associations[a].kind.Containment?
             && types[k].associations[a].target == types[j].name;
    assert NameOf(types, types[k].name) && NameOf(types, types[j].name);
    var s := PlaceIsAdded(d, e, defs, types, reuse, text, cv, g, created, k, a);
    SettledNames(e, g, types[j].name);
    NewAtPlace(d, e, g, types[j].name);
    SameName(e, e.associations[s].target, g.typeIds[types[j].name]);
    AddedIsEdge(d, e, s);
  }

  lemma AddedIsEdge(d: Db, e: Db, s: Id)
    requires IsAdded(d, e, s)
    ensures s in e.associations && e.associations[s].versionId in e.versions
    ensures (e.versions[e.associations[s].versionId].typeId, e.associations[s].target) in AddedEdges(d, e)
  {
  }

  /** The schema phase makes no cycle check. It keeps the containment graph acyclic exactly when
      the types of the file that did not exist contain each other without a cycle, which the file
      and the store before the call tell. */
  lemma ImportKeepsAcyclicIff(d: Db, e: Db, defs: DefNames, types: seq<ExportType>, reuse: set<string>, text: string, cv: Id,
                              g: Target, created: set<string>)
    requires Sound(d) && SchemaImported(d, e, defs, types, reuse, text, cv, g, created) && TypeNamesDiffer(types)
    requires Acyclic(ContainmentEdges(d)) && TargetsKnownIn(d)
    ensures Acyclic(ContainmentEdges(e)) <==> Acyclic(FileEdges(d, types))
  {
    hide Sound, SchemaImported, Acyclic, FileEdges, ContainmentEdges, AddedEdges, PlaceOf, IdAt;
    SoundIsFresh(d);
    PhaseGrows(d, e, defs, types, reuse, text, cv, g, created);
    EdgesGrow(d, e);
    OldEdgesAreOld(d);
    forall x | x in AddedEdges(d, e)
      ensures x.0 >= d.nextId && (x.1 >= d.nextId ==> (PlaceOf(g, types, x.0), PlaceOf(g, types, x.1)) in FileEdges(d, types))
    {
      InnerIsOfFile(d, e, defs, types, reuse, text, cv, g, created, x);
    }
    forall x | x in FileEdges(d, types)
      ensures (IdAt(g, types, x.0), IdAt(g, types, x.1)) in Inner(AddedEdges(d, e), d.nextId)
    {
      FileIsInner(d, e, defs, types, reuse, text, cv, g, created, x);
    }
    AcyclicBeside(ContainmentEdges(d), AddedEdges(d, e), d.nextId);
    if Acyclic(FileEdges(d, types)) {
      AcyclicByProjection(Inner(AddedEdges(d, e), d.nextId), FileEdges(d, types), (i: Id) => PlaceOf(g, types, i));
    }
    if Acyclic(Inner(AddedEdges(d, e), d.nextId)) {
      AcyclicByProjection(FileEdges(d, types), Inner(AddedEdges(d, e), d.nextId), (x: Id) => IdAt(g, types, x));
    }
  }

  lemma PhaseGrows(d: Db, e: Db, defs: DefNames, types: seq<ExportType>, reuse: set<string>, text: string, cv: Id, g: Target,
                   created: set<string>)
    requires SchemaImported(d, e, defs, types, reuse, text, cv, g, created)
    ensures SchemaAdded(d, e) && OldIsFrozen(d, e)
  {
    hide Sound, Settled, SchemaAdded, OldIsFrozen, Covers, LabelTaken, AllLinked, TypeNamed, PinsDone, NameOf;
  }

  lemma OldEdgesAreOld(d: Db)
    requires FreshSchema(d) && TargetsKnownIn(d)
    ensures forall x :: x in ContainmentEdges(d) ==> x.0 < d.nextId && x.1 < d.nextId
  {
    forall x | x in ContainmentEdges(d)
      ensures x.0 < d.nextId && x.1 < d.nextId
    {
      EdgeMembership(d, x);
    }
  }

  // ---- a file with a cycle ----

  ghost const NOTHING := Db(map[], map[], map[], map[], map[], map[], [], map[], map[], map[], map[], map[], map[], 0)

  function Holding(name: string, target: string): ExportType {
    ExportType(name, "", [], [ExportAssociation("parts", Containment, target, "0..1", "0..n", "", "")])
  }

  const EACH_OTHER: seq<ExportType> := [Holding("A", "B"), Holding("B", "A")]

  /** Two types that contain each other fit an empty store, and importing them closes a cycle. */
  lemma ImportClosesACycle(e: Db, cv: Id, g: Target, created: set<string>)
    ensures Sound(NOTHING) && FileFits(NOTHING, map[], map[], {}, "v", EACH_OTHER)
    ensures SchemaImported(NOTHING, e, map[], EACH_OTHER, {}, "v", cv, g, created) ==> !Acyclic(ContainmentEdges(e))
  {
    hide SchemaImported, ContainmentEdges, Acyclic;
    assert EACH_OTHER[0].name == "A" && EACH_OTHER[1].name == "B";
    assert NameOf(EACH_OTHER, "A") && NameOf(EACH_OTHER, "B");
    EachOtherIsACycle();
    if SchemaImported(NOTHING, e, map[], EACH_OTHER, {}, "v", cv, g, created) {
      NothingIsAcyclic();
      ImportKeepsAcyclicIff(NOTHING, e, map[], EACH_OTHER, {}, "v", cv, g, created);
    }
  }

  lemma NothingIsAcyclic()
    ensures Acyclic(ContainmentEdges(NOTHING))
  {
    assert ContainmentEdges(NOTHING) == {};
    AcyclicMeansNoReturn({});
  }

  lemma EachOtherIsACycle()
    ensures !Acyclic(FileEdges(NOTHING, EACH_OTHER))
  {
    var edges := FileEdges(NOTHING, EACH_OTHER);
    assert EACH_OTHER[0].associations[0].target == EACH_OTHER[1].name && EACH_OTHER[1].associations[0].target == EACH_OTHER[0].name;
    assert Contains(EACH_OTHER, 0, 1) && Contains(EACH_OTHER, 1, 0);
    assert (0, 1) in edges && (1, 0) in edges;
    var w: seq<Id> := [0, 1, 0];
    assert IsWalk(edges, w);
  }
}
