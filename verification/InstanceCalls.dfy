/** The calls of the instance service, each tied to the row-level steps it takes. */
module InstanceCalls {
  import opened Domain
  import opened Database
  import opened Conformance
  import opened Revisions
  import opened Digraph
  import opened Forest
  import opened Containment
  import opened DataSteps
  import opened Staleness
  import opened Instances
  import opened InstanceRows

  lemma OneStep(d: Db, c: Id, s: DataStep)
    ensures ApplySteps(d, [s]) == ApplyStep(d, s)
    ensures StepsAllowed(d, c, [s]) <==> StepAllowed(d, c, s)
  {
    hide ApplyStep, StepAllowed;
    assert [s][1..] == [];
    assert ApplySteps(ApplyStep(d, s), []) == ApplyStep(d, s);
  }

  lemma MoreSteps(d: Db, c: Id, s: DataStep, rest: seq<DataStep>)
    ensures ApplySteps(d, [s] + rest) == ApplySteps(ApplyStep(d, s), rest)
    ensures StepsAllowed(d, c, [s] + rest) <==> StepAllowed(d, c, s) && StepsAllowed(ApplyStep(d, s), c, rest)
  {
    hide ApplyStep, StepAllowed;
    assert ([s] + rest)[1..] == rest;
  }

  /** What has been found and read when a call names a catalog, an entity type and input. */
  ghost predicate Read(d: Db, codec: Codec, ver: Id, input: map<string, Json>, touched: map<Id, Option<Value>>) {
    var s := Schema(d.attributes, d.typeDefs, ver);
    if input == map[] then touched == map[]
    else InputAccepted(codec, s, input) && ReadFrom(codec, s, input, touched)
  }

  ghost predicate Refused(d: Db, codec: Codec, ver: Id, input: map<string, Json>) {
    input != map[] && !InputAccepted(codec, Schema(d.attributes, d.typeDefs, ver), input)
  }

  method ReadAttributes(db: Store, codec: Codec, ver: Id, input: map<string, Json>)
    returns (res: Result<map<Id, Option<Value>>>)
    requires UniqueAttributeNames(db.attributes)
    ensures res.Ok? ==> Read(db.State(), codec, ver, input, res.value)
    ensures res.Err? <==> Refused(db.State(), codec, ver, input)
  {
    if input == map[] {
      return Ok(map[]);
    }
    res := ReadInput(codec, Schema(db.attributes, db.typeDefs, ver), input);
  }

  // ---- creating ----

  lemma FreshRows(d: Db, ver: nat, rows: map<Id, Value>)
    requires DataInv(d)
    ensures forall k :: k in Keyed(d.nextId, ver, rows) ==> k !in d.values
    ensures d.nextId !in d.instances
    ensures WithRows(d.values, d.nextId, ver, map[]) == d.values
  {
    hide RowsWithin, LinksInside, ParentsInside, UniqueScopes;
  }

  /** The row was written with the values read from the input. */
  ghost predicate Inserted(d: Db, e: Db, codec: Codec, ver: Id, row: Instance, input: map<string, Json>,
                           touched: map<Id, Option<Value>>) {
    && Read(d, codec, ver, input, touched)
    && StepAllowed(d, row.catalogId, Insert(row, Revised(map[], touched)))
    && e == ApplyStep(d, Insert(row, Revised(map[], touched)))
  }

  /** Nothing was written, or only the row: its input was refused after the row was stored. */
  ghost predicate NotInserted(d: Db, e: Db, codec: Codec, ver: Id, row: Instance, input: map<string, Json>) {
    e == d || (Refused(d, codec, ver, input) && e == ApplyStep(d, Insert(row, map[])))
  }

  /** The row and its attribute values, written one after the other: when the values are
      refused the row stays, and so does the catalog's status. */
  method InsertInstance(db: Store, codec: Codec, ver: Id, row: Instance, input: map<string, Json>)
    returns (res: Result<map<Id, Option<Value>>>)
    requires DataInv(db.State()) && UniqueAttributeNames(db.attributes)
    requires row.catalogId < db.nextId && ParentAllowed(db.State(), row.catalogId, row.parent) && row.version == 1
    modifies db`instances, db`values, db`nextId
    ensures res.Ok? ==> Inserted(old(db.State()), db.State(), codec, ver, row, input, res.value)
    ensures res.Err? ==> NotInserted(old(db.State()), db.State(), codec, ver, row, input)
    ensures res.Err? <==> Refused(old(db.State()), codec, ver, input) || RowScopeTaken(old(db.instances), row)
  {
    hide ApplyStep, ApplySteps, StepAllowed, StepsAllowed, DataInv, Read, Refused, Inserted, NotInserted, SameScope,
         ParentAllowed, Keyed, Revised, WithRows, Created, CreateFailed, Resolves, IsDnsLabel, UniqueAttributeNames,
         DataCall;
    ghost var d := db.State();
    var taken := IsScopeTaken(db.instances, row);
    if taken {
      IntroNotInserted(d, db.State(), codec, ver, row, input);
      return Err(Conflict);
    }
    var id := db.nextId;
    db.instances := db.instances[id := row];
    db.nextId := id + 1;
    FreshRows(d, row.version, map[]);
    ghost var e := db.State();
    BareInsert(d, e, row);
    ReadIgnoresData(d, e, codec, ver, input);
    res := ReadAttributes(db, codec, ver, input);
    if res.Err? {
      IntroNotInserted(d, e, codec, ver, row, input);
      return res;
    }
    var rows := CarryForward(map[], res.value);
    FreshRows(d, row.version, rows);
    var stored := SetValues(db, Keyed(id, row.version, rows));
    assert stored.Pass?;
    IntroInserted(d, db.State(), codec, ver, row, input, res.value);
  }

  ghost predicate RowScopeTaken(m: map<Id, Instance>, row: Instance) {
    exists j :: j in m && SameScope(m[j], row)
  }

  method IsScopeTaken(m: map<Id, Instance>, row: Instance) returns (taken: bool)
    ensures taken <==> RowScopeTaken(m, row)
  {
    if j :| j in m && SameScope(m[j], row) {
      return true;
    }
    return false;
  }

  lemma BareInsert(d: Db, e: Db, row: Instance)
    requires WithRows(d.values, d.nextId, row.version, map[]) == d.values
    requires e == d.(instances := d.instances[d.nextId := row], nextId := d.nextId + 1)
    ensures e == ApplyStep(d, Insert(row, map[]))
  {
  }

  lemma ReadIgnoresData(d: Db, e: Db, codec: Codec, ver: Id, input: map<string, Json>)
    requires e.attributes == d.attributes && e.typeDefs == d.typeDefs
    ensures Refused(d, codec, ver, input) <==> Refused(e, codec, ver, input)
    ensures forall touched :: Read(d, codec, ver, input, touched) <==> Read(e, codec, ver, input, touched)
  {
  }

  lemma IntroNotInserted(d: Db, e: Db, codec: Codec, ver: Id, row: Instance, input: map<string, Json>)
    requires e == d || (Refused(d, codec, ver, input) && e == ApplyStep(d, Insert(row, map[])))
    ensures NotInserted(d, e, codec, ver, row, input)
  {
  }

  lemma IntroInserted(d: Db, e: Db, codec: Codec, ver: Id, row: Instance, input: map<string, Json>,
                      touched: map<Id, Option<Value>>)
    requires Read(d, codec, ver, input, touched)
    requires row.catalogId < d.nextId && ParentAllowed(d, row.catalogId, row.parent)
    requires !exists j :: j in d.instances && SameScope(d.instances[j], row)
    requires e == d.(instances := d.instances[d.nextId := row], nextId := d.nextId + 1,
                     values := d.values + Keyed(d.nextId, row.version, Revised(map[], touched)))
    ensures Inserted(d, e, codec, ver, row, input, touched)
  {
    hide Read, SameScope, Keyed, Revised;
  }

  /** What a successful creation amounts to. */
  ghost predicate Created(d: Db, codec: Codec, catalogName: string, typeName: string, row: Instance,
                          input: map<string, Json>, step: DataStep) {
    exists ver, touched :: (
      && Resolves(d, catalogName, typeName, row.catalogId, ver) && row.typeId == d.versions[ver].typeId
      && Read(d, codec, ver, input, touched)
      && step == Insert(row, Revised(map[], touched)))
  }

  /** What a failed creation leaves: nothing, or the bare row of a refused input. */
  ghost predicate CreateFailed(d: Db, e: Db, codec: Codec, input: map<string, Json>, row: Instance) {
    e == d || exists ver :: (
      && ver in d.versions && row.typeId == d.versions[ver].typeId
      && NotInserted(d, e, codec, ver, row, input))
  }

  /** A creation is possible: the names resolve, the input can be read and the scope is free. */
  ghost predicate MayCreate(d: Db, codec: Codec, catalogName: string, typeName: string, parent: Option<Id>, name: string,
                            description: string, input: map<string, Json>, c: Id, ver: Id) {
    && Resolves(d, catalogName, typeName, c, ver) && IsDnsLabel(name) && !Refused(d, codec, ver, input)
    && !RowScopeTaken(d.instances, Instance(d.versions[ver].typeId, c, parent, name, description, 1))
  }

  lemma CreateDecided(d: Db, codec: Codec, catalogName: string, typeName: string, parent: Option<Id>, name: string,
                      description: string, input: map<string, Json>, found: Result<(Id, Id)>)
    requires Decides(d, catalogName, typeName, found)
    ensures (exists c, ver :: MayCreate(d, codec, catalogName, typeName, parent, name, description, input, c, ver)) <==>
              found.Ok? && MayCreate(d, codec, catalogName, typeName, parent, name, description, input, found.value.0, found.value.1)
  {
    hide Resolves, IsDnsLabel, Refused, RowScopeTaken;
  }

  /** An instance at the root. When lookups lead to one row, it is created exactly when it may be. */
  method CreateInstance(db: Store, codec: Codec, catalogName: string, typeName: string,
                        name: string, description: string, input: map<string, Json>)
    returns (res: Result<Id>, ghost row: Instance, ghost steps: seq<DataStep>)
    requires DataInv(db.State()) && UniqueAttributeNames(db.attributes)
    modifies db`instances, db`values, db`nextId, db`catalogs
    ensures res.Ok? ==>
              && res.value == old(db.nextId) && IsDnsLabel(name)
              && (exists c, t :: row == Instance(t, c, None, name, description, 1))
              && |steps| == 1 && Created(old(db.State()), codec, catalogName, typeName, row, input, steps[0])
              && row.catalogId in old(db.catalogs) && StepsAllowed(old(db.State()), row.catalogId, steps)
              && db.State() == DataCall(old(db.State()), row.catalogId, steps)
              && db.instances == old(db.instances)[res.value := row]
              && SameBut(old(db.values), db.values, res.value, 1)
              && (exists ver :: Resolves(old(db.State()), catalogName, typeName, row.catalogId, ver)
                                && Stored(old(db.State()), db.values, codec, ver, res.value, 0, input))
              && Drafted(old(db.catalogs), db.catalogs, row.catalogId)
    ensures res.Err? ==> CreateFailed(old(db.State()), db.State(), codec, input, row)
    ensures Unambiguous(old(db.State())) ==>
              (res.Ok? <==> exists c, ver :: MayCreate(old(db.State()), codec, catalogName, typeName, None, name, description, input, c, ver))
  {
    hide ApplyStep, ApplySteps, StepAllowed, StepsAllowed, DataInv, Read, Refused, Inserted, NotInserted, SameScope,
         ParentAllowed, Keyed, Revised, WithRows, Created, CreateFailed, Resolves, IsDnsLabel, UniqueAttributeNames,
         DataCall, Unambiguous, Decides, RowScopeTaken, Drafted, Stored, SameBut;
    row, steps := Instance(0, 0, None, name, description, 1), [];
    ghost var d := db.State();
    NothingFailed(d, codec, input, row);
    if !IsDnsLabel(name) {
      return Err(Rejected), row, steps;
    }
    var found := ResolveEntityType(db, catalogName, typeName);
    if Unambiguous(d) {
      CreateDecided(d, codec, catalogName, typeName, None, name, description, input, found);
    }
    if found.Err? {
      return Err(found.error), row, steps;
    }
    var c, ver := found.value.0, found.value.1;
    ResolvedFacts(d, catalogName, typeName, c, ver);
    NoParentAllowed(d, c);
    var new_ := Instance(db.versions[ver].typeId, c, None, name, description, 1);
    row := new_;
    var id := db.nextId;
    var written := InsertInstance(db, codec, ver, new_, input);
    if written.Err? {
      IntroCreateFailed(d, db.State(), codec, input, row, ver);
      return Err(written.error), row, steps;
    }
    IntroCreated(d, db.State(), codec, catalogName, typeName, row, input, ver, written.value);
    steps := [Insert(row, Revised(map[], written.value))];
    OneStep(d, c, steps[0]);
    db.catalogs := db.catalogs[c := db.catalogs[c].(status := Draft)];
    CallEnds(d, c, steps, db.State());
    InsertedTables(d, c, row, Revised(map[], written.value));
    InsertedRows(d, codec, ver, c, row, input, written.value);
    return Ok(id), row, steps;
  }

  /** The catalog is a draft, and nothing else about catalogs has changed. */
  ghost predicate Drafted(before: map<Id, Catalog>, after: map<Id, Catalog>, c: Id) {
    && c in before && c in after && after.Keys == before.Keys
    && after[c] == Catalog(before[c].name, before[c].description, before[c].cvId, Draft, before[c].published)
    && forall k :: k in before && k != c ==> after[k] == before[k]
  }

  /** The same record, one version on. */
  function NextRecord(x: Instance): Instance {
    Instance(x.typeId, x.catalogId, x.parent, x.name, x.description, x.version + 1)
  }

  lemma InsertedTables(d: Db, c: Id, row: Instance, rows: map<Id, Value>)
    requires c in d.catalogs
    ensures var e := DataCall(d, c, [Insert(row, rows)]);
            e.instances == d.instances[d.nextId := row] && e.links == d.links && Drafted(d.catalogs, e.catalogs, c)
  {
    hide WithRows;
    OneStep(d, c, Insert(row, rows));
  }

  lemma ReadWas(d: Db, codec: Codec, ver: Id, input: map<string, Json>, touched: map<Id, Option<Value>>)
    requires Read(d, codec, ver, input, touched)
    ensures WasRead(d, codec, ver, input, touched)
  {
    hide ReadFrom, EntryAccepted;
  }

  lemma NoRowsYet(d: Db)
    requires DataInv(d)
    ensures d.nextId !in d.instances && NoRowsAt(d.values, d.nextId, 1) && NoRowsAt(d.values, d.nextId, 0)
  {
    hide LinksInside, ParentsInside, UniqueScopes, FreshSchema;
  }

  /** The rows of a new instance. */
  lemma InsertStores(d: Db, e: Db, codec: Codec, ver: Id, row: Instance, input: map<string, Json>, touched: map<Id, Option<Value>>)
    requires DataInv(d) && row.version == 1 && Inserted(d, e, codec, ver, row, input, touched)
    ensures Stored(d, e.values, codec, ver, d.nextId, 0, input) && SameBut(d.values, e.values, d.nextId, 1)
    ensures e.instances == d.instances[d.nextId := row] && d.nextId !in d.instances
  {
    hide DataInv, Stored, SameBut, WithRows, Revised, Read, WasRead, StepAllowed, NoRowsAt, RowsAt;
    NoRowsYet(d);
    ReadWas(d, codec, ver, input, touched);
    NothingThere(d.values, d.nextId, 0);
    UpdateStores(d, codec, ver, d.nextId, 0, input, touched);
  }

  lemma NothingThere(values: Rows, i: Id, ver: nat)
    requires NoRowsAt(values, i, ver)
    ensures RowsAt(values, i, ver) == map[]
  {
    assert forall a :: a in RowsAt(values, i, ver) ==> RowKey(i, ver, a) in values;
  }

  lemma InsertedRows(d: Db, codec: Codec, ver: Id, c: Id, row: Instance, input: map<string, Json>, touched: map<Id, Option<Value>>)
    requires DataInv(d) && row.version == 1 && c in d.catalogs && row.catalogId == c
    requires Inserted(d, ApplyStep(d, Insert(row, Revised(map[], touched))), codec, ver, row, input, touched)
    ensures var e := DataCall(d, c, [Insert(row, Revised(map[], touched))]);
            Stored(d, e.values, codec, ver, d.nextId, 0, input) && SameBut(d.values, e.values, d.nextId, 1)
  {
    hide DataInv, Stored, SameBut, ApplyStep, Inserted, ApplySteps;
    var s := Insert(row, Revised(map[], touched));
    InsertStores(d, ApplyStep(d, s), codec, ver, row, input, touched);
    OneStep(d, c, s);
  }

  lemma RevisedTables(d: Db, c: Id, i: Id, to: Instance, edit: Edit)
    requires c in d.catalogs && i in d.instances
    ensures var e := DataCall(d, c, [Revise(i, to, edit)]);
            && e.instances == d.instances[i := to.(version := d.instances[i].version + 1)] && e.links == d.links
            && Drafted(d.catalogs, e.catalogs, c)
  {
    hide EditValues;
    OneStep(d, c, Revise(i, to, edit));
  }

  /** One step, then an instance saved back. */
  lemma ThenSavedTables(d: Db, c: Id, s: DataStep, j: Id, row: Instance)
    requires c in d.catalogs && ApplyStep(d, s).catalogs == d.catalogs
    requires j in ApplyStep(d, s).instances && row.version == ApplyStep(d, s).instances[j].version
    ensures var e := DataCall(d, c, [s] + [Revise(j, row, Structural)]);
            && e.instances == ApplyStep(d, s).instances[j := NextRecord(row)] && e.links == ApplyStep(d, s).links
            && Drafted(d.catalogs, e.catalogs, c)
  {
    hide ApplyStep, Drafted, ApplySteps;
    var v := ApplyStep(d, s);
    MoreSteps(d, c, s, [Revise(j, row, Structural)]);
    RevisedTables(v, c, j, row, Structural);
  }

  lemma InsertStepTables(d: Db, row: Instance, rows: map<Id, Value>)
    ensures var e := ApplyStep(d, Insert(row, rows));
            e.instances == d.instances[d.nextId := row] && e.links == d.links && e.catalogs == d.catalogs
  {
    hide WithRows;
  }

  lemma ReviseStepTables(d: Db, i: Id, to: Instance)
    requires i in d.instances
    ensures var e := ApplyStep(d, Revise(i, to, Structural));
            && e.instances == d.instances[i := to.(version := d.instances[i].version + 1)]
            && e.links == d.links && e.catalogs == d.catalogs
  {
    hide EditValues;
  }

  lemma NothingFailed(d: Db, codec: Codec, input: map<string, Json>, row: Instance)
    ensures CreateFailed(d, d, codec, input, row)
  {
  }

  lemma IntroCreateFailed(d: Db, e: Db, codec: Codec, input: map<string, Json>, row: Instance, ver: Id)
    requires ver in d.versions && row.typeId == d.versions[ver].typeId && NotInserted(d, e, codec, ver, row, input)
    ensures CreateFailed(d, e, codec, input, row)
  {
  }

  lemma IntroCreated(d: Db, e: Db, codec: Codec, catalogName: string, typeName: string, row: Instance,
                     input: map<string, Json>, ver: Id, touched: map<Id, Option<Value>>)
    requires Inserted(d, e, codec, ver, row, input, touched)
    requires Resolves(d, catalogName, typeName, row.catalogId, ver) && row.typeId == d.versions[ver].typeId
    ensures var step := Insert(row, Revised(map[], touched));
            Created(d, codec, catalogName, typeName, row, input, step)
            && StepAllowed(d, row.catalogId, step) && e == ApplyStep(d, step)
  {
    hide Read, Revised, StepAllowed, ApplyStep;
  }

  lemma ResolvedFacts(d: Db, catalogName: string, typeName: string, c: Id, ver: Id)
    requires Resolves(d, catalogName, typeName, c, ver)
    ensures c in d.catalogs && d.catalogs[c].name == catalogName && ver in d.versions
    ensures DataInv(d) ==> c < d.nextId
  {
    hide RowsWithin, LinksInside, ParentsInside, UniqueScopes, FreshSchema;
  }

  lemma NoParentAllowed(d: Db, c: Id)
    ensures ParentAllowed(d, c, None)
  {
  }

  /** Resetting the status completes the call. */
  lemma CallEnds(d: Db, c: Id, steps: seq<DataStep>, e: Db)
    requires c in ApplySteps(d, steps).catalogs
    requires e == WithStatus(ApplySteps(d, steps), c, Draft)
    ensures e == DataCall(d, c, steps)
  {
    hide ApplySteps;
  }

  // ---- creating under a parent ----

  ghost predicate ContainsEdge(associations: map<Id, Association>, s: Id, ver: Id, child: Id) {
    && s in associations && associations[s].versionId == ver && associations[s].kind.Containment?
    && associations[s].target == child
  }

  /** Some containment association of a version targets an entity type. */
  method AllowsContainment(associations: map<Id, Association>, ver: Id, child: Id) returns (found: bool)
    ensures found <==> exists s :: ContainsEdge(associations, s, ver, child)
  {
    if s :| s in associations && associations[s].versionId == ver && associations[s].kind.Containment?
            && associations[s].target == child {
      assert ContainsEdge(associations, s, ver, child);
      return true;
    }
    return false;
  }

  /** The pinned version of the named parent type may contain the child type. */
  ghost predicate TypeContains(d: Db, catalogName: string, parentType: string, c: Id, child: Id) {
    exists ver, s :: Resolves(d, catalogName, parentType, c, ver) && ContainsEdge(d.associations, s, ver, child)
  }

  /** Parent and types fit: the parent is in the catalog, and its named type may contain the child's. */
  ghost predicate ContainmentResolves(d: Db, catalogName: string, parentType: string, parent: Id, childType: string, c: Id, ver: Id) {
    && Resolves(d, catalogName, childType, c, ver)
    && TypeContains(d, catalogName, parentType, c, d.versions[ver].typeId)
    && parent in d.instances && d.instances[parent].catalogId == c
  }

  lemma ContainsDecided(d: Db, catalogName: string, parentType: string, c: Id, child: Id, found: Result<(Id, Id)>)
    requires Decides(d, catalogName, parentType, found)
    ensures TypeContains(d, catalogName, parentType, c, child) <==>
              found.Ok? && found.value.0 == c && exists s :: ContainsEdge(d.associations, s, found.value.1, child)
  {
    hide Resolves, ContainsEdge;
  }

  lemma ContainmentDecided(d: Db, catalogName: string, parentType: string, parent: Id, childType: string,
                           above: Result<(Id, Id)>, below: Result<(Id, Id)>, res: Result<(Id, Id)>)
    requires Decides(d, catalogName, parentType, above)
    requires above.Ok? && parent in d.instances && d.instances[parent].catalogId == above.value.0 ==> Decides(d, catalogName, childType, below)
    requires res.Ok? <==>
               && above.Ok? && parent in d.instances && d.instances[parent].catalogId == above.value.0 && below.Ok?
               && ContainmentResolves(d, catalogName, parentType, parent, childType, below.value.0, below.value.1)
    requires res.Ok? ==> res == below
    ensures forall c: Id, ver: Id :: ContainmentResolves(d, catalogName, parentType, parent, childType, c, ver) <==> res == Ok((c, ver))
  {
    hide Resolves, Decides;
    forall c: Id, ver: Id | ContainmentResolves(d, catalogName, parentType, parent, childType, c, ver)
      ensures res == Ok((c, ver))
    {
      ResolvedFacts(d, catalogName, childType, c, ver);
      ContainsDecided(d, catalogName, parentType, c, d.versions[ver].typeId, above);
      assert below == Ok((c, ver)) by {
        DecidedAt(d, catalogName, childType, below, c, ver);
      }
    }
  }

  lemma DecidedAt(d: Db, catalogName: string, typeName: string, res: Result<(Id, Id)>, c: Id, ver: Id)
    requires Decides(d, catalogName, typeName, res)
    ensures Resolves(d, catalogName, typeName, c, ver) <==> res == Ok((c, ver))
  {
    hide Resolves;
  }

  /** The checks on parent and types that come before a contained instance is created. */
  method ResolveContainment(db: Store, catalogName: string, parentType: string, parent: Id, childType: string)
    returns (res: Result<(Id, Id)>)
    requires UniqueNames(db.catalogs)
    ensures res.Ok? ==>
              && ContainmentResolves(db.State(), catalogName, parentType, parent, childType, res.value.0, res.value.1)
              && Resolves(db.State(), catalogName, childType, res.value.0, res.value.1)
    ensures Unambiguous(db.State()) ==>
              forall c: Id, ver: Id :: ContainmentResolves(db.State(), catalogName, parentType, parent, childType, c, ver) <==> res == Ok((c, ver))
  {
    hide TypeContains, ContainsEdge, Unambiguous, Decides, Resolves;
    ghost var d := db.State();
    var found := ResolveEntityType(db, catalogName, parentType);
    res := found;
    if found.Ok? {
      var c := found.value.0;
      if parent !in db.instances {
        res := Err(NotFound);
      } else if db.instances[parent].catalogId != c {
        res := Err(Rejected);
      } else {
        var child := ResolveEntityType(db, catalogName, childType);
        res := child;
        if child.Ok? {
          ResolvedNames(d, catalogName, parentType, childType, c, found.value.1, child.value.0, child.value.1);
          var t := db.versions[child.value.1].typeId;
          var contained := AllowsContainment(db.associations, found.value.1, t);
          if Unambiguous(d) {
            ContainsDecided(d, catalogName, parentType, child.value.0, t, found);
          }
          if contained {
            IntroTypeContains(d, catalogName, parentType, c, found.value.1, t);
          } else {
            res := Err(Rejected);
          }
        }
        if Unambiguous(d) {
          ContainmentDecided(d, catalogName, parentType, parent, childType, found, child, res);
        }
        return;
      }
    }
    if Unambiguous(d) {
      ContainmentDecided(d, catalogName, parentType, parent, childType, found, found, res);
    }
  }

  lemma ResolvedNames(d: Db, catalogName: string, parentType: string, childType: string, c: Id, ver: Id, k: Id, child: Id)
    requires UniqueNames(d.catalogs) && Resolves(d, catalogName, parentType, c, ver) && Resolves(d, catalogName, childType, k, child)
    ensures k == c && child in d.versions
  {
  }

  /** Saving a changed record under the next version is a step when nothing else has its scope. */
  method SaveAs(db: Store, ghost c: Id, i: Id, row: Instance)
    requires DataInv(db.State()) && StepAllowed(db.State(), c, Revise(i, row, Structural))
    requires row.version == db.instances[i].version
    modifies db`instances, db`values
    ensures db.State() == ApplyStep(old(db.State()), Revise(i, row, Structural))
    ensures DataInv(db.State())
  {
    ghost var d := db.State();
    assert !ScopeTaken(d.instances, i, row);
    hide ApplyStep, StepAllowed, DataInv, SameScope, EditValues, ScopeTaken;
    var bumped := BumpInstanceVersion(db, i, row);
    assert bumped.Pass?;
    RevisedExists(d, c, i, row);
    BumpState(d, db.State(), i, row);
    StepKeeps(d, c, Revise(i, row, Structural));
  }

  lemma RevisedExists(d: Db, c: Id, i: Id, row: Instance)
    requires StepAllowed(d, c, Revise(i, row, Structural))
    ensures i in d.instances
  {
  }

  /** Bumping a record as it is stored cannot fail. */
  method Bump(db: Store, ghost c: Id, i: Id)
    requires DataInv(db.State()) && i in db.instances && db.instances[i].catalogId == c
    modifies db`instances, db`values
    ensures StepAllowed(old(db.State()), c, Revise(i, old(db.instances)[i], Structural))
    ensures db.State() == ApplyStep(old(db.State()), Revise(i, old(db.instances)[i], Structural))
    ensures DataInv(db.State())
  {
    BumpIsStep(db.State(), c, i, db.instances[i]);
    hide ApplyStep, StepAllowed, DataInv;
    SaveAs(db, c, i, db.instances[i]);
  }

  /** An instance under a parent, which is bumped. When lookups lead to one row, it is created
      exactly when parent and types fit and it may be. */
  method CreateContainedInstance(db: Store, codec: Codec, catalogName: string, parentType: string, parent: Id,
                                 childType: string, name: string, description: string, input: map<string, Json>)
    returns (res: Result<Id>, ghost row: Instance, ghost steps: seq<DataStep>)
    requires DataInv(db.State()) && UniqueAttributeNames(db.attributes) && UniqueNames(db.catalogs)
    modifies db`instances, db`values, db`nextId, db`catalogs
    ensures res.Ok? ==>
              && res.value == old(db.nextId) && IsDnsLabel(name)
              && (exists c, t :: row == Instance(t, c, Some(parent), name, description, 1))
              && TypeContains(old(db.State()), catalogName, parentType, row.catalogId, row.typeId)
              && parent in old(db.instances)
              && |steps| == 2 && Created(old(db.State()), codec, catalogName, childType, row, input, steps[0])
              && steps[1] == Revise(parent, old(db.instances)[parent], Structural)
              && row.catalogId in old(db.catalogs) && StepsAllowed(old(db.State()), row.catalogId, steps)
              && db.State() == DataCall(old(db.State()), row.catalogId, steps)
              && db.instances == old(db.instances)[res.value := row][parent := NextRecord(old(db.instances)[parent])]
              && CarriedOn(old(db.instances), db.instances, old(db.values), db.values, {res.value})
              && (exists ver :: Resolves(old(db.State()), catalogName, childType, row.catalogId, ver)
                                && Stored(old(db.State()), db.values, codec, ver, res.value, 0, input))
              && Drafted(old(db.catalogs), db.catalogs, row.catalogId)
    ensures res.Err? ==> CreateFailed(old(db.State()), db.State(), codec, input, row)
    ensures Unambiguous(old(db.State())) ==>
              (res.Ok? <==> exists c, ver ::
                 && ContainmentResolves(old(db.State()), catalogName, parentType, parent, childType, c, ver)
                 && MayCreate(old(db.State()), codec, catalogName, childType, Some(parent), name, description, input, c, ver))
  {
    hide ApplyStep, ApplySteps, StepAllowed, StepsAllowed, DataInv, Read, Refused, Inserted, NotInserted, SameScope,
         ParentAllowed, Keyed, Revised, WithRows, Created, CreateFailed, Resolves, IsDnsLabel, UniqueAttributeNames,
         DataCall, TypeContains, ContainsEdge, EditValues, UniqueNames, Unambiguous, ContainmentResolves, RowScopeTaken, Drafted,
         Stored, CarriedOn, SameBut;
    row, steps := Instance(0, 0, Some(parent), name, description, 1), [];
    ghost var d := db.State();
    NothingFailed(d, codec, input, row);
    if !IsDnsLabel(name) {
      return Err(Rejected), row, steps;
    }
    var found := ResolveContainment(db, catalogName, parentType, parent, childType);
    if found.Err? {
      return Err(found.error), row, steps;
    }
    var c, ver := found.value.0, found.value.1;
    ContainmentMeans(d, catalogName, parentType, parent, childType, c, ver);
    ResolvedFacts(d, catalogName, childType, c, ver);
    IntroParentAllowed(d, c, parent);
    var new_ := Instance(db.versions[ver].typeId, c, Some(parent), name, description, 1);
    row := new_;
    var id := db.nextId;
    var written := InsertInstance(db, codec, ver, new_, input);
    if written.Err? {
      IntroCreateFailed(d, db.State(), codec, input, row, ver);
      return Err(written.error), row, steps;
    }
    ghost var s0 := Insert(row, Revised(map[], written.value));
    IntroCreated(d, db.State(), codec, catalogName, childType, row, input, ver, written.value);
    InsertThenBump(d, c, s0, parent);
    Bump(db, c, parent);
    steps := [s0] + [Revise(parent, d.instances[parent], Structural)];
    OneStep(ApplyStep(d, s0), c, steps[1]);
    MoreSteps(d, c, s0, [steps[1]]);
    db.catalogs := db.catalogs[c := db.catalogs[c].(status := Draft)];
    CallEnds(d, c, steps, db.State());
    InsertStepTables(d, row, Revised(map[], written.value));
    ThenSavedTables(d, c, s0, parent, d.instances[parent]);
    InsertedRowsBeside(d, codec, ver, c, row, input, written.value, parent);
    return Ok(id), row, steps;
  }

  lemma InsertedRowsBeside(d: Db, codec: Codec, ver: Id, c: Id, row: Instance, input: map<string, Json>,
                           touched: map<Id, Option<Value>>, parent: Id)
    requires DataInv(d) && row.version == 1 && c in d.catalogs && row.catalogId == c && parent in d.instances
    requires Inserted(d, ApplyStep(d, Insert(row, Revised(map[], touched))), codec, ver, row, input, touched)
    ensures var e := DataCall(d, c, [Insert(row, Revised(map[], touched))] + [Revise(parent, d.instances[parent], Structural)]);
            && Stored(d, e.values, codec, ver, d.nextId, 0, input)
            && CarriedOn(d.instances, e.instances, d.values, e.values, {d.nextId})
  {
    hide DataInv, Stored, SameBut, CarriedOn, ApplyStep, Inserted, ApplySteps, EditValues, Revised;
    var s, b := Insert(row, Revised(map[], touched)), Revise(parent, d.instances[parent], Structural);
    var v := ApplyStep(d, s);
    InsertStores(d, v, codec, ver, row, input, touched);
    MoreSteps(d, c, s, [b]);
    OneStep(v, c, b);
    StepCarries(v, b);
    SavedTables(v, parent, d.instances[parent]);
    InsertedThenCarried(d, v, ApplyStep(v, b), codec, ver, input, row);
  }

  lemma ContainmentMeans(d: Db, catalogName: string, parentType: string, parent: Id, childType: string, c: Id, ver: Id)
    requires ContainmentResolves(d, catalogName, parentType, parent, childType, c, ver)
    ensures Resolves(d, catalogName, childType, c, ver) && TypeContains(d, catalogName, parentType, c, d.versions[ver].typeId)
    ensures parent in d.instances && d.instances[parent].catalogId == c
  {
    hide Resolves, TypeContains;
  }

  lemma InsertThenBump(d: Db, c: Id, s: DataStep, parent: Id)
    requires DataInv(d) && s.Insert? && parent in d.instances && StepAllowed(d, c, s)
    ensures DataInv(ApplyStep(d, s)) && ApplyStep(d, s).catalogs == d.catalogs
    ensures parent in ApplyStep(d, s).instances && ApplyStep(d, s).instances[parent] == d.instances[parent]
  {
    hide DataInv, StepAllowed;
    StepKeeps(d, c, s);
    InsertLeavesParent(d, s, parent);
  }

  lemma IntroTypeContains(d: Db, catalogName: string, parentType: string, c: Id, ver: Id, child: Id)
    requires Resolves(d, catalogName, parentType, c, ver) && exists s :: ContainsEdge(d.associations, s, ver, child)
    ensures TypeContains(d, catalogName, parentType, c, child)
  {
    hide Resolves, ContainsEdge;
  }

  lemma IntroParentAllowed(d: Db, c: Id, parent: Id)
    requires parent in d.instances && d.instances[parent].catalogId == c
    ensures ParentAllowed(d, c, Some(parent))
  {
  }

  lemma InsertLeavesParent(d: Db, s: DataStep, parent: Id)
    requires DataInv(d) && s.Insert? && parent in d.instances
    ensures parent in ApplyStep(d, s).instances && ApplyStep(d, s).instances[parent] == d.instances[parent]
  {
    hide RowsWithin, LinksInside, ParentsInside, UniqueScopes, FreshSchema;
  }

  /** Saving a record back under the next version is always allowed. */
  lemma BumpIsStep(d: Db, c: Id, i: Id, row: Instance)
    requires DataInv(d) && i in d.instances && d.instances[i] == row && row.catalogId == c
    ensures !ScopeTaken(d.instances, i, row)
    ensures StepAllowed(d, c, Revise(i, row, Structural))
  {
    hide FreshData, FreshSchema, RowsWithin, LinksInside, ParentsInside;
    forall j | j in d.instances && j != i
      ensures !SameScope(d.instances[j], row)
    {
      assert SameScope(d.instances[j], d.instances[i]) ==> j == i;
    }
  }

  lemma BumpState(d: Db, e: Db, i: Id, row: Instance)
    requires i in d.instances && d.instances[i].version == row.version
    requires e == d.(instances := d.instances[i := row.(version := row.version + 1)],
                     values := EditValues(d.values, i, row.version, Structural))
    ensures e == ApplyStep(d, Revise(i, row, Structural))
  {
    hide EditValues;
  }

  // ---- editing ----

  ghost predicate Edited(d: Db, codec: Codec, catalogName: string, typeName: string, c: Id, i: Id, version: nat,
                         name: Option<string>, description: Option<string>, input: map<string, Json>, step: DataStep) {
    exists ver, touched :: (
      && Resolves(d, catalogName, typeName, c, ver)
      && i in d.instances && d.instances[i].catalogId == c && d.instances[i].version == version
      && Read(d, codec, ver, input, touched)
      && step == Revise(i, Retitled(d.instances[i], name, description), Update(touched)))
  }

  /** The update is possible: the names resolve, the version is the current one, the input can be
      read, and the new name is a free label. */
  ghost predicate MayUpdate(d: Db, codec: Codec, catalogName: string, typeName: string, i: Id, version: nat,
                            name: Option<string>, description: Option<string>, input: map<string, Json>, c: Id, ver: Id) {
    && Resolves(d, catalogName, typeName, c, ver)
    && i in d.instances && d.instances[i].catalogId == c && d.instances[i].version == version
    && !Refused(d, codec, ver, input) && (name.Some? ==> IsDnsLabel(name.value))
    && !ScopeTaken(d.instances, i, Retitled(d.instances[i], name, description))
  }

  lemma UpdateDecided(d: Db, codec: Codec, catalogName: string, typeName: string, i: Id, version: nat, name: Option<string>,
                      description: Option<string>, input: map<string, Json>, found: Result<(Id, Id)>)
    requires Decides(d, catalogName, typeName, found)
    ensures (exists c, ver :: MayUpdate(d, codec, catalogName, typeName, i, version, name, description, input, c, ver)) <==>
              found.Ok? && MayUpdate(d, codec, catalogName, typeName, i, version, name, description, input, found.value.0, found.value.1)
  {
    hide Resolves, IsDnsLabel, Refused, ScopeTaken;
  }

  function Retitled(row: Instance, name: Option<string>, description: Option<string>): Instance {
    row.(name := if name.Some? then name.value else row.name,
         description := if description.Some? then description.value else row.description)
  }

  /** The checks before an update, and the input as read. */
  method CheckUpdate(db: Store, codec: Codec, catalogName: string, typeName: string, i: Id, version: nat,
                     name: Option<string>, description: Option<string>, input: map<string, Json>)
    returns (res: Result<(Id, Id, map<Id, Option<Value>>)>)
    requires UniqueAttributeNames(db.attributes)
    ensures res.Ok? ==>
              && Resolves(db.State(), catalogName, typeName, res.value.0, res.value.1)
              && i in db.instances && db.instances[i].catalogId == res.value.0 && db.instances[i].version == version
              && Read(db.State(), codec, res.value.1, input, res.value.2) && (name.Some? ==> IsDnsLabel(name.value))
    ensures Unambiguous(db.State()) ==>
              ((exists c, ver :: MayUpdate(db.State(), codec, catalogName, typeName, i, version, name, description, input, c, ver)) <==>
                 res.Ok? && !ScopeTaken(db.instances, i, Retitled(db.instances[i], name, description)))
  {
    hide Read, Refused, Resolves, IsDnsLabel, UniqueAttributeNames, Unambiguous, Decides, ScopeTaken, Retitled;
    var found := ResolveEntityType(db, catalogName, typeName);
    if Unambiguous(db.State()) {
      UpdateDecided(db.State(), codec, catalogName, typeName, i, version, name, description, input, found);
    }
    if found.Err? {
      return Err(found.error);
    }
    var cat, ver := found.value.0, found.value.1;
    if i !in db.instances || db.instances[i].catalogId != cat {
      return Err(NotFound);
    }
    if db.instances[i].version != version {
      return Err(Conflict);
    }
    var touched := ReadAttributes(db, codec, ver, input);
    if touched.Err? {
      return Err(touched.error);
    }
    if name.Some? && !IsDnsLabel(name.value) {
      return Err(Rejected);
    }
    return Ok((cat, ver, touched.value));
  }

  /** The optimistic update: the caller names the version it edits. A refused update writes
      nothing; an accepted one writes all its rows, because none can lie at the next version. */
  method UpdateInstance(db: Store, codec: Codec, catalogName: string, typeName: string, i: Id, version: nat,
                        name: Option<string>, description: Option<string>, input: map<string, Json>)
    returns (res: Result<nat>, ghost c: Id, ghost steps: seq<DataStep>)
    requires DataInv(db.State()) && UniqueAttributeNames(db.attributes)
    modifies db`instances, db`values, db`catalogs
    ensures res.Ok? ==>
              && res.value == version + 1 && (name.Some? ==> IsDnsLabel(name.value))
              && |steps| == 1 && Edited(old(db.State()), codec, catalogName, typeName, c, i, version, name, description, input, steps[0])
              && c in old(db.catalogs) && StepsAllowed(old(db.State()), c, steps)
              && db.State() == DataCall(old(db.State()), c, steps)
    ensures res.Ok? ==>
              && i in old(db.instances) && old(db.instances)[i].version == version
              && db.instances == old(db.instances)[i := UpdatedRecord(old(db.instances)[i], name, description)]
              && SameBut(old(db.values), db.values, i, version + 1)
              && (exists ver :: Resolves(old(db.State()), catalogName, typeName, c, ver)
                                && Stored(old(db.State()), db.values, codec, ver, i, version, input))
              && Drafted(old(db.catalogs), db.catalogs, c)
    ensures res.Err? ==> db.State() == old(db.State())
    ensures Unambiguous(old(db.State())) ==>
              (res.Ok? <==> exists c, ver ::
                 MayUpdate(old(db.State()), codec, catalogName, typeName, i, version, name, description, input, c, ver))
  {
    hide ApplyStep, ApplySteps, StepAllowed, StepsAllowed, DataInv, Read, Refused, SameScope, Keyed, Revised, WithRows,
         RowsAt, Resolves, IsDnsLabel, UniqueAttributeNames, DataCall, Edited, EditValues, Unambiguous, ScopeTaken, Retitled,
         MayUpdate, Drafted, UpdatedRecord, Stored, SameBut;
    c, steps := 0, [];
    ghost var d := db.State();
    var checked := CheckUpdate(db, codec, catalogName, typeName, i, version, name, description, input);
    if checked.Err? {
      return Err(checked.error), c, steps;
    }
    var (cat, ver, touched) := checked.value;
    ResolvedFacts(d, catalogName, typeName, cat, ver);
    c := cat;
    var rows := CarryForward(RowsAt(db.values, i, version), touched);
    var row := Retitled(db.instances[i], name, description);
    RenamedKeeps(db.instances[i], name, description);
    var stored := StoreUpdate(db, cat, i, row, rows, touched);
    if stored.Fail? {
      return Err(stored.error), c, steps;
    }
    IntroEdited(d, codec, catalogName, typeName, c, i, version, name, description, input, ver, touched);
    steps := [Revise(i, row, Update(touched))];
    OneStep(d, c, steps[0]);
    db.catalogs := db.catalogs[cat := db.catalogs[cat].(status := Draft)];
    CallEnds(d, c, steps, db.State());
    RevisedTables(d, c, i, row, Update(touched));
    RetitledFields(d.instances[i], name, description);
    UpdatedRows(d, codec, ver, c, i, row, input, touched);
    return Ok(version + 1), c, steps;
  }

  /** The record an update leaves: what is given replaces what was there, and nothing else changes. */
  ghost function UpdatedRecord(x: Instance, name: Option<string>, description: Option<string>): (y: Instance)
    ensures name.Some? ==> y.name == name.value
    ensures name.None? ==> y.name == x.name
    ensures description.Some? ==> y.description == description.value
    ensures description.None? ==> y.description == x.description
    ensures y.typeId == x.typeId && y.catalogId == x.catalogId && y.parent == x.parent && y.version == x.version + 1
  {
    NextRecord(x).(name := Or(name, x.name), description := Or(description, x.description))
  }

  lemma RetitledFields(x: Instance, name: Option<string>, description: Option<string>)
    ensures Retitled(x, name, description).(version := x.version + 1) == UpdatedRecord(x, name, description)
  {
  }

  lemma UpdatedRows(d: Db, codec: Codec, ver: Id, c: Id, i: Id, to: Instance, input: map<string, Json>, touched: map<Id, Option<Value>>)
    requires DataInv(d) && i in d.instances && c in d.catalogs && Read(d, codec, ver, input, touched)
    ensures var e := DataCall(d, c, [Revise(i, to, Update(touched))]);
            && Stored(d, e.values, codec, ver, i, d.instances[i].version, input)
            && SameBut(d.values, e.values, i, d.instances[i].version + 1)
  {
    hide DataInv, Stored, SameBut, WithRows, Revised, Read, WasRead, StepAllowed, RowsAt, NoRowsAt;
    NothingBeyond(d, i);
    ReadWas(d, codec, ver, input, touched);
    UpdateStores(d, codec, ver, i, d.instances[i].version, input, touched);
    OneStep(d, c, Revise(i, to, Update(touched)));
  }

  lemma NothingBeyond(d: Db, i: Id)
    requires DataInv(d) && i in d.instances
    ensures NoRowsAt(d.values, i, d.instances[i].version + 1)
  {
    hide FreshData, FreshSchema, LinksInside, ParentsInside, UniqueScopes;
  }

  lemma RenamedKeeps(row: Instance, name: Option<string>, description: Option<string>)
    ensures var to := Retitled(row, name, description);
            to.catalogId == row.catalogId && to.parent == row.parent && to.version == row.version
  {
  }

  /** The record first, then the rows of its next version. */
  method StoreUpdate(db: Store, ghost c: Id, i: Id, row: Instance, rows: map<Id, Value>,
                     ghost touched: map<Id, Option<Value>>) returns (out: Outcome)
    requires DataInv(db.State()) && i in db.instances && db.instances[i].catalogId == c && row.catalogId == c
    requires row.parent == db.instances[i].parent && row.version == db.instances[i].version
    requires rows == Revised(RowsAt(db.values, i, row.version), touched)
    modifies db`instances, db`values
    ensures out.Fail? <==> ScopeTaken(old(db.instances), i, row)
    ensures out.Fail? ==> db.State() == old(db.State())
    ensures out.Pass? ==>
              && StepAllowed(old(db.State()), c, Revise(i, row, Update(touched)))
              && db.State() == ApplyStep(old(db.State()), Revise(i, row, Update(touched)))
  {
    hide ApplyStep, StepAllowed, DataInv, SameScope, Keyed, Revised, RowsAt, ScopeTaken;
    ghost var d := db.State();
    var taken := IsTakenByOther(db.instances, i, row);
    if taken {
      return Fail(Conflict);
    }
    db.instances := db.instances[i := row.(version := row.version + 1)];
    NextVersionFree(d, i, rows);
    var stored := SetValues(db, Keyed(i, row.version + 1, rows));
    assert stored.Pass?;
    UpdateState(d, db.State(), c, i, row, touched);
    return Pass;
  }

  lemma NextVersionFree(d: Db, i: Id, rows: map<Id, Value>)
    requires DataInv(d) && i in d.instances
    ensures forall k :: k in Keyed(i, d.instances[i].version + 1, rows) ==> k !in d.values
  {
    hide FreshData, FreshSchema, LinksInside, ParentsInside, UniqueScopes;
  }

  lemma UpdateState(d: Db, e: Db, c: Id, i: Id, row: Instance, touched: map<Id, Option<Value>>)
    requires i in d.instances && d.instances[i].catalogId == c && row.catalogId == c
    requires row.parent == d.instances[i].parent
    requires !ScopeTaken(d.instances, i, row)
    requires var ver := d.instances[i].version;
             e == d.(instances := d.instances[i := row.(version := ver + 1)],
                     values := d.values + Keyed(i, ver + 1, Revised(RowsAt(d.values, i, ver), touched)))
    ensures StepAllowed(d, c, Revise(i, row, Update(touched)))
    ensures e == ApplyStep(d, Revise(i, row, Update(touched)))
  {
    hide RowsAt, Keyed, Revised, SameScope, StepAllowed;
    UpdateAllowed(d, c, i, row, touched);
  }

  lemma UpdateAllowed(d: Db, c: Id, i: Id, row: Instance, touched: map<Id, Option<Value>>)
    requires i in d.instances && d.instances[i].catalogId == c && row.catalogId == c
    requires row.parent == d.instances[i].parent && !ScopeTaken(d.instances, i, row)
    ensures StepAllowed(d, c, Revise(i, row, Update(touched)))
  {
    hide SameScope;
  }

  lemma IntroEdited(d: Db, codec: Codec, catalogName: string, typeName: string, c: Id, i: Id, version: nat,
                    name: Option<string>, description: Option<string>, input: map<string, Json>,
                    ver: Id, touched: map<Id, Option<Value>>)
    requires Resolves(d, catalogName, typeName, c, ver)
    requires i in d.instances && d.instances[i].catalogId == c && d.instances[i].version == version
    requires Read(d, codec, ver, input, touched)
    ensures Edited(d, codec, catalogName, typeName, c, i, version, name, description, input,
                   Revise(i, Retitled(d.instances[i], name, description), Update(touched)))
  {
    hide Read, Resolves;
  }

  // ---- deleting ----

  lemma PlaceDecided(d: Db, catalogName: string, typeName: string, c: Id, found: Result<(Id, Id)>)
    requires Decides(d, catalogName, typeName, found)
    ensures (exists ver :: Resolves(d, catalogName, typeName, c, ver)) <==> found.Ok? && found.value.0 == c
  {
    hide Resolves;
  }

  /** An instance with what the cascade takes. When lookups lead to one row, it is deleted
      exactly when it is in the catalog and the type named is pinned there. */
  method DeleteInstance(db: Store, catalogName: string, typeName: string, i: Id)
    returns (out: Outcome, ghost c: Id, ghost steps: seq<DataStep>)
    requires DataInv(db.State()) && UniqueNames(db.catalogs)
    requires i in db.instances ==> OffCycle(db.instances, i)
    modifies db`instances, db`links, db`catalogs
    ensures out.Pass? ==>
              && i in old(db.instances) && (exists ver :: Resolves(old(db.State()), catalogName, typeName, c, ver))
              && |steps| == 1 && steps[0].Remove? && Taken(old(db.instances), i, steps[0].gone)
              && c in old(db.catalogs) && StepsAllowed(old(db.State()), c, steps)
              && db.State() == DataCall(old(db.State()), c, steps)
              && db.instances == old(db.instances) - steps[0].gone && LinksWithout(old(db.links), db.links, steps[0].gone)
              && Drafted(old(db.catalogs), db.catalogs, c)
    ensures out.Fail? ==> db.State() == old(db.State())
    ensures Unambiguous(old(db.State())) ==>
              (out.Pass? <==> i in old(db.instances)
                              && exists ver :: Resolves(old(db.State()), catalogName, typeName, old(db.instances)[i].catalogId, ver))
  {
    hide ApplyStep, ApplySteps, StepAllowed, StepsAllowed, DataInv, Resolves, DataCall, Taken, OffCycle, Unambiguous, Decides, Drafted,
         LinksWithout;
    c, steps := 0, [];
    ghost var d := db.State();
    var found := ResolveEntityType(db, catalogName, typeName);
    if Unambiguous(d) && i in d.instances {
      PlaceDecided(d, catalogName, typeName, d.instances[i].catalogId, found);
    }
    if found.Err? {
      return Fail(found.error), c, steps;
    }
    var cat := found.value.0;
    ResolvedFacts(d, catalogName, typeName, cat, found.value.1);
    c := cat;
    if i !in db.instances || db.instances[i].catalogId != cat {
      return Fail(NotFound), c, steps;
    }
    NothingRemoved(db.instances);
    ghost var gone := CascadeDelete(db, i, db.instances, {});
    assert {} + gone == gone;
    RemoveState(d, db.State(), c, i, gone);
    steps := [Remove(gone)];
    OneStep(d, c, steps[0]);
    db.catalogs := db.catalogs[cat := db.catalogs[cat].(status := Draft)];
    CallEnds(d, c, steps, db.State());
    RemovedTables(d, c, gone);
    return Pass, c, steps;
  }

  /** The links left are those that neither start nor end at an instance that is gone. */
  ghost predicate LinksWithout(before: map<Id, Link>, after: map<Id, Link>, gone: set<Id>) {
    && (forall l :: l in after <==> l in before && before[l].source !in gone && before[l].target !in gone)
    && forall l :: l in after && l in before ==> after[l] == before[l]
  }

  lemma RemovedTables(d: Db, c: Id, gone: set<Id>)
    requires c in d.catalogs
    ensures var e := DataCall(d, c, [Remove(gone)]);
            && e.instances == d.instances - gone && LinksWithout(d.links, e.links, gone) && e.values == d.values
            && Drafted(d.catalogs, e.catalogs, c)
  {
    OneStep(d, c, Remove(gone));
  }

  lemma NothingRemoved(m: map<Id, Instance>)
    ensures m - {} == m
  {
  }

  /** A subtree lies in one catalog. */
  lemma RemoveState(d: Db, e: Db, c: Id, i: Id, gone: set<Id>)
    requires DataInv(d) && i in d.instances && d.instances[i].catalogId == c && Taken(d.instances, i, gone)
    requires e == d.(instances := d.instances - gone, links := WithoutLinksTo(d.links, gone))
    ensures StepAllowed(d, c, Remove(gone)) && e == ApplyStep(d, Remove(gone))
  {
    hide FreshData, FreshSchema, RowsWithin, LinksInside, UniqueScopes;
    var inside := set x | x in d.instances && d.instances[x].catalogId == c;
    forall edge | edge in ParentEdges(d.instances) && edge.0 in inside
      ensures edge.1 in inside
    {
      assert ParentInside(d, edge.1);
    }
    forall x | x in gone
      ensures x in inside
    {
      var w :| WalkFromTo(ParentEdges(d.instances), w, i, x);
      ClosedUnderReach(ParentEdges(d.instances), inside, w);
    }
  }

  // ---- moving ----

  /** A record saved twice from the same loaded copy is saved once. */
  lemma SavedTwice(values: Rows, i: Id, ver: nat)
    ensures EditValues(EditValues(values, i, ver, Structural), i, ver, Structural) == EditValues(values, i, ver, Structural)
  {
    hide RowsAt, Keyed;
    var once := EditValues(values, i, ver, Structural);
    var next := ver + 1;
    assert DropVersion(once, i, next) == DropVersion(values, i, next) by {
      assert forall k :: k in Keyed(i, next, RowsAt(values, i, ver)) ==> k.inst == i && k.ver == next;
    }
    var left, right := RowsAt(once, i, ver), RowsAt(values, i, ver);
    forall a
      ensures a in left <==> a in right
      ensures a in left && a in right ==> left[a] == right[a]
    {
      var k := RowKey(i, ver, a);
      assert k !in Keyed(i, next, right);
    }
    assert left == right;
  }

  /** The steps of a move. Clearing the parent bumps the old one, if it still exists; a new
      parent is bumped from the copy loaded at the start, so naming the instance itself as
      its parent ends by writing that copy back, parent and all. */
  ghost predicate MoveSteps(d: Db, child: Id, parent: Option<Id>, steps: seq<DataStep>)
    requires child in d.instances && (parent.Some? ==> parent.value in d.instances)
  {
    var row := d.instances[child];
    var s0 := Revise(child, row.(parent := parent), Structural);
    match parent
    case None =>
      var e := ApplyStep(d, s0);
      if row.parent.Some? && row.parent.value in e.instances
      then steps == [s0, Revise(row.parent.value, e.instances[row.parent.value], Structural)]
      else steps == [s0]
    case Some(p) =>
      if p == child then steps == [Revise(child, row, Structural)]
      else steps == [s0, Revise(p, d.instances[p], Structural)]
  }

  /** The records after a move: the instance under its new parent, and the parent it got or lost,
      each one version on. */
  ghost function AfterMove(m: map<Id, Instance>, child: Id, parent: Option<Id>): map<Id, Instance>
    requires child in m && (parent.Some? ==> parent.value in m)
  {
    var x := m[child];
    var moved := m[child := Instance(x.typeId, x.catalogId, parent, x.name, x.description, x.version + 1)];
    match parent
    case None => if x.parent.Some? && x.parent.value in m then moved[x.parent.value := NextRecord(moved[x.parent.value])] else moved
    case Some(p) => if p == child then m[child := NextRecord(x)] else moved[p := NextRecord(m[p])]
  }

  lemma MovedTables(d: Db, c: Id, child: Id, parent: Option<Id>, steps: seq<DataStep>)
    requires c in d.catalogs && child in d.instances && (parent.Some? ==> parent.value in d.instances)
    requires MoveSteps(d, child, parent, steps)
    ensures var e := DataCall(d, c, steps);
            e.instances == AfterMove(d.instances, child, parent) && e.links == d.links && Drafted(d.catalogs, e.catalogs, c)
  {
    hide ApplyStep, ApplySteps, DataCall, Drafted;
    var row := d.instances[child];
    var s0 := Revise(child, row.(parent := parent), Structural);
    ReviseStepTables(d, child, row.(parent := parent));
    if parent == Some(child) {
      RevisedTables(d, c, child, row, Structural);
    } else {
      RevisedTables(d, c, child, row.(parent := parent), Structural);
      var p := if parent.Some? then parent.value else Or(row.parent, child);
      var v := ApplyStep(d, s0);
      if p in v.instances && steps == [s0, Revise(p, v.instances[p], Structural)] {
        assert steps == [s0] + [Revise(p, v.instances[p], Structural)];
        ThenSavedTables(d, c, s0, p, v.instances[p]);
      }
    }
  }

  lemma CallCarries(d: Db, c: Id, steps: seq<DataStep>)
    requires forall k :: 0 <= k < |steps| ==> OnlyCarries(steps[k])
    ensures CarriedOn(d.instances, DataCall(d, c, steps).instances, d.values, DataCall(d, c, steps).values, {})
  {
    hide CarriedOn, ApplySteps, OnlyCarries;
    StepsCarry(d, steps);
  }

  lemma MoveCarries(d: Db, c: Id, child: Id, parent: Option<Id>, steps: seq<DataStep>)
    requires child in d.instances && (parent.Some? ==> parent.value in d.instances) && MoveSteps(d, child, parent, steps)
    ensures CarriedOn(d.instances, DataCall(d, c, steps).instances, d.values, DataCall(d, c, steps).values, {})
  {
    hide CarriedOn, ApplyStep, DataCall;
    CallCarries(d, c, steps);
  }

  /** What the service has checked before a move. The named parent type is checked against
      the schema, the parent instance only against the catalog. */
  ghost predicate MoveAccepted(d: Db, catalogName: string, childType: string, child: Id, parentType: string,
                               parent: Option<Id>, c: Id) {
    && (exists ver :: Resolves(d, catalogName, childType, c, ver))
    && child in d.instances && d.instances[child].catalogId == c
    && ParentAllowed(d, c, parent)
    && (parent.Some? ==> TypeContains(d, catalogName, parentType, c, d.instances[child].typeId))
    && !ScopeTaken(d.instances, child, d.instances[child].(parent := parent))
  }

  /** What is left of the checks once the names are resolved. */
  ghost predicate MoveFits(d: Db, catalogName: string, child: Id, parentType: string, parent: Option<Id>, c: Id) {
    && child in d.instances && d.instances[child].catalogId == c && ParentAllowed(d, c, parent)
    && (parent.Some? ==> TypeContains(d, catalogName, parentType, c, d.instances[child].typeId))
    && !ScopeTaken(d.instances, child, d.instances[child].(parent := parent))
  }

  lemma MoveDecided(d: Db, catalogName: string, childType: string, child: Id, parentType: string, parent: Option<Id>,
                    found: Result<(Id, Id)>)
    requires Decides(d, catalogName, childType, found)
    ensures (exists c :: MoveAccepted(d, catalogName, childType, child, parentType, parent, c)) <==>
              found.Ok? && MoveFits(d, catalogName, child, parentType, parent, found.value.0)
  {
    hide MoveAccepted, MoveFits, Decides;
    forall c
      ensures MoveAccepted(d, catalogName, childType, child, parentType, parent, c) <==>
                found.Ok? && found.value.0 == c && MoveFits(d, catalogName, child, parentType, parent, c)
    {
      MoveDecidedAt(d, catalogName, childType, child, parentType, parent, found, c);
    }
    if found.Ok? && MoveFits(d, catalogName, child, parentType, parent, found.value.0) {
      assert MoveAccepted(d, catalogName, childType, child, parentType, parent, found.value.0);
    }
  }

  lemma MoveDecidedAt(d: Db, catalogName: string, childType: string, child: Id, parentType: string, parent: Option<Id>,
                      found: Result<(Id, Id)>, c: Id)
    requires Decides(d, catalogName, childType, found)
    ensures MoveAccepted(d, catalogName, childType, child, parentType, parent, c) <==>
              found.Ok? && found.value.0 == c && MoveFits(d, catalogName, child, parentType, parent, c)
  {
    hide Resolves, Decides, TypeContains, ScopeTaken, ParentAllowed;
    PlaceDecided(d, catalogName, childType, c, found);
  }

  /** A move, or a removal from the parent. When lookups lead to one row, it is made exactly when
      the checks accept it. */
  method SetParent(db: Store, catalogName: string, childType: string, child: Id, parentType: string, parent: Option<Id>)
    returns (out: Outcome, ghost c: Id, ghost steps: seq<DataStep>)
    requires DataInv(db.State()) && UniqueNames(db.catalogs)
    modifies db`instances, db`values, db`catalogs
    ensures out.Pass? ==>
              && MoveAccepted(old(db.State()), catalogName, childType, child, parentType, parent, c)
              && MoveSteps(old(db.State()), child, parent, steps)
              && c in old(db.catalogs) && StepsAllowed(old(db.State()), c, steps)
              && db.State() == DataCall(old(db.State()), c, steps)
              && db.instances == AfterMove(old(db.instances), child, parent) && Drafted(old(db.catalogs), db.catalogs, c)
              && CarriedOn(old(db.instances), db.instances, old(db.values), db.values, {})
    ensures out.Fail? ==> db.State() == old(db.State())
    ensures Unambiguous(old(db.State())) ==>
              (out.Pass? <==> exists k :: MoveAccepted(old(db.State()), catalogName, childType, child, parentType, parent, k))
  {
    hide ApplyStep, ApplySteps, StepAllowed, StepsAllowed, DataInv, SameScope, Resolves, DataCall, TypeContains,
         ContainsEdge, EditValues, UniqueNames, MoveSteps, MoveAccepted, ScopeTaken, ParentAllowed, Unambiguous, Decides,
         Drafted, AfterMove, CarriedOn;
    c, steps := 0, [];
    ghost var d := db.State();
    var found := ResolveEntityType(db, catalogName, childType);
    if Unambiguous(d) {
      MoveDecided(d, catalogName, childType, child, parentType, parent, found);
    }
    if found.Err? {
      return Fail(found.error), c, steps;
    }
    var cat := found.value.0;
    ResolvedFacts(d, catalogName, childType, cat, found.value.1);
    c := cat;
    if child !in db.instances {
      return Fail(NotFound), c, steps;
    }
    if db.instances[child].catalogId != cat {
      return Fail(Rejected), c, steps;
    }
    NoParentAllowed(d, cat);
    if parent.Some? {
      var allowed := ParentChecked(db, catalogName, parentType, parent.value, cat, db.instances[child].typeId);
      if allowed.Fail? {
        return allowed, c, steps;
      }
    }
    var row := db.instances[child].(parent := parent);
    var taken := IsTakenByOther(db.instances, child, row);
    if taken {
      return Fail(Conflict), c, steps;
    }
    IntroMove(d, catalogName, childType, child, parentType, parent, c, found.value.1);
    steps := Move(db, cat, child, parent);
    db.catalogs := db.catalogs[cat := db.catalogs[cat].(status := Draft)];
    CallEnds(d, c, steps, db.State());
    MovedTables(d, c, child, parent, steps);
    MoveCarries(d, c, child, parent, steps);
    return Pass, c, steps;
  }

  method IsTakenByOther(m: map<Id, Instance>, i: Id, row: Instance) returns (taken: bool)
    ensures taken <==> ScopeTaken(m, i, row)
  {
    if j :| j in m && j != i && SameScope(m[j], row) {
      return true;
    }
    return false;
  }

  /** The parent exists in the catalog and the named parent type may contain the child's type. */
  method ParentChecked(db: Store, catalogName: string, parentType: string, parent: Id, c: Id, child: Id)
    returns (out: Outcome)
    requires UniqueNames(db.catalogs) && c in db.catalogs && db.catalogs[c].name == catalogName
    ensures out.Pass? ==> ParentAllowed(db.State(), c, Some(parent))
                          && TypeContains(db.State(), catalogName, parentType, c, child)
    ensures out.Fail? && Unambiguous(db.State()) ==>
              !(ParentAllowed(db.State(), c, Some(parent)) && TypeContains(db.State(), catalogName, parentType, c, child))
  {
    hide ContainsEdge, Resolves, Decides, Unambiguous, TypeContains;
    var found := ResolveEntityType(db, catalogName, parentType);
    if Unambiguous(db.State()) {
      ContainsDecided(db.State(), catalogName, parentType, c, child, found);
    }
    if found.Err? {
      return Fail(found.error);
    }
    if parent !in db.instances {
      return Fail(NotFound);
    }
    if db.instances[parent].catalogId != c {
      return Fail(Rejected);
    }
    var contained := AllowsContainment(db.associations, found.value.1, child);
    if !contained {
      return Fail(Rejected);
    }
    SameCatalog(db.State(), catalogName, parentType, c, found.value.0, found.value.1);
    IntroTypeContains(db.State(), catalogName, parentType, c, found.value.1, child);
    return Pass;
  }

  lemma SameCatalog(d: Db, catalogName: string, typeName: string, c: Id, k: Id, ver: Id)
    requires UniqueNames(d.catalogs) && c in d.catalogs && d.catalogs[c].name == catalogName && Resolves(d, catalogName, typeName, k, ver)
    ensures k == c
  {
  }

  lemma IntroMove(d: Db, catalogName: string, childType: string, child: Id, parentType: string,
                  parent: Option<Id>, c: Id, ver: Id)
    requires Resolves(d, catalogName, childType, c, ver)
    requires child in d.instances && d.instances[child].catalogId == c
    requires parent.None? || ParentAllowed(d, c, parent)
    requires parent.Some? ==> TypeContains(d, catalogName, parentType, c, d.instances[child].typeId)
    requires !ScopeTaken(d.instances, child, d.instances[child].(parent := parent))
    ensures MoveAccepted(d, catalogName, childType, child, parentType, parent, c)
    ensures StepAllowed(d, c, Revise(child, d.instances[child].(parent := parent), Structural))
    ensures parent.Some? ==> parent.value in d.instances && d.instances[parent.value].catalogId == c
  {
    hide Resolves, TypeContains, SameScope;
  }

  /** The writes of a move. */
  method Move(db: Store, ghost c: Id, child: Id, parent: Option<Id>) returns (ghost steps: seq<DataStep>)
    requires DataInv(db.State()) && child in db.instances && db.instances[child].catalogId == c
    requires parent.Some? ==> parent.value in db.instances && db.instances[parent.value].catalogId == c
    requires StepAllowed(db.State(), c, Revise(child, db.instances[child].(parent := parent), Structural))
    modifies db`instances, db`values
    ensures MoveSteps(old(db.State()), child, parent, steps)
    ensures StepsAllowed(old(db.State()), c, steps) && db.State() == ApplySteps(old(db.State()), steps)
  {
    hide ApplyStep, ApplySteps, StepAllowed, StepsAllowed, DataInv, SameScope, EditValues, ScopeTaken;
    ghost var d := db.State();
    var row := db.instances[child];
    ghost var s0 := Revise(child, row.(parent := parent), Structural);
    match parent {
      case None =>
        SaveAs(db, c, child, row.(parent := None));
        if row.parent.Some? && row.parent.value in db.instances {
          OldParentStays(d, c, s0, row.parent.value);
          ghost var s1 := Revise(row.parent.value, db.instances[row.parent.value], Structural);
          Bump(db, c, row.parent.value);
          steps := [s0] + [s1];
          OneStep(ApplyStep(d, s0), c, s1);
          MoreSteps(d, c, s0, [s1]);
        } else {
          steps := [s0];
          OneStep(d, c, s0);
        }
      case Some(p) =>
        var parentRow := db.instances[p];
        SaveAs(db, c, child, row.(parent := parent));
        if p == child {
          steps := SaveStaleCopy(db, c, child, row, parent, d);
        } else {
          RevisedKeepsOthers(d, s0, p);
          Bump(db, c, p);
          steps := [s0] + [Revise(p, parentRow, Structural)];
          OneStep(ApplyStep(d, s0), c, steps[1]);
          MoreSteps(d, c, s0, [steps[1]]);
        }
    }
  }

  lemma RevisedKeepsOthers(d: Db, s: DataStep, i: Id)
    requires s.Revise? && s.inst != i
    ensures i in ApplyStep(d, s).instances <==> i in d.instances
    ensures i in d.instances ==> ApplyStep(d, s).instances[i] == d.instances[i]
  {
    hide EditValues;
    if s.inst in d.instances {
      assert ApplyStep(d, s).instances == d.instances[s.inst := s.to.(version := d.instances[s.inst].version + 1)];
    } else {
      assert ApplyStep(d, s) == d;
    }
  }

  lemma OldParentStays(d: Db, c: Id, s: DataStep, p: Id)
    requires DataInv(d) && s.Revise? && s.inst in d.instances && StepAllowed(d, c, s)
    requires d.instances[s.inst].parent == Some(p) && p in ApplyStep(d, s).instances
    ensures ApplyStep(d, s).instances[p].catalogId == c
  {
    hide EditValues, SameScope, FreshData, FreshSchema, RowsWithin, LinksInside, UniqueScopes;
    assert ParentInside(d, s.inst);
  }

  /** An instance named as its own parent: the second save restores the copy it was loaded from. */
  method SaveStaleCopy(db: Store, ghost c: Id, child: Id, row: Instance, ghost parent: Option<Id>, ghost d: Db)
    returns (ghost steps: seq<DataStep>)
    requires DataInv(d) && child in d.instances && d.instances[child] == row && row.catalogId == c
    requires db.State() == ApplyStep(d, Revise(child, row.(parent := parent), Structural))
    modifies db`instances, db`values
    ensures steps == [Revise(child, row, Structural)]
    ensures StepsAllowed(d, c, steps) && db.State() == ApplySteps(d, steps)
  {
    StaleState(d, c, child, row, parent);
    hide ApplyStep, ApplySteps, StepAllowed, StepsAllowed, DataInv, SameScope, EditValues, ScopeTaken;
    var bumped := BumpInstanceVersion(db, child, row);
    assert bumped.Pass?;
    BumpState(d, db.State(), child, row);
    steps := [Revise(child, row, Structural)];
    OneStep(d, c, steps[0]);
  }

  lemma StaleState(d: Db, c: Id, child: Id, row: Instance, parent: Option<Id>)
    requires DataInv(d) && child in d.instances && d.instances[child] == row && row.catalogId == c
    ensures var e := ApplyStep(d, Revise(child, row.(parent := parent), Structural));
            && e == d.(instances := e.instances, values := e.values)
            && e.instances[child := row.(version := row.version + 1)] == d.instances[child := row.(version := row.version + 1)]
            && EditValues(e.values, child, row.version, Structural) == EditValues(d.values, child, row.version, Structural)
            && !ScopeTaken(e.instances, child, row)
    ensures StepAllowed(d, c, Revise(child, row, Structural))
  {
    hide DataInv, SameScope, StepAllowed, EditValues, ApplyStep, ScopeTaken;
    BumpIsStep(d, c, child, row);
    SavedTwice(d.values, child, row.version);
    var moved := row.(parent := parent, version := row.version + 1);
    ReviseUnfolds(d, child, row.(parent := parent));
    OthersKeepScope(d.instances, child, row, moved);
  }

  lemma ReviseUnfolds(d: Db, i: Id, row: Instance)
    requires i in d.instances && row.version == d.instances[i].version
    ensures ApplyStep(d, Revise(i, row, Structural)) ==
            d.(instances := d.instances[i := row.(version := row.version + 1)],
               values := EditValues(d.values, i, row.version, Structural))
  {
    hide EditValues;
  }

  lemma OthersKeepScope(m: map<Id, Instance>, i: Id, row: Instance, moved: Instance)
    requires !ScopeTaken(m, i, row)
    ensures !ScopeTaken(m[i := moved], i, row)
  {
    hide SameScope;
  }

  // ---- linking ----

  /** Both ends of a link are bumped from the copies loaded before either was saved. */
  method BumpEnds(db: Store, ghost c: Id, source: Id, target: Id, both: bool) returns (ghost steps: seq<DataStep>)
    requires DataInv(db.State()) && source in db.instances && target in db.instances
    requires db.instances[source].catalogId == c && db.instances[target].catalogId == c
    modifies db`instances, db`values
    ensures steps == EndSteps(old(db.State()), source, target, both)
    ensures StepsAllowed(old(db.State()), c, steps) && db.State() == ApplySteps(old(db.State()), steps)
  {
    hide ApplyStep, ApplySteps, StepAllowed, StepsAllowed, DataInv, SameScope, EditValues;
    ghost var d := db.State();
    var sourceRow := db.instances[source];
    ghost var s0 := Revise(source, sourceRow, Structural);
    Bump(db, c, source);
    if !both {
      steps := [s0];
      OneStep(d, c, s0);
    } else if source == target {
      steps := SaveStaleCopy(db, c, source, sourceRow, sourceRow.parent, d);
    } else {
      RevisedKeepsOthers(d, s0, target);
      Bump(db, c, target);
      steps := [s0] + [Revise(target, d.instances[target], Structural)];
      OneStep(ApplyStep(d, s0), c, steps[1]);
      MoreSteps(d, c, s0, [steps[1]]);
    }
  }

  /** The source is bumped, and the target too when the association is bidirectional. */
  ghost function EndSteps(d: Db, source: Id, target: Id, both: bool): seq<DataStep>
    requires source in d.instances && target in d.instances
  {
    [Revise(source, d.instances[source], Structural)]
    + if both && source != target then [Revise(target, d.instances[target], Structural)] else []
  }

  /** The association a link is made on: named in the source's pinned version, or failing
      that a bidirectional one of the target's pinned version, read backwards. */
  ghost predicate LinkableBy(d: Db, ver: Id, cv: Id, sourceType: Id, targetType: Id, name: string, s: Id) {
    && s in d.associations && d.associations[s].name == name
    && (|| (d.associations[s].versionId == ver && d.associations[s].target == targetType)
        || ((forall x :: x in d.associations && d.associations[x].versionId == ver ==> d.associations[x].name != name)
            && d.associations[s].kind.Bidirectional? && d.associations[s].target == sourceType
            && Pin(cv, d.associations[s].versionId) in d.pins.Values
            && d.associations[s].versionId in d.versions && d.versions[d.associations[s].versionId].typeId == targetType))
  }

  /** The result is the one association to link over, if there is one. */
  ghost predicate LinksOver(d: Db, ver: Id, cv: Id, sourceType: Id, targetType: Id, name: string, res: Result<Id>) {
    forall s: Id :: LinkableBy(d, ver, cv, sourceType, targetType, name, s) <==> res == Ok(s)
  }

  lemma OwnDecides(d: Db, ver: Id, cv: Id, sourceType: Id, targetType: Id, name: string, s: Id)
    requires UniqueAssociationNames(d.associations) && OwnAssociation(d.associations, ver, name, s)
    ensures LinksOver(d, ver, cv, sourceType, targetType, name, if d.associations[s].target == targetType then Ok(s) else Err(Rejected))
  {
    forall x | OwnAssociation(d.associations, ver, name, x)
      ensures x == s
    {
      assert SameAssocSlot(d.associations[x], d.associations[s]);
    }
  }

  lemma OtherPinned(d: Db, ver: Id, cv: Id, sourceType: Id, targetType: Id, name: string, p: Id, x: Id)
    requires CatalogVersions.PinsDistinct(d) && p in d.pins && d.pins[p].cvId == cv && d.pins[p].versionId in d.versions
    requires d.versions[d.pins[p].versionId].typeId == targetType && !OwnAssociation(d.associations, ver, name, x)
    ensures LinkableBy(d, ver, cv, sourceType, targetType, name, x) ==>
              OwnAssociation(d.associations, d.pins[p].versionId, name, x) && d.associations[x].kind.Bidirectional? && d.associations[x].target == sourceType
  {
    if LinkableBy(d, ver, cv, sourceType, targetType, name, x) {
      var q :| q in d.pins && d.pins[q] == Pin(cv, d.associations[x].versionId);
      assert CatalogVersions.SamePinned(d, p, q);
    }
  }

  lemma OtherDecides(d: Db, ver: Id, cv: Id, sourceType: Id, targetType: Id, name: string, p: Id, s: Id)
    requires CatalogVersions.PinsDistinct(d) && p in d.pins && d.pins[p].cvId == cv && d.pins[p].versionId in d.versions
    requires UniqueAssociationNames(d.associations) && d.versions[d.pins[p].versionId].typeId == targetType
    requires forall x :: !OwnAssociation(d.associations, ver, name, x)
    requires OwnAssociation(d.associations, d.pins[p].versionId, name, s) && d.associations[s].kind.Bidirectional?
    ensures LinksOver(d, ver, cv, sourceType, targetType, name, if d.associations[s].target == sourceType then Ok(s) else Err(Rejected))
  {
    hide LinkableBy, CatalogVersions.PinsDistinct;
    forall x: Id
      ensures LinkableBy(d, ver, cv, sourceType, targetType, name, x) <==> x == s && d.associations[s].target == sourceType
    {
      OtherPinned(d, ver, cv, sourceType, targetType, name, p, x);
      if OwnAssociation(d.associations, d.pins[p].versionId, name, x) {
        assert SameAssocSlot(d.associations[x], d.associations[s]);
      }
      OtherIsLinkable(d, ver, cv, sourceType, targetType, name, p, s);
    }
  }

  lemma OtherIsLinkable(d: Db, ver: Id, cv: Id, sourceType: Id, targetType: Id, name: string, p: Id, s: Id)
    requires p in d.pins && d.pins[p].cvId == cv && d.pins[p].versionId in d.versions
    requires d.versions[d.pins[p].versionId].typeId == targetType && forall x :: !OwnAssociation(d.associations, ver, name, x)
    requires OwnAssociation(d.associations, d.pins[p].versionId, name, s) && d.associations[s].kind.Bidirectional?
    ensures d.associations[s].target == sourceType ==> LinkableBy(d, ver, cv, sourceType, targetType, name, s)
  {
    assert d.pins[p] == Pin(cv, d.pins[p].versionId);
    assert forall x :: x in d.associations && d.associations[x].versionId == ver ==> !OwnAssociation(d.associations, ver, name, x);
  }

  lemma NoneDecides(d: Db, ver: Id, cv: Id, sourceType: Id, targetType: Id, name: string, p: Id)
    requires CatalogVersions.PinsDistinct(d) && p in d.pins && d.pins[p].cvId == cv && d.pins[p].versionId in d.versions
    requires d.versions[d.pins[p].versionId].typeId == targetType && forall x :: !OwnAssociation(d.associations, ver, name, x)
    requires forall x :: OwnAssociation(d.associations, d.pins[p].versionId, name, x) ==> !d.associations[x].kind.Bidirectional?
    ensures LinksOver(d, ver, cv, sourceType, targetType, name, Err(NotFound))
  {
    hide LinkableBy, CatalogVersions.PinsDistinct;
    forall x: Id
      ensures !LinkableBy(d, ver, cv, sourceType, targetType, name, x)
    {
      OtherPinned(d, ver, cv, sourceType, targetType, name, p, x);
    }
  }

  lemma UnpinnedDecides(d: Db, ver: Id, cv: Id, sourceType: Id, targetType: Id, name: string)
    requires forall x :: !OwnAssociation(d.associations, ver, name, x)
    requires forall p :: p in d.pins && d.pins[p].cvId == cv && d.pins[p].versionId in d.versions ==>
               d.versions[d.pins[p].versionId].typeId != targetType
    ensures LinksOver(d, ver, cv, sourceType, targetType, name, Err(NotFound))
  {
    forall x: Id
      ensures !LinkableBy(d, ver, cv, sourceType, targetType, name, x)
    {
      assert !OwnAssociation(d.associations, ver, name, x);
    }
  }

  /** An association of the source's version decides, whatever its target; only then is the
      target's pinned version asked. */
  method FindAssociation(db: Store, ver: Id, cv: Id, sourceType: Id, targetType: Id, name: string) returns (res: Result<Id>)
    ensures res.Ok? ==> LinkableBy(db.State(), ver, cv, sourceType, targetType, name, res.value)
    ensures Unambiguous(db.State()) ==> LinksOver(db.State(), ver, cv, sourceType, targetType, name, res)
  {
    hide LinkableBy, LinksOver, UniqueTypeNames, UniqueNames, UniqueAssociationNames, CatalogVersions.PinsDistinct;
    ghost var d := db.State();
    if s :| s in db.associations && OwnAssociation(db.associations, ver, name, s) {
      if Unambiguous(d) {
        OwnDecides(d, ver, cv, sourceType, targetType, name, s);
      }
      if db.associations[s].target != targetType {
        return Err(Rejected);
      }
      OwnIsLinkable(d, ver, cv, sourceType, targetType, name, s);
      return Ok(s);
    }
    if p :| p in db.pins && db.pins[p].cvId == cv && db.pins[p].versionId in db.versions
            && db.versions[db.pins[p].versionId].typeId == targetType {
      var other := db.pins[p].versionId;
      if s :| s in db.associations && OwnAssociation(db.associations, other, name, s) && db.associations[s].kind.Bidirectional? {
        if Unambiguous(d) {
          OtherDecides(d, ver, cv, sourceType, targetType, name, p, s);
        }
        if db.associations[s].target != sourceType {
          return Err(Rejected);
        }
        OtherIsLinkable(d, ver, cv, sourceType, targetType, name, p, s);
        return Ok(s);
      }
      if Unambiguous(d) {
        NoneDecides(d, ver, cv, sourceType, targetType, name, p);
      }
      return Err(NotFound);
    }
    UnpinnedDecides(d, ver, cv, sourceType, targetType, name);
    return Err(NotFound);
  }

  lemma OwnIsLinkable(d: Db, ver: Id, cv: Id, sourceType: Id, targetType: Id, name: string, s: Id)
    requires OwnAssociation(d.associations, ver, name, s) && d.associations[s].target == targetType
    ensures LinkableBy(d, ver, cv, sourceType, targetType, name, s)
  {
  }

  ghost predicate LinkAccepted(d: Db, catalogName: string, typeName: string, source: Id, target: Id, name: string,
                               c: Id, link: Link) {
    && c in d.catalogs && source in d.instances && target in d.instances
    && d.instances[source].catalogId == c && d.instances[target].catalogId == c
    && link.source == source && link.target == target
    && (forall l :: l in d.links ==> d.links[l] != link)
    && exists ver :: (
         && Resolves(d, catalogName, typeName, c, ver)
         && LinkableBy(d, ver, d.catalogs[c].cvId, d.instances[source].typeId, d.instances[target].typeId, name, link.assoc))
  }

  ghost predicate EndsInside(d: Db, c: Id, source: Id, target: Id) {
    && source in d.instances && target in d.instances
    && d.instances[source].catalogId == c && d.instances[target].catalogId == c
  }

  lemma LinkDecided(d: Db, catalogName: string, typeName: string, source: Id, target: Id, name: string,
                    found: Result<(Id, Id)>, assoc: Result<Id>, c: Id, link: Link)
    requires Decides(d, catalogName, typeName, found)
    requires found.Ok? && found.value.0 in d.catalogs && EndsInside(d, found.value.0, source, target) ==>
               LinksOver(d, found.value.1, d.catalogs[found.value.0].cvId, d.instances[source].typeId, d.instances[target].typeId,
                         name, assoc)
    ensures LinkAccepted(d, catalogName, typeName, source, target, name, c, link) <==>
              && found.Ok? && found.value.0 == c && c in d.catalogs && EndsInside(d, c, source, target)
              && assoc.Ok? && link == Link(assoc.value, source, target) && forall l :: l in d.links ==> d.links[l] != link
  {
    hide Resolves, LinkableBy;
  }

  /** The checks before a link is drawn, and the link they lead to. */
  method CheckLink(db: Store, catalogName: string, typeName: string, source: Id, target: Id, name: string)
    returns (res: Result<(Id, Link)>)
    ensures res.Ok? ==>
              && LinkAccepted(db.State(), catalogName, typeName, source, target, name, res.value.0, res.value.1)
              && res.value.1.source == source && res.value.1.target == target
              && res.value.1.assoc in db.associations && res.value.0 in db.catalogs
              && StepLinks(db.State(), res.value.0, res.value.1)
    ensures Unambiguous(db.State()) ==>
              forall c: Id, link :: LinkAccepted(db.State(), catalogName, typeName, source, target, name, c, link) <==> res == Ok((c, link))
  {
    hide Resolves, LinkableBy, LinkAccepted, Decides, Unambiguous, LinksOver;
    ghost var d := db.State();
    var found := ResolveEntityType(db, catalogName, typeName);
    if found.Ok? {
      ResolvedFacts(d, catalogName, typeName, found.value.0, found.value.1);
    }
    var assoc: Result<Id> := Err(NotFound);
    if found.Ok? && source in db.instances && target in db.instances
       && db.instances[source].catalogId == found.value.0 && db.instances[target].catalogId == found.value.0 {
      assoc := FindAssociation(db, found.value.1, db.catalogs[found.value.0].cvId, db.instances[source].typeId,
                               db.instances[target].typeId, name);
    }
    if Unambiguous(d) {
      forall c: Id, link
        ensures LinkAccepted(d, catalogName, typeName, source, target, name, c, link) <==>
                  && found.Ok? && found.value.0 == c && c in d.catalogs && EndsInside(d, c, source, target)
                  && assoc.Ok? && link == Link(assoc.value, source, target) && forall l :: l in d.links ==> d.links[l] != link
      {
        LinkDecided(d, catalogName, typeName, source, target, name, found, assoc, c, link);
      }
    }
    if found.Err? {
      return Err(found.error);
    }
    var cat, ver := found.value.0, found.value.1;
    if source !in db.instances || target !in db.instances {
      return Err(NotFound);
    }
    if db.instances[source].catalogId != cat || db.instances[target].catalogId != cat {
      return Err(Rejected);
    }
    if assoc.Err? {
      return Err(assoc.error);
    }
    var link := Link(assoc.value, source, target);
    if l :| l in db.links && db.links[l] == link {
      return Err(Conflict);
    }
    IntroLink(d, catalogName, typeName, source, target, name, cat, ver, link);
    return Ok((cat, link));
  }

  /** A link, and a bump of its ends. When lookups lead to one row, it is drawn exactly when the
      checks accept it. */
  method CreateAssociationLink(db: Store, catalogName: string, typeName: string, source: Id, target: Id, name: string)
    returns (res: Result<Id>, ghost c: Id, ghost steps: seq<DataStep>)
    requires DataInv(db.State())
    modifies db`instances, db`values, db`links, db`nextId, db`catalogs
    ensures res.Ok? ==>
              && res.value == old(db.nextId)
              && (exists link :: LinkAccepted(old(db.State()), catalogName, typeName, source, target, name, c, link)
                   && link.assoc in old(db.associations)
                   && steps == [AddLink(link)] + EndSteps(old(db.State()), source, target,
                                                          old(db.associations)[link.assoc].kind.Bidirectional?))
              && c in old(db.catalogs) && StepsAllowed(old(db.State()), c, steps)
              && db.State() == DataCall(old(db.State()), c, steps)
    ensures res.Ok? ==>
              && res.value in db.links && db.links == old(db.links)[res.value := Link(db.links[res.value].assoc, source, target)]
              && db.links[res.value].assoc in old(db.associations) && old(db.associations)[db.links[res.value].assoc].name == name
              && source in old(db.instances) && target in old(db.instances)
              && db.instances == AfterLink(old(db.instances), source, target,
                                           old(db.associations)[db.links[res.value].assoc].kind.Bidirectional?)
              && CarriedOn(old(db.instances), db.instances, old(db.values), db.values, {})
              && Drafted(old(db.catalogs), db.catalogs, c)
    ensures res.Err? ==> db.State() == old(db.State())
    ensures Unambiguous(old(db.State())) ==>
              (res.Ok? <==> exists k: Id, link :: LinkAccepted(old(db.State()), catalogName, typeName, source, target, name, k, link))
  {
    hide ApplySteps, StepAllowed, StepsAllowed, DataInv, Resolves, DataCall, LinkableBy, EditValues, LinkAccepted, EndSteps,
         Unambiguous, Drafted, AfterLink, CarriedOn;
    c, steps := 0, [];
    ghost var d := db.State();
    var checked := CheckLink(db, catalogName, typeName, source, target, name);
    if checked.Err? {
      return Err(checked.error), c, steps;
    }
    var cat, link := checked.value.0, checked.value.1;
    c := cat;
    var both := db.associations[link.assoc].kind.Bidirectional?;
    var id := db.nextId;
    db.links := db.links[id := link];
    db.nextId := id + 1;
    ghost var e := db.State();
    LinkAdded(d, e, c, link, both);
    steps := BumpEnds(db, cat, source, target, both);
    MoreSteps(d, c, AddLink(link), steps);
    steps := [AddLink(link)] + steps;
    db.catalogs := db.catalogs[cat := db.catalogs[cat].(status := Draft)];
    CallEnds(d, c, steps, db.State());
    LinkedTables(d, c, AddLink(link), source, target, both);
    LinkCarries(d, c, AddLink(link), source, target, both);
    AcceptedNames(d, catalogName, typeName, source, target, name, c, link);
    return Ok(id), c, steps;
  }

  lemma IntroLink(d: Db, catalogName: string, typeName: string, source: Id, target: Id, name: string,
                  c: Id, ver: Id, link: Link)
    requires c in d.catalogs && source in d.instances && target in d.instances
    requires d.instances[source].catalogId == c && d.instances[target].catalogId == c
    requires link.source == source && link.target == target
    requires !exists l :: l in d.links && d.links[l] == link
    requires Resolves(d, catalogName, typeName, c, ver)
    requires LinkableBy(d, ver, d.catalogs[c].cvId, d.instances[source].typeId, d.instances[target].typeId, name, link.assoc)
    ensures LinkAccepted(d, catalogName, typeName, source, target, name, c, link)
    ensures link.assoc in d.associations
  {
    hide Resolves;
  }

  /** The records after a link was drawn or deleted: the source one version on, and the target too
      when the association is bidirectional. */
  ghost function AfterLink(m: map<Id, Instance>, source: Id, target: Id, both: bool): map<Id, Instance>
    requires source in m && target in m
  {
    var n := m[source := NextRecord(m[source])];
    if both && target != source then n[target := NextRecord(m[target])] else n
  }

  lemma LinkedTables(d: Db, c: Id, s: DataStep, source: Id, target: Id, both: bool)
    requires c in d.catalogs && source in d.instances && target in d.instances && (s.AddLink? || s.DropLink?)
    ensures var e := DataCall(d, c, [s] + EndSteps(d, source, target, both));
            && e.instances == AfterLink(d.instances, source, target, both)
            && e.links == (if s.AddLink? then d.links[d.nextId := s.newLink] else d.links - {s.link})
            && Drafted(d.catalogs, e.catalogs, c)
  {
    hide Drafted, EditValues, ApplySteps;
    var v := ApplyStep(d, s);
    MoreSteps(d, c, s, EndSteps(d, source, target, both));
    var s1 := Revise(source, d.instances[source], Structural);
    if both && source != target {
      ReviseStepTables(v, source, d.instances[source]);
      ThenSavedTables(v, c, s1, target, d.instances[target]);
    } else {
      assert EndSteps(d, source, target, both) == [s1];
      RevisedTables(v, c, source, d.instances[source], Structural);
    }
  }

  lemma LinkCarries(d: Db, c: Id, s: DataStep, source: Id, target: Id, both: bool)
    requires source in d.instances && target in d.instances && (s.AddLink? || s.DropLink?)
    ensures var e := DataCall(d, c, [s] + EndSteps(d, source, target, both));
            CarriedOn(d.instances, e.instances, d.values, e.values, {})
  {
    hide CarriedOn, DataCall;
    CallCarries(d, c, [s] + EndSteps(d, source, target, both));
  }

  lemma AcceptedNames(d: Db, catalogName: string, typeName: string, source: Id, target: Id, name: string, c: Id, link: Link)
    requires LinkAccepted(d, catalogName, typeName, source, target, name, c, link)
    ensures link.source == source && link.target == target && source in d.instances && target in d.instances
    ensures link.assoc in d.associations && d.associations[link.assoc].name == name
  {
    hide Resolves;
  }

  lemma LinkAdded(d: Db, e: Db, c: Id, link: Link, both: bool)
    requires DataInv(d) && StepLinks(d, c, link)
    requires e == d.(links := d.links[d.nextId := link], nextId := d.nextId + 1)
    ensures e == ApplyStep(d, AddLink(link)) && StepAllowed(d, c, AddLink(link)) && DataInv(e)
    ensures EndSteps(e, link.source, link.target, both) == EndSteps(d, link.source, link.target, both)
  {
    hide DataInv;
    StepKeeps(d, c, AddLink(link));
  }

  ghost predicate StepLinks(d: Db, c: Id, link: Link) {
    && link.source in d.instances && link.target in d.instances
    && d.instances[link.source].catalogId == c && d.instances[link.target].catalogId == c
  }

  /** A link gone, and a bump of its ends. When lookups lead to one row, it is deleted exactly
      when it starts in the catalog and its association exists. */
  method DeleteAssociationLink(db: Store, catalogName: string, typeName: string, l: Id)
    returns (out: Outcome, ghost c: Id, ghost steps: seq<DataStep>)
    requires DataInv(db.State())
    modifies db`instances, db`values, db`links, db`catalogs
    ensures out.Pass? ==>
              && (exists ver :: Resolves(old(db.State()), catalogName, typeName, c, ver))
              && l in old(db.links) && StepLinks(old(db.State()), c, old(db.links)[l])
              && old(db.links)[l].assoc in old(db.associations)
              && steps == [DropLink(l)] + EndSteps(old(db.State()), old(db.links)[l].source, old(db.links)[l].target,
                                                   old(db.associations)[old(db.links)[l].assoc].kind.Bidirectional?)
              && c in old(db.catalogs) && StepsAllowed(old(db.State()), c, steps)
              && db.State() == DataCall(old(db.State()), c, steps)
    ensures out.Pass? ==>
              && l in old(db.links) && db.links == old(db.links) - {l}
              && old(db.links)[l].source in old(db.instances) && old(db.links)[l].target in old(db.instances)
              && old(db.links)[l].assoc in old(db.associations)
              && db.instances == AfterLink(old(db.instances), old(db.links)[l].source, old(db.links)[l].target,
                                           old(db.associations)[old(db.links)[l].assoc].kind.Bidirectional?)
              && CarriedOn(old(db.instances), db.instances, old(db.values), db.values, {})
              && Drafted(old(db.catalogs), db.catalogs, c)
    ensures out.Fail? ==> db.State() == old(db.State())
    ensures Unambiguous(old(db.State())) ==>
              (out.Pass? <==>
                 && l in old(db.links) && old(db.links)[l].source in old(db.instances) && old(db.links)[l].assoc in old(db.associations)
                 && exists ver :: Resolves(old(db.State()), catalogName, typeName, old(db.instances)[old(db.links)[l].source].catalogId, ver))
  {
    hide ApplySteps, StepAllowed, StepsAllowed, DataInv, Resolves, DataCall, EditValues, EndSteps, Unambiguous, Decides, Drafted,
         AfterLink, CarriedOn;
    c, steps := 0, [];
    ghost var d := db.State();
    var found := ResolveEntityType(db, catalogName, typeName);
    if l in d.links {
      LinkStaysInside(d, l);
      if Unambiguous(d) {
        PlaceDecided(d, catalogName, typeName, d.instances[d.links[l].source].catalogId, found);
      }
    }
    if found.Err? {
      return Fail(found.error), c, steps;
    }
    var cat := found.value.0;
    ResolvedFacts(d, catalogName, typeName, cat, found.value.1);
    c := cat;
    if l !in db.links || db.links[l].source !in db.instances {
      return Fail(NotFound), c, steps;
    }
    var link := db.links[l];
    if db.instances[link.source].catalogId != cat {
      return Fail(Rejected), c, steps;
    }
    if link.assoc !in db.associations || link.target !in db.instances {
      return Fail(NotFound), c, steps;
    }
    var both := db.associations[link.assoc].kind.Bidirectional?;
    LinkStaysInside(d, l);
    db.links := db.links - {l};
    LinkDropped(d, db.State(), c, l, both);
    steps := BumpEnds(db, cat, link.source, link.target, both);
    MoreSteps(d, c, DropLink(l), steps);
    steps := [DropLink(l)] + steps;
    db.catalogs := db.catalogs[cat := db.catalogs[cat].(status := Draft)];
    CallEnds(d, c, steps, db.State());
    LinkedTables(d, c, DropLink(l), link.source, link.target, both);
    LinkCarries(d, c, DropLink(l), link.source, link.target, both);
    return Pass, c, steps;
  }

  lemma LinkStaysInside(d: Db, l: Id)
    requires DataInv(d) && l in d.links
    ensures d.links[l].source in d.instances && d.links[l].target in d.instances
    ensures d.instances[d.links[l].source].catalogId == d.instances[d.links[l].target].catalogId
  {
    hide FreshData, FreshSchema, RowsWithin, ParentsInside, UniqueScopes;
  }

  lemma LinkDropped(d: Db, e: Db, c: Id, l: Id, both: bool)
    requires DataInv(d) && l in d.links && StepLinks(d, c, d.links[l])
    requires e == d.(links := d.links - {l})
    ensures e == ApplyStep(d, DropLink(l)) && StepAllowed(d, c, DropLink(l)) && DataInv(e)
    ensures EndSteps(e, d.links[l].source, d.links[l].target, both)
         == EndSteps(d, d.links[l].source, d.links[l].target, both)
  {
    hide DataInv;
    StepKeeps(d, c, DropLink(l));
  }
}
