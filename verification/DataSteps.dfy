/** The row-level steps the instance calls are made of, what they keep, and why a catalog
    marked valid cannot be affected by work done in another one. */
module DataSteps {
  import opened Domain
  import opened Database
  import opened Conformance
  import opened Revisions

  // ---- invariants of the data tables ----

  ghost predicate FreshData(d: Db) {
    && (forall c :: c in d.catalogs ==> c < d.nextId)
    && (forall i :: i in d.instances ==> i < d.nextId && d.instances[i].catalogId < d.nextId)
    && (forall k :: k in d.values ==> k.inst < d.nextId)
    && (forall l :: l in d.links ==> l < d.nextId)
  }

  ghost predicate FreshSchema(d: Db) {
    && (forall p :: p in d.pins ==> p < d.nextId && d.pins[p].cvId < d.nextId)
    && (forall v :: v in d.versionSets ==> v < d.nextId)
    && (forall t :: t in d.types ==> t < d.nextId)
    && (forall v :: v in d.versions ==> v < d.nextId && d.versions[v].typeId < d.nextId)
    && (forall a :: a in d.attributes ==> a < d.nextId && d.attributes[a].versionId < d.nextId)
    && (forall s :: s in d.associations ==> s < d.nextId && d.associations[s].versionId < d.nextId)
  }

  /** Every id in use is below the counter. */
  ghost predicate FreshIds(d: Db) {
    FreshData(d) && FreshSchema(d)
  }

  /** No attribute row lies beyond its instance's current version. */
  ghost predicate RowsWithin(d: Db) {
    forall k :: k in d.values && k.inst in d.instances ==> k.ver <= d.instances[k.inst].version
  }

  /** Links join two existing instances of one catalog. */
  ghost predicate LinksInside(d: Db) {
    forall l :: l in d.links ==>
      && d.links[l].source in d.instances && d.links[l].target in d.instances
      && d.instances[d.links[l].source].catalogId == d.instances[d.links[l].target].catalogId
  }

  /** A parent that exists is in its child's catalog. */
  ghost predicate ParentsInside(d: Db) {
    forall i {:trigger ParentInside(d, i)} :: i in d.instances ==> ParentInside(d, i)
  }

  ghost predicate ParentInside(d: Db, i: Id)
    requires i in d.instances
  {
    match d.instances[i].parent
    case None => true
    case Some(p) => p < d.nextId && (p in d.instances ==> d.instances[p].catalogId == d.instances[i].catalogId)
  }

  /** The unique index on entity type, catalog, parent and name. */
  ghost predicate UniqueScopes(d: Db) {
    forall i, j {:trigger SameScope(d.instances[i], d.instances[j])} ::
      i in d.instances && j in d.instances && SameScope(d.instances[i], d.instances[j]) ==> i == j
  }

  predicate SameScope(x: Instance, y: Instance) {
    x.typeId == y.typeId && x.catalogId == y.catalogId && x.parent == y.parent && x.name == y.name
  }

  ghost predicate DataInv(d: Db) {
    FreshIds(d) && RowsWithin(d) && LinksInside(d) && ParentsInside(d) && UniqueScopes(d)
  }

  // ---- steps ----

  datatype DataStep =
    | Insert(row: Instance, rows: map<Id, Value>)
    | Revise(inst: Id, to: Instance, edit: Edit)
    | AddLink(newLink: Link)
    | DropLink(link: Id)
    | Remove(gone: set<Id>)

  function ApplyStep(d: Db, s: DataStep): Db {
    match s
    case Insert(row, rows) =>
      d.(instances := d.instances[d.nextId := row],
         values := WithRows(d.values, d.nextId, row.version, rows),
         nextId := d.nextId + 1)
    case Revise(i, to, edit) =>
      if i !in d.instances then d
      else
        var ver := d.instances[i].version;
        d.(instances := d.instances[i := to.(version := ver + 1)],
           values := EditValues(d.values, i, ver, edit))
    case AddLink(link) => d.(links := d.links[d.nextId := link], nextId := d.nextId + 1)
    case DropLink(l) => d.(links := d.links - {l})
    case Remove(gone) =>
      d.(instances := d.instances - gone,
         links := map l | l in d.links && d.links[l].source !in gone && d.links[l].target !in gone :: d.links[l])
  }

  function ApplySteps(d: Db, steps: seq<DataStep>): Db
    decreases |steps|
  {
    if steps == [] then d else ApplySteps(ApplyStep(d, steps[0]), steps[1..])
  }

  ghost predicate ParentAllowed(d: Db, c: Id, parent: Option<Id>) {
    parent.Some? ==> parent.value in d.instances && d.instances[parent.value].catalogId == c
  }

  /** What the services check before a step on catalog "c". A revised instance keeps its
      catalog, and its parent unless the new one is in the catalog too. */
  ghost predicate StepAllowed(d: Db, c: Id, s: DataStep) {
    match s
    case Insert(row, _) =>
      && row.catalogId == c && c < d.nextId && ParentAllowed(d, c, row.parent)
      && forall j :: j in d.instances ==> !SameScope(d.instances[j], row)
    case Revise(i, to, _) =>
      && i in d.instances && d.instances[i].catalogId == c && to.catalogId == c
      && (to.parent == d.instances[i].parent || ParentAllowed(d, c, to.parent))
      && forall j :: j in d.instances && j != i ==> !SameScope(d.instances[j], to)
    case AddLink(link) =>
      && link.source in d.instances && link.target in d.instances
      && d.instances[link.source].catalogId == c && d.instances[link.target].catalogId == c
    case DropLink(l) =>
      l in d.links && d.links[l].source in d.instances && d.instances[d.links[l].source].catalogId == c
    case Remove(gone) => forall i :: i in gone && i in d.instances ==> d.instances[i].catalogId == c
  }

  ghost predicate StepsAllowed(d: Db, c: Id, steps: seq<DataStep>)
    decreases |steps|
  {
    steps == [] || (StepAllowed(d, c, steps[0]) && StepsAllowed(ApplyStep(d, steps[0]), c, steps[1..]))
  }

  // ---- other catalogs ----

  /** Nothing a catalog other than "c" can see has changed. */
  ghost predicate Elsewhere(d: Db, e: Db, c: Id) {
    && e.catalogs == d.catalogs && e.versionSets == d.versionSets && e.pins == d.pins && e.log == d.log
    && e.types == d.types && e.versions == d.versions && e.attributes == d.attributes
    && e.associations == d.associations && e.typeDefs == d.typeDefs && e.resources == d.resources
    && d.nextId <= e.nextId
    && (forall k :: k != c ==> MembersOf(d, k) == MembersOf(e, k))
    && (forall k :: k != c ==> CurrentRows(d, k) == CurrentRows(e, k))
    && (forall k :: k != c ==> LinksTouching(d, k) == LinksTouching(e, k))
  }

  lemma ElsewhereTransitive(d: Db, e: Db, f: Db, c: Id)
    requires Elsewhere(d, e, c) && Elsewhere(e, f, c)
    ensures Elsewhere(d, f, c)
  {
    hide MembersOf, CurrentRows, LinksTouching;
  }

  lemma ElsewhereKeepsViews(d: Db, e: Db, c: Id, k: Id)
    requires Elsewhere(d, e, c) && k in d.catalogs && k != c
    ensures ViewOf(d, k) == ViewOf(e, k)
  {
    hide MembersOf, CurrentRows, LinksTouching;
  }

  lemma EditLeavesOthers(values: Rows, i: Id, ver: nat, e: Edit, k: RowKey)
    requires k.inst != i
    ensures k in EditValues(values, i, ver, e) <==> k in values
    ensures k in values ==> EditValues(values, i, ver, e)[k] == values[k]
  {
  }

  lemma EditStaysBelow(values: Rows, i: Id, ver: nat, e: Edit, k: RowKey)
    requires k in EditValues(values, i, ver, e) && NoRowsBeyond(values, i, ver)
    ensures k.inst == i ==> k.ver <= ver + 1
    ensures k in values || k.inst == i
  {
  }

  ghost predicate SameElsewhere(d: Db, e: Db, c: Id) {
    && (forall i :: i in d.instances && d.instances[i].catalogId != c ==>
          i in e.instances && e.instances[i] == d.instances[i])
    && (forall i :: i in e.instances && e.instances[i].catalogId != c ==>
          i in d.instances && d.instances[i] == e.instances[i])
  }

  ghost predicate SameRowsElsewhere(d: Db, e: Db, c: Id) {
    forall key: RowKey :: key.inst in d.instances && d.instances[key.inst].catalogId != c ==>
      (key in d.values <==> key in e.values) && (key in d.values ==> d.values[key] == e.values[key])
  }

  /** Views elsewhere agree when the rows elsewhere do. */
  lemma FrameOfMembers(d: Db, e: Db, c: Id, k: Id)
    requires SameElsewhere(d, e, c) && k != c
    ensures MembersOf(d, k) == MembersOf(e, k)
  {
  }

  lemma FrameOfRows(d: Db, e: Db, c: Id, k: Id)
    requires SameElsewhere(d, e, c) && k != c
    requires SameRowsElsewhere(d, e, c)
    ensures CurrentRows(d, k) == CurrentRows(e, k)
  {
  }

  lemma FrameOfLinks(d: Db, e: Db, c: Id, k: Id)
    requires SameElsewhere(d, e, c) && k != c
    requires forall l :: l in d.links && TouchesCatalog(d, k, d.links[l]) ==> l in e.links && e.links[l] == d.links[l]
    requires forall l :: l in e.links && TouchesCatalog(e, k, e.links[l]) ==> l in d.links && d.links[l] == e.links[l]
    ensures LinksTouching(d, k) == LinksTouching(e, k)
  {
    forall link
      ensures TouchesCatalog(d, k, link) <==> TouchesCatalog(e, k, link)
    {
    }
  }

  /** The frame of a step that leaves the links alone. */
  lemma FrameOfData(d: Db, e: Db, c: Id)
    requires SameElsewhere(d, e, c) && e.links == d.links
    requires SameRowsElsewhere(d, e, c)
    ensures forall k :: k != c ==>
              && MembersOf(d, k) == MembersOf(e, k) && CurrentRows(d, k) == CurrentRows(e, k)
              && LinksTouching(d, k) == LinksTouching(e, k)
  {
    forall k | k != c
      ensures MembersOf(d, k) == MembersOf(e, k) && CurrentRows(d, k) == CurrentRows(e, k)
      ensures LinksTouching(d, k) == LinksTouching(e, k)
    {
      hide MembersOf, CurrentRows, LinksTouching;
      FrameOfMembers(d, e, c, k);
      FrameOfRows(d, e, c, k);
      FrameOfTouch(d, e, c, k);
      FrameOfLinks(d, e, c, k);
    }
  }

  lemma FrameOfTouch(d: Db, e: Db, c: Id, k: Id)
    requires SameElsewhere(d, e, c) && k != c
    ensures forall link :: TouchesCatalog(d, k, link) <==> TouchesCatalog(e, k, link)
  {
  }

  /** What an insertion does to the rows. */
  lemma InsertValues(d: Db, row: Instance, rows: map<Id, Value>)
    requires FreshData(d)
    ensures var e := ApplyStep(d, Insert(row, rows));
            && (forall k :: k in e.values ==> k in d.values || (k.inst == d.nextId && k.ver == row.version))
            && (forall k: RowKey :: k.inst in d.instances ==> (k in e.values <==> k in d.values))
            && (forall k: RowKey :: k.inst in d.instances && k in d.values ==> e.values[k] == d.values[k])
  {
  }

  lemma InsertSameElsewhere(d: Db, c: Id, row: Instance, rows: map<Id, Value>)
    requires FreshData(d) && row.catalogId == c
    ensures SameElsewhere(d, ApplyStep(d, Insert(row, rows)), c)
    ensures SameRowsElsewhere(d, ApplyStep(d, Insert(row, rows)), c)
  {
    hide WithRows;
    InsertValues(d, row, rows);
  }

  lemma InsertElsewhere(d: Db, c: Id, row: Instance, rows: map<Id, Value>)
    requires FreshData(d) && row.catalogId == c
    ensures Elsewhere(d, ApplyStep(d, Insert(row, rows)), c)
  {
    hide WithRows, MembersOf, CurrentRows, LinksTouching, SameElsewhere, SameRowsElsewhere, FreshData;
    InsertSameElsewhere(d, c, row, rows);
    FrameOfData(d, ApplyStep(d, Insert(row, rows)), c);
  }

  lemma InsertIds(d: Db, c: Id, row: Instance, rows: map<Id, Value>)
    requires FreshData(d) && c < d.nextId && row.catalogId == c
    ensures FreshData(ApplyStep(d, Insert(row, rows)))
  {
    InsertValues(d, row, rows);
    hide WithRows;
  }

  lemma InsertRowsWithin(d: Db, row: Instance, rows: map<Id, Value>)
    requires FreshData(d) && RowsWithin(d)
    ensures RowsWithin(ApplyStep(d, Insert(row, rows)))
  {
    InsertValues(d, row, rows);
    hide WithRows;
  }

  lemma InsertLinks(d: Db, row: Instance, rows: map<Id, Value>)
    requires FreshData(d) && LinksInside(d)
    ensures LinksInside(ApplyStep(d, Insert(row, rows)))
  {
    hide WithRows;
  }

  lemma InsertParents(d: Db, c: Id, row: Instance, rows: map<Id, Value>)
    requires FreshData(d) && ParentsInside(d) && row.catalogId == c && ParentAllowed(d, c, row.parent)
    ensures ParentsInside(ApplyStep(d, Insert(row, rows)))
  {
    hide WithRows;
    var e := ApplyStep(d, Insert(row, rows));
    forall j | j in e.instances
      ensures ParentInside(e, j)
    {
      assert j in d.instances ==> ParentInside(d, j);
    }
  }

  lemma InsertScopes(d: Db, row: Instance, rows: map<Id, Value>)
    requires UniqueScopes(d) && forall j :: j in d.instances ==> !SameScope(d.instances[j], row)
    ensures UniqueScopes(ApplyStep(d, Insert(row, rows)))
  {
    hide WithRows;
  }

  lemma InsertKeeps(d: Db, c: Id, row: Instance, rows: map<Id, Value>)
    requires DataInv(d) && StepAllowed(d, c, Insert(row, rows))
    ensures DataInv(ApplyStep(d, Insert(row, rows)))
    ensures Elsewhere(d, ApplyStep(d, Insert(row, rows)), c)
  {
    hide FreshData, FreshSchema, RowsWithin, LinksInside, ParentsInside, UniqueScopes, Elsewhere, ApplyStep;
    SchemaStaysFresh(d, Insert(row, rows));
    InsertIds(d, c, row, rows);
    InsertRowsWithin(d, row, rows);
    InsertLinks(d, row, rows);
    InsertParents(d, c, row, rows);
    InsertScopes(d, row, rows);
    InsertElsewhere(d, c, row, rows);
  }

  lemma SchemaStaysFresh(d: Db, s: DataStep)
    requires FreshSchema(d)
    ensures FreshSchema(ApplyStep(d, s))
  {
    hide WithRows, EditValues;
  }

  lemma ReviseValues(d: Db, i: Id, to: Instance, edit: Edit)
    requires RowsWithin(d) && i in d.instances
    ensures var e := ApplyStep(d, Revise(i, to, edit));
            && (forall k :: k in e.values ==> k in d.values || k.inst == i)
            && (forall k :: k in e.values && k.inst == i ==> k.ver <= d.instances[i].version + 1)
            && (forall k: RowKey :: k.inst != i ==> (k in e.values <==> k in d.values))
            && (forall k: RowKey :: k.inst != i && k in d.values ==> e.values[k] == d.values[k])
  {
    var e := ApplyStep(d, Revise(i, to, edit));
    var ver := d.instances[i].version;
    assert NoRowsBeyond(d.values, i, ver);
    hide EditValues;
    forall k | k in e.values
      ensures k in d.values || k.inst == i
      ensures k.inst == i ==> k.ver <= ver + 1
    {
      EditStaysBelow(d.values, i, ver, edit, k);
    }
    forall k: RowKey | k.inst != i
      ensures k in e.values <==> k in d.values
      ensures k in d.values ==> e.values[k] == d.values[k]
    {
      EditLeavesOthers(d.values, i, ver, edit, k);
    }
  }

  lemma ReviseElsewhere(d: Db, c: Id, i: Id, to: Instance, edit: Edit)
    requires RowsWithin(d) && i in d.instances && d.instances[i].catalogId == c && to.catalogId == c
    ensures Elsewhere(d, ApplyStep(d, Revise(i, to, edit)), c)
  {
    hide EditValues, MembersOf, CurrentRows, LinksTouching, RowsWithin;
    ReviseValues(d, i, to, edit);
    FrameOfData(d, ApplyStep(d, Revise(i, to, edit)), c);
  }

  lemma ReviseIds(d: Db, i: Id, to: Instance, edit: Edit)
    requires FreshData(d) && RowsWithin(d) && i in d.instances && to.catalogId == d.instances[i].catalogId
    ensures FreshData(ApplyStep(d, Revise(i, to, edit)))
  {
    hide EditValues, RowsWithin;
    ReviseValues(d, i, to, edit);
  }

  lemma ReviseRowsWithin(d: Db, i: Id, to: Instance, edit: Edit)
    requires RowsWithin(d) && i in d.instances
    ensures RowsWithin(ApplyStep(d, Revise(i, to, edit)))
  {
    hide EditValues;
    ReviseValues(d, i, to, edit);
  }

  lemma ReviseLinks(d: Db, i: Id, to: Instance, edit: Edit)
    requires LinksInside(d) && i in d.instances && to.catalogId == d.instances[i].catalogId
    ensures LinksInside(ApplyStep(d, Revise(i, to, edit)))
  {
    hide EditValues;
  }

  lemma ReviseParents(d: Db, c: Id, i: Id, to: Instance, edit: Edit)
    requires FreshData(d) && ParentsInside(d) && i in d.instances
    requires d.instances[i].catalogId == c && to.catalogId == c
    requires to.parent == d.instances[i].parent || ParentAllowed(d, c, to.parent)
    ensures ParentsInside(ApplyStep(d, Revise(i, to, edit)))
  {
    hide EditValues;
    var e := ApplyStep(d, Revise(i, to, edit));
    forall j | j in e.instances
      ensures ParentInside(e, j)
    {
      assert ParentInside(d, j);
    }
  }

  lemma ReviseScopes(d: Db, i: Id, to: Instance, edit: Edit)
    requires UniqueScopes(d) && i in d.instances
    requires forall j :: j in d.instances && j != i ==> !SameScope(d.instances[j], to)
    ensures UniqueScopes(ApplyStep(d, Revise(i, to, edit)))
  {
    hide EditValues;
  }

  lemma ReviseKeeps(d: Db, c: Id, i: Id, to: Instance, edit: Edit)
    requires DataInv(d) && StepAllowed(d, c, Revise(i, to, edit))
    ensures DataInv(ApplyStep(d, Revise(i, to, edit)))
    ensures Elsewhere(d, ApplyStep(d, Revise(i, to, edit)), c)
  {
    hide FreshData, FreshSchema, RowsWithin, LinksInside, ParentsInside, UniqueScopes, Elsewhere, ApplyStep;
    SchemaStaysFresh(d, Revise(i, to, edit));
    ReviseIds(d, i, to, edit);
    ReviseRowsWithin(d, i, to, edit);
    ReviseLinks(d, i, to, edit);
    ReviseParents(d, c, i, to, edit);
    ReviseScopes(d, i, to, edit);
    ReviseElsewhere(d, c, i, to, edit);
  }

  lemma LinkStepKeeps(d: Db, c: Id, s: DataStep)
    requires s.AddLink? || s.DropLink?
    requires DataInv(d) && StepAllowed(d, c, s)
    ensures DataInv(ApplyStep(d, s))
    ensures Elsewhere(d, ApplyStep(d, s), c)
  {
    hide FreshSchema, ParentsInside, Elsewhere;
    SchemaStaysFresh(d, s);
    LinkStepElsewhere(d, c, s);
    LinkStepParents(d, s);
  }

  lemma LinkStepParents(d: Db, s: DataStep)
    requires s.AddLink? || s.DropLink?
    requires ParentsInside(d)
    ensures ParentsInside(ApplyStep(d, s))
  {
    var e := ApplyStep(d, s);
    forall j | j in e.instances
      ensures ParentInside(e, j)
    {
      assert ParentInside(d, j);
    }
  }

  lemma LinkStepElsewhere(d: Db, c: Id, s: DataStep)
    requires s.AddLink? || s.DropLink?
    requires FreshData(d) && LinksInside(d) && StepAllowed(d, c, s)
    ensures Elsewhere(d, ApplyStep(d, s), c)
  {
    var e := ApplyStep(d, s);
    assert SameElsewhere(d, e, c);
    forall k | k != c
      ensures LinksTouching(d, k) == LinksTouching(e, k)
      ensures MembersOf(d, k) == MembersOf(e, k) && CurrentRows(d, k) == CurrentRows(e, k)
    {
      hide MembersOf, CurrentRows, LinksTouching;
      FrameOfMembers(d, e, c, k);
      FrameOfRows(d, e, c, k);
      FrameOfTouch(d, e, c, k);
      FrameOfLinks(d, e, c, k);
    }
  }

  lemma RemoveElsewhere(d: Db, c: Id, gone: set<Id>)
    requires DataInv(d) && StepAllowed(d, c, Remove(gone))
    ensures Elsewhere(d, ApplyStep(d, Remove(gone)), c)
  {
    var e := ApplyStep(d, Remove(gone));
    assert SameElsewhere(d, e, c);
    forall k | k != c
      ensures MembersOf(d, k) == MembersOf(e, k) && CurrentRows(d, k) == CurrentRows(e, k)
      ensures LinksTouching(d, k) == LinksTouching(e, k)
    {
      hide MembersOf, CurrentRows, LinksTouching;
      FrameOfMembers(d, e, c, k);
      FrameOfRows(d, e, c, k);
      FrameOfLinks(d, e, c, k);
    }
  }

  lemma RemoveInv(d: Db, c: Id, gone: set<Id>)
    requires DataInv(d) && StepAllowed(d, c, Remove(gone))
    ensures DataInv(ApplyStep(d, Remove(gone)))
  {
    var e := ApplyStep(d, Remove(gone));
    forall j | j in e.instances
      ensures ParentInside(e, j)
    {
      assert ParentInside(d, j);
    }
  }

  lemma StepKeeps(d: Db, c: Id, s: DataStep)
    requires DataInv(d) && StepAllowed(d, c, s)
    ensures DataInv(ApplyStep(d, s)) && Elsewhere(d, ApplyStep(d, s), c)
  {
    hide DataInv, StepAllowed, Elsewhere, ApplyStep;
    match s
    case Insert(row, rows) => InsertKeeps(d, c, row, rows);
    case Revise(i, to, edit) => ReviseKeeps(d, c, i, to, edit);
    case AddLink(_) => LinkStepKeeps(d, c, s);
    case DropLink(_) => LinkStepKeeps(d, c, s);
    case Remove(gone) =>
      RemoveInv(d, c, gone);
      RemoveElsewhere(d, c, gone);
  }

  /** Any allowed sequence of steps on one catalog keeps the data invariants and is
      invisible from every other catalog. */
  lemma {:induction false} StepsKeep(d: Db, c: Id, steps: seq<DataStep>)
    requires DataInv(d) && StepsAllowed(d, c, steps)
    ensures DataInv(ApplySteps(d, steps)) && Elsewhere(d, ApplySteps(d, steps), c)
    decreases |steps|
  {
    hide DataInv, Elsewhere, ApplyStep, StepAllowed;
    if steps == [] {
      ElsewhereSelf(d, c);
    } else {
      StepKeeps(d, c, steps[0]);
      StepsKeep(ApplyStep(d, steps[0]), c, steps[1..]);
      ElsewhereTransitive(d, ApplyStep(d, steps[0]), ApplySteps(d, steps), c);
    }
  }

  lemma ElsewhereSelf(d: Db, c: Id)
    ensures Elsewhere(d, d, c)
  {
  }

  // ---- work on one catalog ----

  /** Allowed steps on one catalog lead from one store to the other. */
  ghost predicate Worked(d: Db, e: Db, c: Id) {
    exists steps :: StepsAllowed(d, c, steps) && ApplySteps(d, steps) == e
  }

  lemma NotWorked(d: Db, c: Id)
    ensures Worked(d, d, c)
  {
    assert StepsAllowed(d, c, []) && ApplySteps(d, []) == d;
  }

  lemma WorkedOnce(d: Db, c: Id, s: DataStep)
    requires StepAllowed(d, c, s)
    ensures Worked(d, ApplyStep(d, s), c)
  {
    hide StepAllowed, ApplyStep;
    var e := ApplyStep(d, s);
    assert [s][1..] == [];
    assert StepsAllowed(e, c, []) && ApplySteps(e, []) == e;
    assert StepsAllowed(d, c, [s]) && ApplySteps(d, [s]) == e;
  }

  lemma {:induction false} StepsAfter(d: Db, c: Id, first: seq<DataStep>, second: seq<DataStep>)
    requires StepsAllowed(d, c, first) && StepsAllowed(ApplySteps(d, first), c, second)
    ensures StepsAllowed(d, c, first + second)
    ensures ApplySteps(d, first + second) == ApplySteps(ApplySteps(d, first), second)
    decreases |first|
  {
    hide StepAllowed, ApplyStep;
    if first == [] {
      assert first + second == second;
    } else {
      StepsAfter(ApplyStep(d, first[0]), c, first[1..], second);
      assert (first + second)[1..] == first[1..] + second;
    }
  }

  lemma WorkedTwice(d: Db, v: Db, e: Db, c: Id)
    requires Worked(d, v, c) && Worked(v, e, c)
    ensures Worked(d, e, c)
  {
    var first :| StepsAllowed(d, c, first) && ApplySteps(d, first) == v;
    var second :| StepsAllowed(v, c, second) && ApplySteps(v, second) == e;
    StepsAfter(d, c, first, second);
  }
}
