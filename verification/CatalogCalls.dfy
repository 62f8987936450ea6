/** The catalog service: create, delete, publish, unpublish, edit and replace. "cluster" says
    whether the cluster answers during the call. */
module CatalogCalls {
  import opened Domain
  import opened Database
  import opened Conformance
  import opened DataSteps
  import opened Containment
  import opened Catalogs
  import opened Partition

  method CreateCatalog(db: Store, name: string, description: string, cv: Id) returns (res: Result<Id>)
    modifies db`catalogs, db`nextId
    ensures res.Ok? <==> IsDnsLabel(name) && cv in old(db.versionSets) && NameFree(old(db.catalogs), name)
    ensures res.Ok? ==>
              && res.value == old(db.nextId)
              && CatalogStepAllowed(old(db.State()), NewCatalog(Catalog(name, description, cv, Draft, false)))
              && db.State() == ApplyCatalogStep(old(db.State()), NewCatalog(Catalog(name, description, cv, Draft, false)))
    ensures res.Err? ==> db.State() == old(db.State())
  {
    if !IsDnsLabel(name) {
      return Err(Rejected);
    }
    if cv !in db.versionSets {
      return Err(NotFound);
    }
    var taken := FindCatalog(db.catalogs, name);
    if taken.Some? {
      return Err(Conflict);
    }
    var c := db.nextId;
    db.catalogs := db.catalogs[c := Catalog(name, description, cv, Draft, false)];
    db.nextId := c + 1;
    return Ok(c);
  }

  // ---- delete ----

  /** Links and rows instance by instance. */
  method DeleteContents(db: Store, members: set<Id>)
    modifies db`links, db`values
    ensures db.links == WithoutLinksTo(old(db.links), members)
    ensures db.values == WithoutInstances(old(db.values), members)
  {
    hide WithoutLinksTo, WithoutInstances;
    var todo := members;
    ghost var done: set<Id> := {};
    NothingDeleted(db.links, db.values, members);
    while todo != {}
      invariant Split(done, todo, members)
      invariant db.links == WithoutLinksTo(old(db.links), done)
      invariant db.values == WithoutInstances(old(db.values), done)
      decreases todo
    {
      var i :| i in todo;
      OneMoreDeleted(old(db.links), old(db.values), done, todo, members, i);
      db.links := WithoutLinksTo(db.links, {i});
      db.values := WithoutInstances(db.values, {i});
      todo, done := todo - {i}, done + {i};
    }
    assert done == members;
  }

  lemma NothingDeleted(links: map<Id, Link>, values: map<RowKey, Value>, all: set<Id>)
    ensures Split({}, all, all) && WithoutLinksTo(links, {}) == links && WithoutInstances(values, {}) == values
  {
  }

  lemma OneMoreDeleted(links: map<Id, Link>, values: map<RowKey, Value>, done: set<Id>, todo: set<Id>, all: set<Id>, i: Id)
    requires Split(done, todo, all) && i in todo
    ensures Split(done + {i}, todo - {i}, all)
    ensures WithoutLinksTo(WithoutLinksTo(links, done), {i}) == WithoutLinksTo(links, done + {i})
    ensures WithoutInstances(WithoutInstances(values, done), {i}) == WithoutInstances(values, done + {i})
  {
  }

  method DeleteMembers(db: Store, c: Id) returns (ghost members: set<Id>)
    modifies db`instances, db`links, db`values
    ensures members == set i | i in old(db.instances) && old(db.instances)[i].catalogId == c
    ensures db.instances == old(db.instances) - members
    ensures db.links == WithoutLinksTo(old(db.links), members) && db.values == WithoutInstances(old(db.values), members)
  {
    hide WithoutLinksTo, WithoutInstances;
    var all := set i | i in db.instances && db.instances[i].catalogId == c;
    DeleteContents(db, all);
    db.instances := db.instances - all;
    members := all;
  }

  ghost predicate InCatalog(instances: map<Id, Instance>, c: Id, i: Id) {
    i in instances && instances[i].catalogId == c
  }

  /** The instances of the catalog are gone, the others as they were. */
  ghost predicate InstancesGone(before: map<Id, Instance>, after: map<Id, Instance>, c: Id) {
    && (forall i :: i in after <==> i in before && before[i].catalogId != c)
    && forall i :: i in after && i in before ==> after[i] == before[i]
  }

  /** So are the attribute rows of its instances, at every version; the other rows are as they were. */
  ghost predicate RowsGone(instances: map<Id, Instance>, before: map<RowKey, Value>, after: map<RowKey, Value>, c: Id) {
    && (forall k :: k in after <==> k in before && !InCatalog(instances, c, k.inst))
    && forall k :: k in after && k in before ==> after[k] == before[k]
  }

  /** And the links that started or ended at one of them. */
  ghost predicate LinksGone(instances: map<Id, Instance>, before: map<Id, Link>, after: map<Id, Link>, c: Id) {
    && (forall l :: l in after <==>
          l in before && !InCatalog(instances, c, before[l].source) && !InCatalog(instances, c, before[l].target))
    && forall l :: l in after && l in before ==> after[l] == before[l]
  }

  lemma AllGone(d: Db, c: Id, members: set<Id>)
    requires members == set i | i in d.instances && d.instances[i].catalogId == c
    ensures InstancesGone(d.instances, d.instances - members, c)
    ensures RowsGone(d.instances, d.values, WithoutInstances(d.values, members), c)
    ensures LinksGone(d.instances, d.links, WithoutLinksTo(d.links, members), c)
  {
  }

  /** The resource goes first; if the cluster does not answer, nothing else does. */
  method Delete(db: Store, name: string, cluster: bool) returns (out: Outcome, ghost c: Id)
    requires UniqueNames(db.catalogs)
    modifies db`catalogs, db`instances, db`values, db`links, db`resources
    ensures out.Pass? <==> !NameFree(old(db.catalogs), name)
                           && (cluster || forall k :: k in old(db.catalogs) && old(db.catalogs)[k].name == name ==>
                                                        !old(db.catalogs)[k].published)
    ensures out.Pass? ==>
              && c in old(db.catalogs) && old(db.catalogs)[c].name == name
              && db.State() == ApplyCatalogStep(old(db.State()), Destroy(c))
    ensures out.Pass? ==>
              && c in old(db.catalogs) && db.catalogs == old(db.catalogs) - {c}
              && db.resources == (if old(db.catalogs)[c].published then old(db.resources) - {name} else old(db.resources))
              && InstancesGone(old(db.instances), db.instances, c) && RowsGone(old(db.instances), old(db.values), db.values, c)
              && LinksGone(old(db.instances), old(db.links), db.links, c)
    ensures out.Fail? ==> db.State() == old(db.State())
  {
    hide WithoutLinksTo, WithoutInstances, UniqueNames, ApplyCatalogStep, NameFree, InstancesGone, RowsGone, LinksGone;
    FreeMeans(db.catalogs, name);
    c := 0;
    ghost var d := db.State();
    var found := FindCatalog(db.catalogs, name);
    if found.None? {
      return Fail(NotFound), c;
    }
    c := found.value;
    var cat := db.catalogs[found.value];
    SameName(db.catalogs, c, name);
    if cat.published && !cluster {
      return Fail(Integrity), c;
    }
    if cat.published {
      db.resources := db.resources - {cat.name};
    }
    ghost var members := DeleteMembers(db, found.value);
    AllGone(d, c, members);
    db.catalogs := db.catalogs - {found.value};
    DestroyIsStep(d, db.State(), c, members);
    return Pass, c;
  }

  lemma FreeMeans(catalogs: CatalogTable, name: string)
    ensures NameFree(catalogs, name) <==> forall c :: c in catalogs ==> catalogs[c].name != name
  {
  }

  lemma DestroyIsStep(d: Db, e: Db, c: Id, members: set<Id>)
    requires c in d.catalogs && members == set i | i in d.instances && d.instances[i].catalogId == c
    requires SchemaSame(d, e) && e.nextId == d.nextId
    requires e.catalogs == d.catalogs - {c} && e.instances == d.instances - members
    requires e.links == WithoutLinksTo(d.links, members) && e.values == WithoutInstances(d.values, members)
    requires e.resources == if d.catalogs[c].published then d.resources - {d.catalogs[c].name} else d.resources
    ensures e == ApplyCatalogStep(d, Destroy(c))
  {
    hide WithoutLinksTo, WithoutInstances;
    assert members == MemberIds(d, c);
  }

  lemma SameName(catalogs: CatalogTable, c: Id, name: string)
    requires UniqueNames(catalogs) && c in catalogs && catalogs[c].name == name
    ensures forall k :: k in catalogs && catalogs[k].name == name ==> k == c
  {
  }

  // ---- publication ----

  /** Publishing again does nothing. If the resource cannot be written the catalog is
      unpublished again. */
  method Publish(db: Store, name: string, cluster: bool) returns (out: Outcome, ghost c: Id)
    requires UniqueNames(db.catalogs)
    modifies db`catalogs, db`resources
    ensures out.Pass? ==> c in old(db.catalogs) && old(db.catalogs)[c].name == name
                          && (old(db.catalogs)[c].published || (cluster && old(db.catalogs)[c].status.Valid?))
    ensures out.Pass? && !old(db.catalogs)[c].published ==>
              && CatalogStepAllowed(old(db.State()), SetPublished(c, true))
              && db.State() == ApplyCatalogStep(old(db.State()), SetPublished(c, true))
    ensures out.Fail? || (c in old(db.catalogs) && old(db.catalogs)[c].published) ==> db.State() == old(db.State())
    ensures out.Fail? ==> forall k :: k in old(db.catalogs) && old(db.catalogs)[k].name == name ==>
              !old(db.catalogs)[k].published && !(cluster && old(db.catalogs)[k].status.Valid?)
  {
    c := 0;
    var found := FindCatalog(db.catalogs, name);
    if found.None? {
      return Fail(NotFound), c;
    }
    c := found.value;
    SameName(db.catalogs, c, name);
    var cat := db.catalogs[found.value];
    if cat.published {
      return Pass, c;
    }
    if cat.status != Valid {
      return Fail(Rejected), c;
    }
    db.catalogs := db.catalogs[found.value := cat.(published := true)];
    if !cluster {
      db.catalogs := db.catalogs[found.value := cat.(published := false)];
      return Fail(Integrity), c;
    }
    db.resources := db.resources[name := Resource(found.value)];
    return Pass, c;
  }

  /** The record is written before the resource: without the cluster the resource stays behind. */
  method Unpublish(db: Store, name: string, cluster: bool) returns (out: Outcome, ghost c: Id)
    requires UniqueNames(db.catalogs)
    modifies db`catalogs, db`resources
    ensures out.Pass? ==> c in old(db.catalogs) && old(db.catalogs)[c].name == name
                          && (cluster || !old(db.catalogs)[c].published)
    ensures out.Pass? && old(db.catalogs)[c].published ==>
              && CatalogStepAllowed(old(db.State()), SetPublished(c, false))
              && db.State() == ApplyCatalogStep(old(db.State()), SetPublished(c, false))
    ensures out.Pass? && !old(db.catalogs)[c].published ==> db.State() == old(db.State())
    ensures out.Fail? ==>
              || (NameFree(old(db.catalogs), name) && db.State() == old(db.State()))
              || (&& !cluster && c in old(db.catalogs) && old(db.catalogs)[c].name == name
                  && db.State() == old(db.State()).(catalogs := old(db.catalogs)[c := old(db.catalogs)[c].(published := false)]))
    ensures Mirrors(old(db.State())) ==>
              (Mirrors(db.State()) <==> cluster || forall k :: k in old(db.catalogs) && old(db.catalogs)[k].name == name ==>
                                                                 !old(db.catalogs)[k].published)
  {
    hide UniqueNames, Mirrors, NameFree;
    ghost var d := db.State();
    c := 0;
    var found := FindCatalog(db.catalogs, name);
    if found.None? {
      NobodyNamed(db.catalogs, name);
      return Fail(NotFound), c;
    }
    c := found.value;
    var cat := db.catalogs[found.value];
    SameName(db.catalogs, c, name);
    if !cat.published {
      return Pass, c;
    }
    if Mirrors(d) {
      UnpublishKeepsMirrorIff(d, c);
    }
    db.catalogs := db.catalogs[found.value := cat.(published := false)];
    if !cluster {
      return Fail(Integrity), c;
    }
    db.resources := db.resources - {name};
    return Pass, c;
  }

  lemma UnpublishKeepsMirrorIff(d: Db, c: Id)
    requires UniqueNames(d.catalogs) && Mirrors(d) && CatalogStepAllowed(d, SetPublished(c, false))
    ensures Mirrors(ApplyCatalogStep(d, SetPublished(c, false))) && !Mirrors(Unanswered(d, SetPublished(c, false)))
  {
    hide UniqueNames, Mirrors;
    PublishKeepsMirror(d, c, false);
    UnansweredMirrorsIff(d, SetPublished(c, false));
  }

  /** Rewrites the resource of a published catalog; failures are only logged. */
  method SyncCr(db: Store, name: string, cluster: bool)
    requires UniqueNames(db.catalogs)
    modifies db`resources
    ensures NameFree(db.catalogs, name) ==> db.resources == old(db.resources)
    ensures forall c :: c in db.catalogs && db.catalogs[c].name == name ==>
              db.resources == if cluster && db.catalogs[c].published then old(db.resources)[name := Resource(c)]
                              else old(db.resources)
  {
    var found := FindCatalog(db.catalogs, name);
    if found.None? {
      return;
    }
    SameName(db.catalogs, found.value, name);
    if db.catalogs[found.value].published && cluster {
      db.resources := db.resources[name := Resource(found.value)];
    }
  }

  // ---- metadata ----

  /** The unique index decides; a catalog may keep its name. */
  method UpdateName(db: Store, c: Id, name: string) returns (out: Outcome)
    requires UniqueNames(db.catalogs) && c in db.catalogs
    modifies db`catalogs
    ensures out.Pass? <==> forall k :: k in old(db.catalogs) && k != c ==> old(db.catalogs)[k].name != name
    ensures db.catalogs == if out.Pass? then old(db.catalogs)[c := old(db.catalogs)[c].(name := name)] else old(db.catalogs)
    ensures UniqueNames(db.catalogs)
  {
    if k :| k in db.catalogs && k != c && db.catalogs[k].name == name {
      return Fail(Conflict);
    }
    db.catalogs := db.catalogs[c := db.catalogs[c].(name := name)];
    return Pass;
  }

  /** Who may edit what: everything of an unpublished catalog, only the description of a
      published one, and that only the super admin. */
  predicate MayEditCatalog(cat: Catalog, name: Option<string>, cv: Option<Id>, role: Role) {
    cat.published ==> role.SuperAdmin? && name.None? && cv.None?
  }

  /** A new name or version puts the catalog back to draft, a new description does not. */
  function Edited(cat: Catalog, name: Option<string>, description: Option<string>, cv: Option<Id>): Catalog {
    var structural := Or(name, cat.name) != cat.name || Or(cv, cat.cvId) != cat.cvId;
    Catalog(Or(name, cat.name), Or(description, cat.description), Or(cv, cat.cvId),
            if structural then Draft else cat.status, cat.published)
  }

  ghost predicate EditAccepted(d: Db, c: Id, name: Option<string>, cv: Option<Id>, role: Role)
    requires c in d.catalogs
  {
    && MayEditCatalog(d.catalogs[c], name, cv, role)
    && (Or(name, d.catalogs[c].name) != d.catalogs[c].name ==> IsDnsLabel(name.value) && NameFree(d.catalogs, name.value))
    && (Or(cv, d.catalogs[c].cvId) != d.catalogs[c].cvId ==> cv.value in d.versionSets)
  }

  /** A call that fails for its catalog version has stored its rename: the edit is allowed, the name
      is a new, free label, and the version is a new one that does not exist. */
  ghost predicate RenameKept(d: Db, c: Id, name: Option<string>, cv: Option<Id>, role: Role)
    requires c in d.catalogs
  {
    && MayEditCatalog(d.catalogs[c], name, cv, role)
    && name.Some? && name.value != d.catalogs[c].name && IsDnsLabel(name.value) && NameFree(d.catalogs, name.value)
    && cv.Some? && cv.value != d.catalogs[c].cvId && cv.value !in d.versionSets
  }

  ghost const UNEDITED := Db(
    map[7 := Catalog("a", "", 3, Draft, false)], map[], map[], map[], map[3 := CatalogVersion("v", Development)],
    map[], [], map[], map[], map[], map[], map[], map[], 10)

  /** Renaming to "b" and moving to a version that does not exist fails and keeps the rename. */
  lemma FailureKeepsRename()
    ensures RenameKept(UNEDITED, 7, Some("b"), Some(9), RW) && !EditAccepted(UNEDITED, 7, Some("b"), Some(9), RW)
  {
    assert "b"[0] == 'b';
  }

  /** Description and catalog version, after a rename that may have been stored already. A new
      description alone is no change that resets the status. */
  method EditFields(db: Store, id: Id, current: Catalog, description: Option<string>, cv: Option<Id>, renamed: bool)
    returns (out: Outcome, cat: Catalog, edited: bool)
    modifies db`catalogs
    ensures out.Fail? <==> cv.Some? && cv.value != current.cvId && cv.value !in db.versionSets
    ensures out.Fail? ==> db.catalogs == old(db.catalogs)
    ensures out.Pass? ==>
              && cat == Catalog(current.name, if description.Some? && description.value != current.description then description.value else current.description,
                                if cv.Some? && cv.value != current.cvId then cv.value else current.cvId,
                                if renamed || (cv.Some? && cv.value != current.cvId) then Draft else current.status, current.published)
              && edited == (renamed || (description.Some? && description.value != current.description) || (cv.Some? && cv.value != current.cvId))
              && db.catalogs == if edited then old(db.catalogs)[id := cat] else old(db.catalogs)
  {
    cat, edited := current, renamed;
    var changed, needsUpdate := renamed, false;
    if description.Some? && description.value != cat.description {
      cat := cat.(description := description.value);
      needsUpdate := true;
    }
    if cv.Some? && cv.value != cat.cvId {
      if cv.value !in db.versionSets {
        return Fail(NotFound), cat, edited;
      }
      cat := cat.(cvId := cv.value);
      needsUpdate, changed := true, true;
    }
    if needsUpdate {
      db.catalogs := db.catalogs[id := cat];
    }
    if changed {
      cat := cat.(status := Draft);
      db.catalogs := db.catalogs[id := cat];
    }
    return Pass, cat, changed || needsUpdate;
  }

  /** On failure nothing has changed, unless the version named does not exist: then a rename
      asked for in the same call has already been stored. "edit" is the catalog and its new record. */
  method UpdateMetadata(db: Store, current: string, name: Option<string>, description: Option<string>, cv: Option<Id>,
                        role: Role, cluster: bool) returns (out: Outcome, ghost edit: Option<(Id, Catalog)>)
    requires UniqueNames(db.catalogs)
    modifies db`catalogs, db`resources
    ensures edit.None? ==> out.Fail? && NameFree(old(db.catalogs), current) && db.State() == old(db.State())
    ensures edit.Some? ==> EditDone(old(db.State()), db.State(), current, cluster, edit.value.0, edit.value.1)
    ensures edit.Some? && out.Pass? ==>
              && EditAccepted(old(db.State()), edit.value.0, name, cv, role)
              && edit.value.1 == Edited(old(db.catalogs)[edit.value.0], name, description, cv)
    ensures edit.Some? && out.Fail? ==>
              && edit.value.0 in old(db.catalogs) && !EditAccepted(old(db.State()), edit.value.0, name, cv, role)
              && edit.value.1 == (if RenameKept(old(db.State()), edit.value.0, name, cv, role)
                                  then old(db.catalogs)[edit.value.0].(name := Or(name, current))
                                  else old(db.catalogs)[edit.value.0])
  {
    hide UniqueNames, NameFree, EditDone, EditAccepted, Edited, RenameKept, IsDnsLabel, Or;
    ghost var d := db.State();
    var found := FindCatalog(db.catalogs, current);
    if found.None? {
      NobodyNamed(db.catalogs, current);
      return Fail(NotFound), None;
    }
    var id := found.value;
    var cat := db.catalogs[id];
    edit := Some((id, cat));
    NotEdited(d, current, cluster, id);
    EditRules(d, id, name, cv, role);
    if cat.published {
      if role != SuperAdmin {
        return Fail(Forbidden), edit;
      }
      if name.Some? || cv.Some? {
        return Fail(Rejected), edit;
      }
    }
    var changed := false;
    if name.Some? && name.value != cat.name {
      if !IsDnsLabel(name.value) {
        return Fail(Rejected), edit;
      }
      OthersNamed(db.catalogs, id, name.value);
      var renamed := UpdateName(db, id, name.value);
      if renamed.Fail? {
        return Fail(Conflict), edit;
      }
      cat := cat.(name := name.value);
      changed := true;
    }
    edit := Some((id, cat));
    var wrote, edited;
    wrote, cat, edited := EditFields(db, id, cat, description, cv, changed);
    if wrote.Fail? {
      RenameDone(d, db.State(), current, cluster, id, edit.value.1);
      return Fail(NotFound), edit;
    }
    edit := Some((id, cat));
    EditedIs(d.catalogs[id], name, description, cv, cat, edited);
    StillUnique(d, id, cat, name);
    assert db.catalogs == d.catalogs[id := cat];
    FinishEdit(db, id, cat, edited, cluster);
    EditIsStep(d, db.State(), current, cluster, id, cat, name, cv, role, edited);
    return Pass, edit;
  }

  /** So a failed call changes the store exactly when it keeps the rename. */
  lemma FailureChangesIff(d: Db, e: Db, current: string, name: Option<string>, cv: Option<Id>, role: Role, cluster: bool, c: Id,
                          to: Catalog)
    requires EditDone(d, e, current, cluster, c, to) && c in d.catalogs
    requires to == if RenameKept(d, c, name, cv, role) then d.catalogs[c].(name := Or(name, current)) else d.catalogs[c]
    ensures e != d <==> RenameKept(d, c, name, cv, role)
  {
    hide CatalogStepAllowed;
    if RenameKept(d, c, name, cv, role) {
      assert e.catalogs[c].name != d.catalogs[c].name;
    } else {
      assert d.catalogs[c := d.catalogs[c]] == d.catalogs;
    }
  }

  method FinishEdit(db: Store, id: Id, cat: Catalog, edited: bool, cluster: bool)
    requires UniqueNames(db.catalogs) && id in db.catalogs && db.catalogs[id] == cat
    modifies db`resources
    ensures db.resources == if cat.published && edited && cluster then old(db.resources)[cat.name := Resource(id)]
                            else old(db.resources)
  {
    hide UniqueNames;
    if cat.published && edited {
      SyncCr(db, cat.name, cluster);
      assert db.catalogs[id].name == cat.name;
    }
  }

  /** The call was the edit of one record, written to the cluster if it is published. */
  ghost predicate EditDone(d: Db, e: Db, current: string, cluster: bool, c: Id, to: Catalog) {
    && c in d.catalogs && d.catalogs[c].name == current
    && CatalogStepAllowed(d, Edit(c, to, cluster && to != d.catalogs[c]))
    && e == ApplyCatalogStep(d, Edit(c, to, cluster && to != d.catalogs[c]))
  }

  lemma NobodyNamed(catalogs: CatalogTable, name: string)
    requires forall c :: c in catalogs ==> catalogs[c].name != name
    ensures NameFree(catalogs, name)
  {
  }

  lemma NotEdited(d: Db, current: string, cluster: bool, c: Id)
    requires c in d.catalogs && d.catalogs[c].name == current
    ensures EditDone(d, d, current, cluster, c, d.catalogs[c])
  {
    assert d.catalogs[c := d.catalogs[c]] == d.catalogs;
  }

  lemma EditRules(d: Db, c: Id, name: Option<string>, cv: Option<Id>, role: Role)
    requires c in d.catalogs
    ensures EditAccepted(d, c, name, cv, role) <==>
              && MayEditCatalog(d.catalogs[c], name, cv, role)
              && (name.Some? && name.value != d.catalogs[c].name ==> IsDnsLabel(name.value) && NameFree(d.catalogs, name.value))
              && (cv.Some? && cv.value != d.catalogs[c].cvId ==> cv.value in d.versionSets)
    ensures RenameKept(d, c, name, cv, role) <==>
              && MayEditCatalog(d.catalogs[c], name, cv, role)
              && name.Some? && name.value != d.catalogs[c].name && IsDnsLabel(name.value) && NameFree(d.catalogs, name.value)
              && cv.Some? && cv.value != d.catalogs[c].cvId && cv.value !in d.versionSets
    ensures name.Some? ==> Or(name, d.catalogs[c].name) == name.value
  {
    hide IsDnsLabel, NameFree;
  }

  lemma OthersNamed(catalogs: CatalogTable, c: Id, name: string)
    requires c in catalogs && catalogs[c].name != name
    ensures NameFree(catalogs, name) <==> forall k :: k in catalogs && k != c ==> catalogs[k].name != name
  {
  }

  lemma RenameDone(d: Db, e: Db, current: string, cluster: bool, c: Id, to: Catalog)
    requires c in d.catalogs && d.catalogs[c].name == current && !d.catalogs[c].published
    requires to == d.catalogs[c].(name := to.name) && (to.name == current || NameFree(d.catalogs, to.name))
    requires SchemaSame(d, e) && DataSame(d, e) && e.resources == d.resources
    requires e.catalogs == if to.name == current then d.catalogs else d.catalogs[c := to]
    ensures EditDone(d, e, current, cluster, c, to)
  {
    hide NameFree;
    assert d.catalogs[c := d.catalogs[c]] == d.catalogs;
  }

  lemma EditedIs(cat: Catalog, name: Option<string>, description: Option<string>, cv: Option<Id>, to: Catalog,
                 edited: bool)
    requires to == Catalog(if name.Some? && name.value != cat.name then name.value else cat.name,
                           if description.Some? && description.value != cat.description then description.value else cat.description,
                           if cv.Some? && cv.value != cat.cvId then cv.value else cat.cvId,
                           if (name.Some? && name.value != cat.name) || (cv.Some? && cv.value != cat.cvId) then Draft else cat.status,
                           cat.published)
    requires edited == ((name.Some? && name.value != cat.name) || (description.Some? && description.value != cat.description)
                        || (cv.Some? && cv.value != cat.cvId))
    ensures to == Edited(cat, name, description, cv) && (edited <==> to != cat)
    ensures to.name == Or(name, cat.name) && to.cvId == Or(cv, cat.cvId)
  {
  }

  lemma StillUnique(d: Db, c: Id, to: Catalog, name: Option<string>)
    requires UniqueNames(d.catalogs) && c in d.catalogs
    requires to.name != d.catalogs[c].name ==> NameFree(d.catalogs, to.name)
    ensures UniqueNames(d.catalogs[c := to])
  {
  }

  lemma EditIsStep(d: Db, e: Db, current: string, cluster: bool, c: Id, to: Catalog, name: Option<string>, cv: Option<Id>,
                   role: Role, edited: bool)
    requires edited <==> c in d.catalogs && to != d.catalogs[c]
    requires c in d.catalogs && d.catalogs[c].name == current && EditAccepted(d, c, name, cv, role)
    requires to.name == Or(name, current) && to.cvId == Or(cv, d.catalogs[c].cvId) && to.published == d.catalogs[c].published
    requires to.status == if to.name != current || to.cvId != d.catalogs[c].cvId then Draft else d.catalogs[c].status
    requires SchemaSame(d, e) && DataSame(d, e) && e.catalogs == d.catalogs[c := to]
    requires e.resources == if to.published && edited && cluster then d.resources[to.name := Resource(c)] else d.resources
    ensures EditDone(d, e, current, cluster, c, to)
  {
    hide IsDnsLabel, NameFree;
  }

  // ---- replace ----

  method UpdatePublished(db: Store, c: Id, on: bool)
    requires c in db.catalogs
    modifies db`catalogs
    ensures db.catalogs == old(db.catalogs)[c := old(db.catalogs)[c].(published := on)]
  {
    db.catalogs := db.catalogs[c := db.catalogs[c].(published := on)];
  }

  /** The source takes over whether the target is published. */
  method TransferPublished(db: Store, source: Id, target: Id)
    requires source in db.catalogs && target in db.catalogs && source != target
    modifies db`catalogs
    ensures var t := old(db.catalogs);
            db.catalogs == t[source := t[source].(published := t[target].published)][target := t[target].(published := false)]
  {
    var s, t := db.catalogs[source], db.catalogs[target];
    if t.published {
      UpdatePublished(db, source, true);
      UpdatePublished(db, target, false);
    } else if s.published {
      UpdatePublished(db, source, false);
    }
  }

  /** The renames and the transfer, as one transaction: each rename finds its name free, or
      everything is undone. */
  method SwapRecords(db: Store, source: Id, target: Id, archive: string) returns (out: Outcome)
    requires UniqueNames(db.catalogs) && source in db.catalogs && target in db.catalogs && source != target
    modifies db`catalogs
    ensures out.Pass? <==> NameFree(old(db.catalogs), archive)
    ensures db.catalogs == if out.Pass? then Swapped(old(db.catalogs), source, target, archive) else old(db.catalogs)
    ensures UniqueNames(db.catalogs)
  {
    hide UniqueNames, NameFree, Swapped;
    var before := db.catalogs;
    var s, t := before[source], before[target];
    var out1 := UpdateName(db, target, archive);
    if out1.Fail? {
      FreeMeans(before, archive);
      return Fail(Conflict);
    }
    TwoRenames(before, source, target, archive);
    var out2 := UpdateName(db, source, t.name);
    if out2.Fail? {
      db.catalogs := before;
      return Fail(Conflict);
    }
    TransferPublished(db, source, target);
    SwappedNames(before, source, target, archive, db.catalogs);
    return Pass;
  }

  /** After the first rename the second finds its name free exactly when the archive name is
      not the target's own. */
  lemma TwoRenames(before: CatalogTable, source: Id, target: Id, archive: string)
    requires UniqueNames(before) && source in before && target in before && source != target
    requires forall k :: k in before && k != target ==> before[k].name != archive
    ensures var mid := before[target := before[target].(name := archive)];
            NameFree(before, archive) <==> forall k :: k in mid && k != source ==> mid[k].name != before[target].name
  {
    var mid := before[target := before[target].(name := archive)];
    assert target in mid && mid[target].name == archive;
  }

  lemma SwappedNames(before: CatalogTable, source: Id, target: Id, archive: string, after: CatalogTable)
    requires UniqueNames(before) && source in before && target in before && source != target && NameFree(before, archive)
    requires after.Keys == before.Keys && forall k :: k in before && k != source && k != target ==> after[k] == before[k]
    requires after[target] == before[target].(name := archive, published := false)
    requires after[source] == before[source].(name := before[target].name, published := before[target].published)
    ensures after == Swapped(before, source, target, archive) && UniqueNames(after)
  {
  }

  /** Puts a valid catalog in the place of another, which is kept under an archive name. The
      new one is published exactly if the old one was. */
  method ReplaceCatalog(db: Store, sourceName: string, targetName: string, archiveName: string, today: string, cluster: bool)
    returns (res: Result<Id>, ghost source: Id, ghost target: Id, ghost archive: string)
    requires UniqueNames(db.catalogs)
    modifies db`catalogs, db`resources
    ensures archive == if archiveName == "" then targetName + "-archive-" + today else archiveName
    ensures res.Ok? ==>
              && res.value == source && source in old(db.catalogs) && old(db.catalogs)[source].name == sourceName
              && target in old(db.catalogs) && old(db.catalogs)[target].name == targetName
              && IsDnsLabel(archive) && CatalogStepAllowed(old(db.State()), Swap(source, target, archive))
    ensures res.Ok? && cluster ==> db.State() == ApplyCatalogStep(old(db.State()), Swap(source, target, archive))
    ensures res.Ok? && !cluster ==>
              db.State() == ApplyCatalogStep(old(db.State()), Swap(source, target, archive)).(resources := old(db.resources))
    ensures res.Err? ==> db.State() == old(db.State())
    ensures res.Err? ==>
              || sourceName == targetName || NameFree(old(db.catalogs), sourceName) || NameFree(old(db.catalogs), targetName)
              || !IsDnsLabel(archive) || !NameFree(old(db.catalogs), archive)
              || exists s :: s in old(db.catalogs) && old(db.catalogs)[s].name == sourceName && !old(db.catalogs)[s].status.Valid?
    ensures Mirrors(old(db.State())) ==>
              (Mirrors(db.State()) <==> res.Err? || cluster || (!old(db.catalogs)[source].published && !old(db.catalogs)[target].published))
  {
    hide UniqueNames, Swapped, NameFree, Mirrors, SwappedResources;
    source, target := 0, 0;
    var archive_ := if archiveName == "" then targetName + "-archive-" + today else archiveName;
    archive := archive_;
    if sourceName == targetName {
      return Err(Rejected), source, target, archive;
    }
    var s := FindCatalog(db.catalogs, sourceName);
    if s.None? {
      NobodyNamed(db.catalogs, sourceName);
      return Err(NotFound), source, target, archive;
    }
    var t := FindCatalog(db.catalogs, targetName);
    if t.None? {
      NobodyNamed(db.catalogs, targetName);
      return Err(NotFound), source, target, archive;
    }
    source, target := s.value, t.value;
    var old_ := db.catalogs[t.value];
    var new_ := db.catalogs[s.value];
    if new_.status != Valid {
      return Err(Rejected), source, target, archive;
    }
    if !IsDnsLabel(archive_) {
      return Err(Rejected), source, target, archive;
    }
    ghost var d := db.State();
    var swapped := SwapRecords(db, s.value, t.value, archive_);
    if swapped.Fail? {
      return Err(swapped.error), source, target, archive;
    }
    SwapResources(db, s.value, targetName, sourceName, archive_, old_.published, new_.published, cluster, d, t.value);
    SwapIsStep(d, db.State(), source, target, archive, cluster);
    if Mirrors(d) {
      SwapKeepsMirrorIff(d, source, target, archive);
    }
    return Ok(s.value), source, target, archive;
  }

  /** The cluster's side of a replacement, outside the transaction. */
  method SwapResources(db: Store, s: Id, targetName: string, sourceName: string, archive: string, targetOn: bool,
                       sourceOn: bool, cluster: bool, ghost d: Db, ghost t: Id)
    requires s in d.catalogs && t in d.catalogs && s != t && UniqueNames(db.catalogs)
    requires db.catalogs == Swapped(d.catalogs, s, t, archive) && db.resources == d.resources
    requires d.catalogs[t].name == targetName && d.catalogs[t].published == targetOn
    requires d.catalogs[s].name == sourceName && d.catalogs[s].published == sourceOn
    modifies db`resources
    ensures db.resources == if cluster then SwappedResources(d, s, t, archive) else d.resources
  {
    hide UniqueNames;
    assert s in db.catalogs && db.catalogs[s].name == targetName && db.catalogs[s].published == targetOn;
    if targetOn {
      if cluster {
        db.resources := db.resources - {archive};
      }
      SyncCr(db, targetName, cluster);
    }
    if sourceOn && cluster {
      db.resources := db.resources - {sourceName};
    }
  }

  lemma SwapKeepsMirrorIff(d: Db, source: Id, target: Id, archive: string)
    requires UniqueNames(d.catalogs) && Mirrors(d) && CatalogStepAllowed(d, Swap(source, target, archive))
    ensures Mirrors(ApplyCatalogStep(d, Swap(source, target, archive)))
    ensures Mirrors(Unanswered(d, Swap(source, target, archive))) <==> !d.catalogs[source].published && !d.catalogs[target].published
  {
    hide UniqueNames, Mirrors, ApplyCatalogStep;
    SwapKeepsMirror(d, source, target, archive);
    UnansweredMirrorsIff(d, Swap(source, target, archive));
  }

  lemma SwapIsStep(d: Db, e: Db, source: Id, target: Id, archive: string, cluster: bool)
    requires source in d.catalogs && target in d.catalogs && source != target && d.catalogs[source].status.Valid?
    requires NameFree(d.catalogs, archive) && SchemaSame(d, e) && DataSame(d, e)
    requires e.catalogs == Swapped(d.catalogs, source, target, archive)
    requires e.resources == if cluster then SwappedResources(d, source, target, archive) else d.resources
    ensures CatalogStepAllowed(d, Swap(source, target, archive))
    ensures var f := ApplyCatalogStep(d, Swap(source, target, archive));
            e == if cluster then f else f.(resources := d.resources)
  {
    hide Swapped, SwappedResources, NameFree;
  }
}
