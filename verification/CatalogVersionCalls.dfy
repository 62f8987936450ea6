/** The catalog version service: creation, the lifecycle and the pins. Each call that
    succeeds is one allowed step; each that fails leaves the store alone, except a creation
    that stops at a repeated pin. */
module CatalogVersionCalls {
  import opened Domain
  import opened Database
  import opened DataSteps
  import opened Migration
  import opened CatalogVersions

  ghost predicate LabelTaken(d: Db, text: string) {
    exists cv :: cv in d.versionSets && d.versionSets[cv].versionLabel == text
  }

  method CreateCatalogVersion(db: Store, text: string, vers: seq<Id>) returns (res: Result<Id>, ghost step: VersionStep)
    requires FreshSchema(db.State())
    modifies db`versionSets, db`pins, db`log, db`nextId
    ensures LabelTaken(old(db.State()), text) ==> res == Err(Conflict) && db.State() == old(db.State())
    ensures !LabelTaken(old(db.State()), text) ==>
              && step.CreateVersion? && step.made <= vers && step.row == CatalogVersion(text, Development)
              && step.complete == res.Ok?
              && VersionStepAllowed(old(db.State()), step) && db.State() == ApplyVersionStep(old(db.State()), step)
    ensures res.Ok? ==> step.CreateVersion? && step.made == vers && res.value == old(db.nextId)
    ensures res.Ok? <==> !LabelTaken(old(db.State()), text) && Distinct(vers)
    ensures res.Ok? ==>
              && db.versionSets == old(db.versionSets)[res.value := CatalogVersion(text, Development)]
              && db.log == old(db.log) + [Transition(res.value, None, Development)]
              && (forall p :: p in db.pins <==> p in old(db.pins) || res.value < p <= res.value + |vers|)
              && (forall k :: 0 <= k < |vers| ==> db.pins[res.value + 1 + k] == Pin(res.value, vers[k]))
              && forall p :: p in old(db.pins) && p <= res.value ==> db.pins[p] == old(db.pins)[p]
  {
    hide VersionStepAllowed, ApplyVersionStep, WithPins, FreshSchema, Distinct;
    FreshPins(db.State());
    step := CreateVersion(CatalogVersion(text, Development), [], false);
    if c :| c in db.versionSets && db.versionSets[c].versionLabel == text {
      return Err(Conflict), step;
    }
    ghost var d := db.State();
    var cv := db.nextId;
    var n := WriteVersion(db, text, vers);
    step := CreateVersion(CatalogVersion(text, Development), vers[..n], n == |vers|);
    CreateIsStep(d, db.State(), step);
    if n < |vers| {
      return Err(Conflict), step;
    }
    assert vers[..n] == vers;
    return Ok(cv), step;
  }

  /** The rows of a new version: the version, its pins, and the first entry of its log once
      all pins are made. */
  method WriteVersion(db: Store, text: string, vers: seq<Id>) returns (n: nat)
    requires forall p :: p in db.pins ==> p < db.nextId && db.pins[p].cvId != db.nextId
    modifies db`versionSets, db`pins, db`log, db`nextId
    ensures n <= |vers| && Distinct(vers[..n]) && (n < |vers| ==> !Distinct(vers))
    ensures db.versionSets == old(db.versionSets)[old(db.nextId) := CatalogVersion(text, Development)]
    ensures db.pins == WithPins(old(db.pins), old(db.nextId), old(db.nextId) + 1, vers[..n])
    ensures db.log == if n == |vers| then old(db.log) + [Transition(old(db.nextId), None, Development)] else old(db.log)
    ensures db.nextId == old(db.nextId) + 1 + n
  {
    hide WithPins, Distinct;
    var cv := db.nextId;
    db.versionSets := db.versionSets[cv := CatalogVersion(text, Development)];
    db.nextId := db.nextId + 1;
    n := CreatePins(db, cv, vers);
    if n == |vers| {
      db.log := db.log + [Transition(cv, None, Development)];
    }
  }

  lemma FreshPins(d: Db)
    requires FreshSchema(d)
    ensures forall p :: p in d.pins ==> p < d.nextId && d.pins[p].cvId != d.nextId
  {
  }

  lemma CreateIsStep(d: Db, e: Db, s: VersionStep)
    requires s.CreateVersion? && s.row.stage.Development? && Distinct(s.made)
    requires e == d.(versionSets := e.versionSets, pins := e.pins, log := e.log, nextId := e.nextId)
    requires e.versionSets == d.versionSets[d.nextId := s.row]
    requires e.pins == WithPins(d.pins, d.nextId, d.nextId + 1, s.made)
    requires e.log == if s.complete then d.log + [Transition(d.nextId, None, Development)] else d.log
    requires e.nextId == d.nextId + 1 + |s.made|
    ensures VersionStepAllowed(d, s) && e == ApplyVersionStep(d, s)
  {
    hide WithPins, Roomy, Injective, Substituted, InstancesUnder, MayMove, PinsType, ResetCatalogs;
  }

  lemma NoneRepeats()
    ensures Distinct([])
  {
  }

  lemma MoreDistinct(vers: seq<Id>, k: nat)
    requires k < |vers| && Distinct(vers[..k]) && forall j :: 0 <= j < k ==> vers[j] != vers[k]
    ensures Distinct(vers[..k + 1])
  {
  }

  lemma Repeats(vers: seq<Id>, j: nat, k: nat)
    requires j < k < |vers| && vers[j] == vers[k]
    ensures !Distinct(vers)
  {
  }

  lemma OneMorePin(pins: map<Id, Pin>, cv: Id, first: Id, vers: seq<Id>, k: nat)
    requires k < |vers|
    ensures WithPins(pins, cv, first, vers[..k])[first + k := Pin(cv, vers[k])]
         == WithPins(pins, cv, first, vers[..k + 1])
  {
    assert vers[..k + 1][..k] == vers[..k];
  }

  /** Creates pins one by one and stops at a repeated one; returns how many were made. */
  method CreatePins(db: Store, cv: Id, vers: seq<Id>) returns (n: nat)
    requires forall p :: p in db.pins ==> p < db.nextId && db.pins[p].cvId != cv
    modifies db`pins, db`nextId
    ensures n <= |vers| && Distinct(vers[..n]) && (n < |vers| ==> !Distinct(vers))
    ensures db.pins == WithPins(old(db.pins), cv, old(db.nextId), vers[..n])
    ensures db.nextId == old(db.nextId) + n
  {
    hide Distinct;
    ghost var before, first := db.pins, db.nextId;
    assert WithPins(before, cv, first, []) == before && vers[..0] == [];
    NoneRepeats();
    for k := 0 to |vers|
      invariant db.nextId == first + k
      invariant db.pins == WithPins(before, cv, first, vers[..k])
      invariant Distinct(vers[..k])
    {
      if p :| p in db.pins && db.pins[p] == Pin(cv, vers[k]) {
        assert p !in before;
        assert 0 <= p - first < k && vers[p - first] == vers[k];
        Repeats(vers, p - first, k);
        return k;
      }
      forall j | 0 <= j < k
        ensures vers[j] != vers[k]
      {
        assert db.pins[first + j] == Pin(cv, vers[j]);
      }
      OneMorePin(before, cv, first, vers, k);
      MoreDistinct(vers, k);
      db.pins := db.pins[db.nextId := Pin(cv, vers[k])];
      db.nextId := db.nextId + 1;
    }
    return |vers|;
  }

  predicate Earlier(s: Stage, t: Stage) {
    match s
    case Development => !t.Development?
    case Testing => t.Production?
    case Production => false
  }

  /** One stage forward. Warns about the catalogs that are not valid. */
  method Promote(db: Store, cv: Id, role: Role) returns (out: Outcome, warnings: set<string>, ghost to: Stage)
    modifies db`versionSets, db`log
    ensures out.Pass? <==> cv in old(db.versionSets) && exists t :: Earlier(old(db.versionSets)[cv].stage, t)
                                                                     && MayMove(old(db.versionSets)[cv].stage, t, role)
    ensures out.Pass? <==> cv in old(db.versionSets) && match old(db.versionSets)[cv].stage
                           case Development => role != RO
                           case Testing => role == Admin || role == SuperAdmin
                           case Production => false
    ensures out.Pass? ==>
              && cv in old(db.versionSets) && to == (if old(db.versionSets)[cv].stage == Development then Testing else Production)
              && db.versionSets == old(db.versionSets)[cv := CatalogVersion(old(db.versionSets)[cv].versionLabel, to)]
              && db.log == old(db.log) + [Transition(cv, Some(old(db.versionSets)[cv].stage), to)]
    ensures out.Fail? ==> db.State() == old(db.State())
    ensures out.Pass? ==>
              && Earlier(old(db.versionSets)[cv].stage, to)
              && VersionStepAllowed(old(db.State()), MoveStage(cv, to))
              && db.State() == ApplyVersionStep(old(db.State()), MoveStage(cv, to))
              && (forall n :: n in warnings <==> exists c :: c in db.catalogs && db.catalogs[c].cvId == cv
                                                             && db.catalogs[c].name == n && !db.catalogs[c].status.Valid?)
  {
    warnings, to := {}, Development;
    if cv !in db.versionSets {
      return Fail(NotFound), warnings, to;
    }
    var stage := db.versionSets[cv].stage;
    var target: Stage;
    match stage {
      case Development =>
        target := Testing;
        if role == RO {
          return Fail(Forbidden), warnings, to;
        }
      case Testing =>
        target := Production;
        if role == RO || role == RW {
          return Fail(Forbidden), warnings, to;
        }
      case Production => return Fail(Rejected), warnings, to;
    }
    assert MayMove(stage, target, role);
    db.versionSets := db.versionSets[cv := db.versionSets[cv].(stage := target)];
    db.log := db.log + [Transition(cv, Some(stage), target)];
    warnings := set c | c in db.catalogs && db.catalogs[c].cvId == cv && db.catalogs[c].status != Valid :: db.catalogs[c].name;
    return Pass, warnings, target;
  }

  method Demote(db: Store, cv: Id, role: Role, target: Stage) returns (out: Outcome)
    modifies db`versionSets, db`log
    ensures out.Pass? <==> cv in old(db.versionSets) && Earlier(target, old(db.versionSets)[cv].stage)
                           && MayMove(old(db.versionSets)[cv].stage, target, role)
    ensures out.Pass? <==> cv in old(db.versionSets) && match old(db.versionSets)[cv].stage
                           case Development => false
                           case Testing => target == Development && role != RO
                           case Production => target != Production && role == SuperAdmin
    ensures out.Pass? ==>
              && cv in old(db.versionSets)
              && db.versionSets == old(db.versionSets)[cv := CatalogVersion(old(db.versionSets)[cv].versionLabel, target)]
              && db.log == old(db.log) + [Transition(cv, Some(old(db.versionSets)[cv].stage), target)]
    ensures out.Fail? ==> db.State() == old(db.State())
    ensures out.Pass? ==>
              && VersionStepAllowed(old(db.State()), MoveStage(cv, target))
              && db.State() == ApplyVersionStep(old(db.State()), MoveStage(cv, target))
  {
    if cv !in db.versionSets {
      return Fail(NotFound);
    }
    var stage := db.versionSets[cv].stage;
    match stage {
      case Development => return Fail(Rejected);
      case Testing =>
        if target != Development {
          return Fail(Rejected);
        }
        if role == RO {
          return Fail(Forbidden);
        }
      case Production =>
        if target != Testing && target != Development {
          return Fail(Rejected);
        }
        if role != SuperAdmin {
          return Fail(Forbidden);
        }
    }
    assert MayMove(stage, target, role);
    db.versionSets := db.versionSets[cv := db.versionSets[cv].(stage := target)];
    db.log := db.log + [Transition(cv, Some(stage), target)];
    return Pass;
  }

  /** The version exists, and its stage lets the role change its pins. */
  ghost predicate MayEdit(d: Db, cv: Id, role: Role) {
    cv in d.versionSets && (d.versionSets[cv].stage == Development || (d.versionSets[cv].stage == Testing && role == SuperAdmin))
  }

  /** The catalogs of the version are drafts; nothing else about catalogs has changed. */
  ghost predicate AllDrafts(before: map<Id, Catalog>, after: map<Id, Catalog>, cv: Id) {
    && after.Keys == before.Keys
    && forall c :: c in before && c in after ==>
         && after[c].status == (if before[c].cvId == cv then Draft else before[c].status)
         && after[c].name == before[c].name && after[c].description == before[c].description
         && after[c].cvId == before[c].cvId && after[c].published == before[c].published
  }

  /** Only catalogs that are not yet in draft are written. */
  method ResetDependentCatalogs(db: Store, cv: Id)
    modifies db`catalogs
    ensures db.catalogs == ResetCatalogs(old(db.catalogs), cv)
    ensures AllDrafts(old(db.catalogs), db.catalogs, cv)
  {
    var todo := set c | c in db.catalogs && db.catalogs[c].cvId == cv;
    ghost var all := todo;
    while todo != {}
      invariant todo <= all
      invariant db.catalogs.Keys == old(db.catalogs).Keys
      invariant forall c :: c in db.catalogs && c in all - todo ==> db.catalogs[c] == old(db.catalogs)[c].(status := Draft)
      invariant forall c :: c in db.catalogs && c !in all - todo ==> db.catalogs[c] == old(db.catalogs)[c]
      decreases todo
    {
      var c :| c in todo;
      if db.catalogs[c].status != Draft {
        db.catalogs := db.catalogs[c := db.catalogs[c].(status := Draft)];
      }
      todo := todo - {c};
    }
  }

  lemma AddPinMeans(d: Db, cv: Id, ver: Id)
    ensures VersionStepAllowed(d, NewPin(Pin(cv, ver))) <==>
              && Editable(d, cv) && ver in d.versions
              && forall p :: p in d.pins && d.pins[p].cvId == cv ==>
                   d.pins[p].versionId in d.versions && d.versions[d.pins[p].versionId].typeId != d.versions[ver].typeId
  {
  }

  lemma PinAdded(d: Db, e: Db, cv: Id, ver: Id)
    requires e == d.(pins := d.pins[d.nextId := Pin(cv, ver)], nextId := d.nextId + 1, catalogs := ResetCatalogs(d.catalogs, cv))
    ensures e == ApplyVersionStep(d, NewPin(Pin(cv, ver)))
  {
  }

  /** Refused when a pin of the version points at a deleted entity type version, or when any
      version of the same entity type is pinned. */
  method CheckNewPin(db: Store, cv: Id, ver: Id, role: Role) returns (out: Outcome)
    ensures out.Pass? <==> MayEdit(db.State(), cv, role) && VersionStepAllowed(db.State(), NewPin(Pin(cv, ver)))
  {
    hide VersionStepAllowed;
    AddPinMeans(db.State(), cv, ver);
    if cv !in db.versionSets {
      return Fail(NotFound);
    }
    if !EditAllowed(db.versionSets[cv].stage, role) {
      return Fail(Rejected);
    }
    if ver !in db.versions {
      return Fail(NotFound);
    }
    if p :| p in db.pins && db.pins[p].cvId == cv && db.pins[p].versionId !in db.versions {
      return Fail(Rejected);
    }
    if p :| p in db.pins && db.pins[p].cvId == cv && db.versions[db.pins[p].versionId].typeId == db.versions[ver].typeId {
      return Fail(Conflict);
    }
    return Pass;
  }

  method AddPin(db: Store, cv: Id, ver: Id, role: Role) returns (res: Result<Id>)
    modifies db`pins, db`nextId, db`catalogs
    ensures res.Ok? <==> MayEdit(old(db.State()), cv, role) && VersionStepAllowed(old(db.State()), NewPin(Pin(cv, ver)))
    ensures res.Ok? ==> res.value == old(db.nextId)
                        && db.State() == ApplyVersionStep(old(db.State()), NewPin(Pin(cv, ver)))
    ensures res.Ok? ==>
              && cv in db.versionSets && db.versionSets[cv].stage != Production && (db.versionSets[cv].stage == Testing ==> role == SuperAdmin)
              && db.pins == old(db.pins)[res.value := Pin(cv, ver)] && AllDrafts(old(db.catalogs), db.catalogs, cv)
    ensures res.Err? ==> db.State() == old(db.State())
  {
    hide ResetCatalogs, ApplyVersionStep, VersionStepAllowed, AllDrafts;
    ghost var d := db.State();
    var allowed := CheckNewPin(db, cv, ver, role);
    if allowed.Fail? {
      return Err(allowed.error);
    }
    var id := db.nextId;
    db.pins := db.pins[id := Pin(cv, ver)];
    db.nextId := id + 1;
    ResetDependentCatalogs(db, cv);
    PinAdded(d, db.State(), cv, ver);
    return Ok(id);
  }

  method RemovePin(db: Store, cv: Id, pin: Id, role: Role) returns (out: Outcome)
    modifies db`pins, db`catalogs
    ensures out.Pass? <==> MayEdit(old(db.State()), cv, role) && pin in old(db.pins) && old(db.pins)[pin].cvId == cv
    ensures out.Pass? ==> VersionStepAllowed(old(db.State()), VersionStep.DropPin(pin))
                          && db.State() == ApplyVersionStep(old(db.State()), VersionStep.DropPin(pin))
    ensures out.Pass? ==>
              && cv in db.versionSets && db.versionSets[cv].stage != Production && (db.versionSets[cv].stage == Testing ==> role == SuperAdmin)
              && db.pins == old(db.pins) - {pin} && AllDrafts(old(db.catalogs), db.catalogs, cv)
    ensures out.Fail? ==> db.State() == old(db.State())
  {
    if cv !in db.versionSets {
      return Fail(NotFound);
    }
    if !EditAllowed(db.versionSets[cv].stage, role) {
      return Fail(Rejected);
    }
    if pin !in db.pins || db.pins[pin].cvId != cv {
      return Fail(NotFound);
    }
    db.pins := db.pins - {pin};
    ResetDependentCatalogs(db, cv);
    return Pass;
  }
}
