/** Catalog versions: their pins, their lifecycle and its log. */
module CatalogVersions {
  import opened Domain
  import opened Database
  import opened Conformance
  import opened DataSteps
  import opened Revisions
  import opened Migration
  import opened Staleness

  // ---- steps ----

  datatype VersionStep =
    | CreateVersion(row: CatalogVersion, made: seq<Id>, complete: bool)
    | MoveStage(cv: Id, to: Stage)
    | NewPin(pin: Pin)
    | DropPin(id: Id)
    | MovePin(id: Id, version: Id, insts: set<Id>, mapping: map<Id, Id>)

  /** All catalogs of a catalog version go back to draft. */
  function ResetCatalogs(catalogs: map<Id, Catalog>, cv: Id): (out: map<Id, Catalog>)
    ensures out.Keys == catalogs.Keys
  {
    map c | c in catalogs :: if catalogs[c].cvId == cv then catalogs[c].(status := Draft) else catalogs[c]
  }

  /** With the pins of a new catalog version, numbered from "first". */
  function WithPins(pins: map<Id, Pin>, cv: Id, first: Id, vers: seq<Id>): (out: map<Id, Pin>)
    ensures forall p :: p in out <==> p in pins || first <= p < first + |vers|
    ensures forall p :: p in out ==> out[p] == if first <= p < first + |vers| then Pin(cv, vers[p - first]) else pins[p]
  {
    if vers == [] then pins
    else WithPins(pins, cv, first, vers[..|vers| - 1])[first + |vers| - 1 := Pin(cv, vers[|vers| - 1])]
  }

  ghost function ApplyVersionStep(d: Db, s: VersionStep): Db {
    match s
    case CreateVersion(row, made, complete) =>
      d.(versionSets := d.versionSets[d.nextId := row],
         pins := WithPins(d.pins, d.nextId, d.nextId + 1, made),
         log := if complete then d.log + [Transition(d.nextId, None, Development)] else d.log,
         nextId := d.nextId + 1 + |made|)
    case MoveStage(cv, to) =>
      if cv !in d.versionSets then d
      else
        d.(versionSets := d.versionSets[cv := d.versionSets[cv].(stage := to)],
           log := d.log + [Transition(cv, Some(d.versionSets[cv].stage), to)])
    case NewPin(pin) =>
      d.(pins := d.pins[d.nextId := pin], nextId := d.nextId + 1, catalogs := ResetCatalogs(d.catalogs, pin.cvId))
    case DropPin(p) =>
      if p !in d.pins then d
      else d.(pins := d.pins - {p}, catalogs := ResetCatalogs(d.catalogs, d.pins[p].cvId))
    case MovePin(p, ver, insts, m) =>
      if p !in d.pins || !Injective(m) then d
      else d.(pins := d.pins[p := d.pins[p].(versionId := ver)],
              values := Substituted(d.values, insts, m),
              catalogs := ResetCatalogs(d.catalogs, d.pins[p].cvId))
  }

  /** Editing pins is open to all in development, to the super admin in testing, to nobody in production. */
  predicate EditAllowed(stage: Stage, role: Role) {
    match stage
    case Development => true
    case Testing => role.SuperAdmin?
    case Production => false
  }

  /** Who may move a version where: one stage forward, or back; out of production only the super admin. */
  predicate MayMove(from: Stage, to: Stage, role: Role) {
    match from
    case Development => to.Testing? && !role.RO?
    case Testing => (to.Production? && (role.Admin? || role.SuperAdmin?)) || (to.Development? && !role.RO?)
    case Production => !to.Production? && role.SuperAdmin?
  }

  ghost predicate PinsType(d: Db, p: Id, typeId: Id) {
    p in d.pins && d.pins[p].versionId in d.versions && d.versions[d.pins[p].versionId].typeId == typeId
  }

  /** The instances of a type in the catalogs of a catalog version. */
  function InstancesUnder(d: Db, cv: Id, typeId: Id): set<Id> {
    set i | i in d.instances && d.instances[i].typeId == typeId && d.instances[i].catalogId in d.catalogs
            && d.catalogs[d.instances[i].catalogId].cvId == cv
  }

  ghost predicate Editable(d: Db, cv: Id) {
    cv in d.versionSets && !d.versionSets[cv].stage.Production?
  }

  /** What the service has checked before a step. */
  ghost predicate VersionStepAllowed(d: Db, s: VersionStep) {
    match s
    case CreateVersion(row, made, complete) =>
      && row.stage.Development? && forall j, k :: 0 <= j < k < |made| ==> made[j] != made[k]
    case MoveStage(cv, to) => cv in d.versionSets && exists role :: MayMove(d.versionSets[cv].stage, to, role)
    case NewPin(pin) =>
      && Editable(d, pin.cvId) && pin.versionId in d.versions
      && forall p :: p in d.pins && d.pins[p].cvId == pin.cvId ==>
           d.pins[p].versionId in d.versions && !PinsType(d, p, d.versions[pin.versionId].typeId)
    case DropPin(p) => p in d.pins && Editable(d, d.pins[p].cvId)
    case MovePin(p, ver, insts, m) =>
      && p in d.pins && Editable(d, d.pins[p].cvId) && BetweenVersions(m) && Roomy(d.values, insts, m)
      && ver in d.versions && PinsType(d, p, d.versions[ver].typeId)
      && insts <= InstancesUnder(d, d.pins[p].cvId, d.versions[ver].typeId)
  }

  // ---- invariants ----

  /** At most one pin of a catalog version for one entity type version, and for one entity type. */
  ghost predicate PinsDistinct(d: Db) {
    forall p, q :: p in d.pins && q in d.pins && d.pins[p].cvId == d.pins[q].cvId && SamePinned(d, p, q) ==> p == q
  }

  predicate SamePinned(d: Db, p: Id, q: Id)
    requires p in d.pins && q in d.pins
  {
    || d.pins[p].versionId == d.pins[q].versionId
    || (d.pins[p].versionId in d.versions && d.pins[q].versionId in d.versions
        && d.versions[d.pins[p].versionId].typeId == d.versions[d.pins[q].versionId].typeId)
  }

  /** The log entries of one catalog version, oldest first. */
  function Entries(log: seq<Transition>, cv: Id): seq<Transition> {
    if log == [] then []
    else
      var before := Entries(log[..|log| - 1], cv);
      if log[|log| - 1].cvId == cv then before + [log[|log| - 1]] else before
  }

  /** The entries form a path: each starts where the one before it ended, the first in
      development or nowhere, and none stays in place. */
  ghost predicate IsPath(entries: seq<Transition>) {
    && (forall k :: 0 < k < |entries| ==> entries[k].from == Some(entries[k - 1].to))
    && (|entries| > 0 && entries[0].from.None? ==> entries[0].to.Development?)
    && (|entries| > 0 && entries[0].from.Some? ==> entries[0].from.value.Development?)
    && (forall k :: 0 <= k < |entries| ==> entries[k].from != Some(entries[k].to))
  }

  function PathEnd(entries: seq<Transition>): Stage {
    if entries == [] then Development else entries[|entries| - 1].to
  }

  ghost predicate LogTracks(d: Db) {
    && (forall cv :: cv in d.versionSets ==>
          IsPath(Entries(d.log, cv)) && PathEnd(Entries(d.log, cv)) == d.versionSets[cv].stage)
    && (forall k :: 0 <= k < |d.log| ==> d.log[k].cvId < d.nextId)
  }

  /** Every catalog's catalog version exists. */
  ghost predicate CatalogsPlaced(d: Db) {
    forall c :: c in d.catalogs ==> d.catalogs[c].cvId in d.versionSets
  }

  ghost predicate VersionInv(d: Db) {
    PinsDistinct(d) && LogTracks(d) && CatalogsPlaced(d)
  }

  /** The pins a new catalog version is made with are of different entity types. */
  ghost predicate InitialPinsDistinct(d: Db, s: VersionStep) {
    s.CreateVersion? ==> forall j, k :: 0 <= j < k < |s.made| && s.made[j] in d.versions && s.made[k] in d.versions ==>
      d.versions[s.made[j]].typeId != d.versions[s.made[k]].typeId
  }

  // ---- the log ----

  lemma EntriesGrow(log: seq<Transition>, t: Transition, cv: Id)
    ensures Entries(log + [t], cv) == if t.cvId == cv then Entries(log, cv) + [t] else Entries(log, cv)
  {
    assert (log + [t])[..|log|] == log;
  }

  lemma {:induction false} NoEntriesFor(log: seq<Transition>, cv: Id)
    requires forall k :: 0 <= k < |log| ==> log[k].cvId != cv
    ensures Entries(log, cv) == []
  {
    if log != [] {
      NoEntriesFor(log[..|log| - 1], cv);
    }
  }

  lemma OneMoreEntry(d: Db, e: Db, t: Transition)
    requires LogTracks(d) && e.log == d.log + [t] && t.cvId < e.nextId && d.nextId <= e.nextId
    requires t.cvId in e.versionSets && e.versionSets[t.cvId].stage == t.to && t.from != Some(t.to)
    requires if t.cvId in d.versionSets then t.from == Some(d.versionSets[t.cvId].stage)
             else t.cvId >= d.nextId && t.from.None? && t.to.Development?
    requires forall cv :: cv in e.versionSets && cv != t.cvId ==> cv in d.versionSets && e.versionSets[cv] == d.versionSets[cv]
    ensures LogTracks(e)
  {
    if t.cvId !in d.versionSets {
      NoEntriesFor(d.log, t.cvId);
    }
    hide Entries, IsPath;
    forall cv | cv in e.versionSets
      ensures IsPath(Entries(e.log, cv)) && PathEnd(Entries(e.log, cv)) == e.versionSets[cv].stage
    {
      EntriesGrow(d.log, t, cv);
      if cv == t.cvId {
        PathGrows(Entries(d.log, cv), t);
      }
    }
  }

  lemma PathGrows(path: seq<Transition>, t: Transition)
    requires path != [] ==> IsPath(path)
    requires t.from == Some(PathEnd(path)) || (path == [] && t.from.None? && t.to.Development?)
    requires t.from != Some(t.to)
    ensures IsPath(path + [t]) && PathEnd(path + [t]) == t.to
  {
  }

  lemma StepTracksLog(d: Db, s: VersionStep)
    requires LogTracks(d) && FreshSchema(d) && VersionStepAllowed(d, s)
    ensures LogTracks(ApplyVersionStep(d, s))
  {
    hide Roomy, BetweenVersions, Injective, Substituted, Entries, IsPath, InstancesUnder, PinsType;
    var e := ApplyVersionStep(d, s);
    match s
    case CreateVersion(row, made, complete) =>
      if complete {
        hide LogTracks;
        OneMoreEntry(d, e, Transition(d.nextId, None, Development));
      } else {
        NoEntriesFor(d.log, d.nextId);
        assert IsPath([]) by {
          NothingIsPath();
        }
      }
    case MoveStage(cv, to) =>
      assert LogTracks(e) by {
        hide LogTracks;
        OneMoreEntry(d, e, Transition(cv, Some(d.versionSets[cv].stage), to));
      }
    case NewPin(pin) =>
    case DropPin(p) =>
    case MovePin(p, ver, insts, m) =>
  }

  lemma NothingIsPath()
    ensures IsPath([])
  {
  }

  // ---- the pins ----

  lemma StepKeepsPins(d: Db, s: VersionStep)
    requires PinsDistinct(d) && FreshSchema(d) && VersionStepAllowed(d, s) && InitialPinsDistinct(d, s)
    ensures PinsDistinct(ApplyVersionStep(d, s))
  {
    hide Roomy, Injective, Substituted, InstancesUnder, MayMove, FreshSchema, InitialPinsDistinct, PinsDistinct;
    match s
    case CreateVersion(row, made, complete) =>
      assert PinsDistinct(ApplyVersionStep(d, s)) by {
        forall p, q | p in ApplyVersionStep(d, s).pins && q in ApplyVersionStep(d, s).pins
                      && ApplyVersionStep(d, s).pins[p].cvId == ApplyVersionStep(d, s).pins[q].cvId
                      && SamePinned(ApplyVersionStep(d, s), p, q)
          ensures p == q
        {
          CreatedPinsDistinct(d, s, p, q);
        }
        IntroPinsDistinct(ApplyVersionStep(d, s));
      }
    case MoveStage(cv, to) => FewerPinsDistinct(d, ApplyVersionStep(d, s));
    case NewPin(pin) => NewPinDistinct(d, s);
    case DropPin(x) => FewerPinsDistinct(d, ApplyVersionStep(d, s));
    case MovePin(x, ver, insts, m) => MovedPinDistinct(d, ApplyVersionStep(d, s), x, ver);
  }

  lemma IntroPinsDistinct(e: Db)
    requires forall p, q :: p in e.pins && q in e.pins && e.pins[p].cvId == e.pins[q].cvId && SamePinned(e, p, q) ==> p == q
    ensures PinsDistinct(e)
  {
  }

  lemma FewerPinsDistinct(d: Db, e: Db)
    requires PinsDistinct(d) && e.versions == d.versions
    requires forall p :: p in e.pins ==> p in d.pins && e.pins[p] == d.pins[p]
    ensures PinsDistinct(e)
  {
    forall p, q | p in e.pins && q in e.pins && e.pins[p].cvId == e.pins[q].cvId && SamePinned(e, p, q)
      ensures p == q
    {
      assert SamePinned(d, p, q);
    }
  }

  lemma MovedPinDistinct(d: Db, e: Db, x: Id, ver: Id)
    requires PinsDistinct(d) && e.versions == d.versions
    requires x in d.pins && e.pins == d.pins[x := d.pins[x].(versionId := ver)]
    requires ver in d.versions && PinsType(d, x, d.versions[ver].typeId)
    ensures PinsDistinct(e)
  {
    forall p, q | p in e.pins && q in e.pins && e.pins[p].cvId == e.pins[q].cvId && SamePinned(e, p, q)
      ensures p == q
    {
      assert SamePinned(d, p, q);
    }
  }

  lemma NewPinDistinct(d: Db, s: VersionStep)
    requires s.NewPin? && PinsDistinct(d) && VersionStepAllowed(d, s)
    ensures PinsDistinct(ApplyVersionStep(d, s))
  {
    var e := ApplyVersionStep(d, s);
    forall p, q | p in e.pins && q in e.pins && e.pins[p].cvId == e.pins[q].cvId && SamePinned(e, p, q)
      ensures p == q
    {
      if p != d.nextId && q != d.nextId {
        assert SamePinned(d, p, q);
      }
    }
  }

  lemma CreatedPinsDistinct(d: Db, s: VersionStep, p: Id, q: Id)
    requires s.CreateVersion? && PinsDistinct(d) && FreshSchema(d) && VersionStepAllowed(d, s) && InitialPinsDistinct(d, s)
    requires p in ApplyVersionStep(d, s).pins && q in ApplyVersionStep(d, s).pins
    requires ApplyVersionStep(d, s).pins[p].cvId == ApplyVersionStep(d, s).pins[q].cvId
    requires SamePinned(ApplyVersionStep(d, s), p, q)
    ensures p == q
  {
    var first := d.nextId + 1;
    if p in d.pins && q in d.pins {
      assert SamePinned(d, p, q);
    } else if p !in d.pins && q !in d.pins {
      assert s.made[p - first] == s.made[q - first] ==> p == q;
      assert p < q ==> InitialPinsDistinct(d, s);
    }
  }

  function PinsOf(d: Db, cv: Id): map<Id, Pin> {
    map p | p in d.pins && d.pins[p].cvId == cv :: d.pins[p]
  }

  /** No step changes the pins of a production version. */
  lemma ProductionPinsStay(d: Db, s: VersionStep, cv: Id)
    requires FreshSchema(d) && VersionStepAllowed(d, s)
    requires cv in d.versionSets && d.versionSets[cv].stage.Production?
    ensures PinsOf(ApplyVersionStep(d, s), cv) == PinsOf(d, cv)
    ensures !(s.MoveStage? && s.cv == cv) ==>
              cv in ApplyVersionStep(d, s).versionSets && ApplyVersionStep(d, s).versionSets[cv] == d.versionSets[cv]
  {
    hide Roomy, BetweenVersions, Injective, Substituted, InstancesUnder, MayMove, PinsType, PinsOf, ResetCatalogs,
         ApplyVersionStep;
    StepVersions(d, s, cv);
    if s.CreateVersion? {
      assert d.nextId != cv;
    }
    PinsOfSame(d, ApplyVersionStep(d, s), cv);
  }

  /** The pins and stages a step leaves. */
  lemma StepVersions(d: Db, s: VersionStep, cv: Id)
    requires VersionStepAllowed(d, s)
    ensures var e := ApplyVersionStep(d, s);
            && (s.CreateVersion? ==> e.pins == WithPins(d.pins, d.nextId, d.nextId + 1, s.made))
            && (s.MoveStage? ==> e.pins == d.pins)
            && (s.NewPin? ==> e.pins == d.pins[d.nextId := s.pin])
            && (s.DropPin? ==> e.pins == d.pins - {s.id})
            && (s.MovePin? ==> e.pins == d.pins[s.id := d.pins[s.id].(versionId := s.version)])
            && (cv in d.versionSets && !(s.MoveStage? && s.cv == cv) && cv < d.nextId ==>
                  cv in e.versionSets && e.versionSets[cv] == d.versionSets[cv])
  {
    hide Roomy, Injective, Substituted, InstancesUnder, MayMove, PinsType, ResetCatalogs, WithPins;
  }

  lemma PinsOfSame(d: Db, e: Db, cv: Id)
    requires forall p :: p in e.pins && e.pins[p].cvId == cv <==> p in d.pins && d.pins[p].cvId == cv
    requires forall p :: p in d.pins && d.pins[p].cvId == cv && p in e.pins ==> e.pins[p] == d.pins[p]
    ensures PinsOf(e, cv) == PinsOf(d, cv)
  {
  }

  // ---- runs ----

  ghost predicate VersionRunAllowed(d: Db, run: seq<VersionStep>)
    decreases |run|
  {
    run == [] || (&& VersionStepAllowed(d, run[0]) && InitialPinsDistinct(d, run[0])
                  && VersionRunAllowed(ApplyVersionStep(d, run[0]), run[1..]))
  }

  ghost function ApplyVersionRun(d: Db, run: seq<VersionStep>): Db
    decreases |run|
  {
    if run == [] then d else ApplyVersionRun(ApplyVersionStep(d, run[0]), run[1..])
  }

  lemma StepStaysFresh(d: Db, s: VersionStep)
    requires FreshSchema(d) && VersionStepAllowed(d, s)
    ensures FreshSchema(ApplyVersionStep(d, s)) && d.nextId <= ApplyVersionStep(d, s).nextId
  {
    hide Roomy, BetweenVersions, Substituted, InstancesUnder, MayMove, PinsType;
  }

  lemma StepKeepsPlaces(d: Db, s: VersionStep)
    requires CatalogsPlaced(d)
    ensures CatalogsPlaced(ApplyVersionStep(d, s))
  {
    hide Substituted, Injective;
  }

  lemma VersionStepKeeps(d: Db, s: VersionStep)
    requires VersionInv(d) && FreshSchema(d) && VersionStepAllowed(d, s) && InitialPinsDistinct(d, s)
    ensures VersionInv(ApplyVersionStep(d, s)) && FreshSchema(ApplyVersionStep(d, s))
  {
    hide PinsDistinct, LogTracks, CatalogsPlaced, VersionStepAllowed, ApplyVersionStep, InitialPinsDistinct, FreshSchema;
    StepTracksLog(d, s);
    StepKeepsPins(d, s);
    StepStaysFresh(d, s);
    StepKeepsPlaces(d, s);
  }

  /** Over any run, each version's log is a path ending at its stage and its pins are of
      different entity types. */
  lemma {:induction false} VersionRunKeeps(d: Db, run: seq<VersionStep>)
    requires VersionInv(d) && FreshSchema(d) && VersionRunAllowed(d, run)
    ensures VersionInv(ApplyVersionRun(d, run)) && FreshSchema(ApplyVersionRun(d, run))
    decreases |run|
  {
    hide VersionInv, FreshSchema, VersionStepAllowed, ApplyVersionStep, InitialPinsDistinct;
    if run != [] {
      VersionStepKeeps(d, run[0]);
      VersionRunKeeps(ApplyVersionStep(d, run[0]), run[1..]);
    }
  }

  /** Until it is demoted, a production version keeps its pins, whatever else happens. */
  lemma {:induction false} ProductionIsFrozen(d: Db, run: seq<VersionStep>, cv: Id)
    requires FreshSchema(d) && VersionRunAllowed(d, run)
    requires cv in d.versionSets && d.versionSets[cv].stage.Production?
    requires forall k :: 0 <= k < |run| ==> !(run[k].MoveStage? && run[k].cv == cv)
    ensures PinsOf(ApplyVersionRun(d, run), cv) == PinsOf(d, cv)
    ensures cv in ApplyVersionRun(d, run).versionSets && ApplyVersionRun(d, run).versionSets[cv] == d.versionSets[cv]
    decreases |run|
  {
    hide FreshSchema, VersionStepAllowed, ApplyVersionStep, InitialPinsDistinct, PinsOf;
    if run != [] {
      ProductionPinsStay(d, run[0], cv);
      StepStaysFresh(d, run[0]);
      ProductionIsFrozen(ApplyVersionStep(d, run[0]), run[1..], cv);
    }
  }

  // ---- what catalogs see ----

  /** Two states in which a catalog looks the same. */
  ghost predicate LooksSame(d: Db, e: Db, c: Id) {
    && c in d.catalogs && c in e.catalogs && e.catalogs[c].cvId == d.catalogs[c].cvId
    && e.instances == d.instances && e.links == d.links && e.versions == d.versions
    && e.attributes == d.attributes && e.associations == d.associations && e.typeDefs == d.typeDefs
    && PinsOf(e, d.catalogs[c].cvId) == PinsOf(d, d.catalogs[c].cvId)
    && forall k: RowKey :: k.inst in d.instances && d.instances[k.inst].catalogId == c ==>
         (k in e.values <==> k in d.values) && (k in d.values ==> e.values[k] == d.values[k])
  }

  lemma SamePinsSeen(d: Db, e: Db, cv: Id, v: Id)
    requires PinsOf(e, cv) == PinsOf(d, cv)
    ensures Pin(cv, v) in e.pins.Values <==> Pin(cv, v) in d.pins.Values
  {
    if Pin(cv, v) in e.pins.Values {
      var p :| p in e.pins && e.pins[p] == Pin(cv, v);
      assert p in PinsOf(e, cv) && PinsOf(e, cv)[p] == Pin(cv, v);
    }
    if Pin(cv, v) in d.pins.Values {
      var p :| p in d.pins && d.pins[p] == Pin(cv, v);
      assert p in PinsOf(d, cv) && PinsOf(d, cv)[p] == Pin(cv, v);
    }
  }

  lemma LooksSameView(d: Db, e: Db, c: Id)
    requires LooksSame(d, e, c)
    ensures ViewOf(e, c) == ViewOf(d, c)
  {
    hide PinsOf;
    assert MembersOf(d, c) == MembersOf(e, c);
    assert CurrentRows(d, c) == CurrentRows(e, c);
    assert LinksTouching(d, c) == LinksTouching(e, c);
    forall v
      ensures Pin(d.catalogs[c].cvId, v) in e.pins.Values <==> Pin(d.catalogs[c].cvId, v) in d.pins.Values
    {
      SamePinsSeen(d, e, d.catalogs[c].cvId, v);
    }
    assert PinnedTypes(d, d.catalogs[c].cvId) == PinnedTypes(e, d.catalogs[c].cvId);
  }

  /** The catalog version whose pins a step changes. */
  function Changed(d: Db, s: VersionStep): Option<Id> {
    match s
    case NewPin(pin) => Some(pin.cvId)
    case DropPin(p) => if p in d.pins then Some(d.pins[p].cvId) else None
    case MovePin(p, _, _, _) => if p in d.pins then Some(d.pins[p].cvId) else None
    case _ => None
  }

  lemma RowsStay(values: Rows, insts: set<Id>, m: map<Id, Id>, k: RowKey)
    requires Injective(m) && k.inst !in insts
    ensures k in Substituted(values, insts, m) <==> k in values
    ensures k in values ==> Substituted(values, insts, m)[k] == values[k]
  {
    hide Substituted, Inverse, Injective;
    SubstitutedAt(values, insts, m, k);
  }

  /** A step shows only in the catalogs of the version whose pins it changes, and those go to draft. */
  lemma StepLooksSame(d: Db, s: VersionStep, c: Id)
    requires FreshSchema(d) && CatalogsPlaced(d) && VersionStepAllowed(d, s) && c in d.catalogs
    requires Changed(d, s) != Some(d.catalogs[c].cvId)
    ensures LooksSame(d, ApplyVersionStep(d, s), c)
  {
    hide Roomy, Injective, Substituted, MayMove, PinsType, ResetCatalogs, WithPins, PinsOf;
    var cv := d.catalogs[c].cvId;
    var e := ApplyVersionStep(d, s);
    assert c in ResetCatalogs(d.catalogs, if Changed(d, s).Some? then Changed(d, s).value else 0);
    CatalogAfterReset(d, s, c);
    OtherPinsStay(d, s, cv);
    if s.MovePin? {
      forall k: RowKey | k.inst in d.instances && d.instances[k.inst].catalogId == c
        ensures k in e.values <==> k in d.values
        ensures k in d.values ==> e.values[k] == d.values[k]
      {
        assert k.inst !in s.insts;
        RowsStay(d.values, s.insts, s.mapping, k);
      }
    }
  }

  lemma CatalogAfterReset(d: Db, s: VersionStep, c: Id)
    requires VersionStepAllowed(d, s) && c in d.catalogs
    ensures var e := ApplyVersionStep(d, s);
            && e.catalogs.Keys == d.catalogs.Keys
            && e.catalogs[c] == if Changed(d, s) == Some(d.catalogs[c].cvId) then d.catalogs[c].(status := Draft)
                                else d.catalogs[c]
  {
    hide Roomy, Injective, Substituted, MayMove, PinsType, WithPins, InstancesUnder;
  }

  lemma OtherPinsStay(d: Db, s: VersionStep, cv: Id)
    requires FreshSchema(d) && cv in d.versionSets && VersionStepAllowed(d, s) && Changed(d, s) != Some(cv)
    ensures PinsOf(ApplyVersionStep(d, s), cv) == PinsOf(d, cv)
  {
    hide VersionStepAllowed, ApplyVersionStep, PinsOf;
    StepVersions(d, s, cv);
    DropPinExists(d, s);
    PinsOfSame(d, ApplyVersionStep(d, s), cv);
  }

  lemma DropPinExists(d: Db, s: VersionStep)
    requires VersionStepAllowed(d, s)
    ensures s.DropPin? || s.MovePin? ==> s.id in d.pins
  {
  }

  lemma VersionStepKeepsData(d: Db, s: VersionStep)
    requires DataInv(d) && VersionStepAllowed(d, s)
    ensures DataInv(ApplyVersionStep(d, s))
  {
    hide FreshSchema, Roomy, Substituted, MayMove, PinsType, ResetCatalogs, WithPins, InstancesUnder, SameScope,
         ParentInside, Injective;
    StepStaysFresh(d, s);
    var e := ApplyVersionStep(d, s);
    if s.MovePin? {
      forall k | k in e.values
        ensures k.inst < d.nextId && (k.inst in d.instances ==> k.ver <= d.instances[k.inst].version)
      {
        SubstitutedComesFrom(d.values, s.insts, s.mapping, k);
      }
    }
    forall i | i in e.instances
      ensures ParentInside(e, i)
    {
      assert ParentInside(d, i);
      ParentStaysInside(d, e, i);
    }
  }

  lemma ParentStaysInside(d: Db, e: Db, i: Id)
    requires i in d.instances && ParentInside(d, i) && e.instances == d.instances && d.nextId <= e.nextId
    ensures ParentInside(e, i)
  {
  }

  lemma SubstitutedComesFrom(values: Rows, insts: set<Id>, m: map<Id, Id>, k: RowKey)
    requires Injective(m) && k in Substituted(values, insts, m)
    ensures exists j :: j in values && j.inst == k.inst && j.ver == k.ver
  {
    hide Substituted, Inverse, Injective;
    SubstitutedAt(values, insts, m, k);
    var j := Source(values, insts, Inverse(m), k);
    assert j in values && j.inst == k.inst && j.ver == k.ver;
  }

  /** Version and pin calls leave no stale "valid" behind. */
  lemma VersionStepNeverStale(d: Db, s: VersionStep, rules: Rules)
    requires FreshSchema(d) && CatalogsPlaced(d) && VersionStepAllowed(d, s) && NeverStale(d, rules)
    ensures NeverStale(ApplyVersionStep(d, s), rules)
  {
    hide FreshSchema, CatalogsPlaced, VersionStepAllowed, ViewOf, Conforms, ApplyVersionStep, NeverStale;
    var e := ApplyVersionStep(d, s);
    forall c | c in e.catalogs && e.catalogs[c].status.Valid?
      ensures c in d.catalogs && d.catalogs[c].status.Valid? && ViewOf(d, c) == ViewOf(e, c)
    {
      if c in d.catalogs {
        CatalogAfterReset(d, s, c);
        StepLooksSame(d, s, c);
        LooksSameView(d, e, c);
      } else {
        SameCatalogs(d, s);
      }
    }
    UnchangedStaysFresh(d, e, rules);
  }

  lemma SameCatalogs(d: Db, s: VersionStep)
    requires VersionStepAllowed(d, s)
    ensures ApplyVersionStep(d, s).catalogs.Keys == d.catalogs.Keys
  {
    hide Roomy, Injective, Substituted, MayMove, PinsType, WithPins, InstancesUnder, ResetCatalogs;
  }
}
