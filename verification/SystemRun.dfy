/** The whole store over any run: every call of every service is one move, and every move
    keeps the invariants and leaves no stale "valid" behind. */
module SystemRun {
  import opened Domain
  import opened Database
  import opened Conformance
  import opened Digraph
  import opened Forest
  import opened Revisions
  import opened DataSteps
  import opened BareCreate
  import opened Staleness
  import opened Instances
  import opened InstanceCalls
  import opened Migration
  import opened CatalogVersions
  import opened Catalogs
  import opened CatalogCopy
  import opened CopyIsomorphism
  import opened SchemaHistory
  import opened ValidForest
  import opened Validation
  import SchemaTypes
  import opened ImportCycles
  import opened ImportSafety

  /** One call: a validation, work on instances and links, on catalog versions and pins, on
      catalog records, a copy of a catalog, an edit of the schema, or the schema phase of an import
      under a new label. */
  datatype Move =
    | Validated(c: Id, verdict: Status)
    | DataWork(c: Id, steps: seq<DataStep>)
    | VersionWork(s: VersionStep)
    | CatalogWork(r: CatalogStep)
    | CatalogCopied(src: Id, k: Copy)
    | SchemaWork
    | SchemaBrought(p: Phase)

  /** Version ids that a caller names have been handed out. */
  ghost predicate KnownVersions(d: Db, s: VersionStep) {
    match s
    case CreateVersion(_, made, _) => forall k :: 0 <= k < |made| ==> made[k] < d.nextId
    case _ => true
  }

  ghost predicate Takes(d: Db, m: Move, e: Db, rules: Rules) {
    match m
    case Validated(c, verdict) =>
      && c in d.catalogs && e == WithStatus(d, c, verdict)
      && verdict == if Conforms(ViewOf(d, c), rules) then Valid else Invalid
    case DataWork(c, steps) => c in d.catalogs && StepsAllowed(d, c, steps) && e == DataCall(d, c, steps)
    case VersionWork(s) =>
      && VersionStepAllowed(d, s) && InitialPinsDistinct(d, s) && KnownVersions(d, s) && e == ApplyVersionStep(d, s)
    case CatalogWork(s) => CatalogStepAllowed(d, s) && e == ApplyCatalogStep(d, s)
    case CatalogCopied(src, k) =>
      && IsCopyOf(d, src, k) && !CopyClashes(d, src) && NameFree(d.catalogs, k.row.name) && e == WithCopy(d, k)
    case SchemaWork => SchemaStep(d, e)
    case SchemaBrought(p) => NewlyImported(d, e, p) && FileNamesApart(d, p.types) && Acyclic(ContainmentEdges(e))
  }

  ghost predicate Inv(d: Db) {
    && DataInv(d) && UniqueNames(d.catalogs) && Mirrors(d) && VersionInv(d) && PinsKnown(d) && SchemaInv(d)
  }

  lemma FreshParts(d: Db)
    requires DataInv(d)
    ensures FreshData(d) && FreshSchema(d)
  {
    hide FreshData, FreshSchema, RowsWithin, LinksInside, ParentsInside, UniqueScopes;
  }

  // ---- what moves leave alone ----

  /** The schema tables are those of before. */
  ghost predicate SchemaUntouched(d: Db, e: Db) {
    && e.types == d.types && e.versions == d.versions && e.attributes == d.attributes && e.associations == d.associations
    && e.typeDefs == d.typeDefs && d.nextId <= e.nextId
  }

  lemma UntouchedKeepsSchema(d: Db, e: Db)
    requires SchemaInv(d) && SchemaUntouched(d, e)
    ensures SchemaInv(e)
  {
    hide Acyclic, Numbered;
    SameEdges(d, e);
    SameNumbers(d, e);
  }

  /** The version tables are those of before. */
  ghost predicate VersionsUntouched(d: Db, e: Db) {
    e.versionSets == d.versionSets && e.pins == d.pins && e.log == d.log && d.nextId <= e.nextId
  }

  lemma UntouchedKeepsVersions(d: Db, e: Db)
    requires VersionInv(d) && PinsKnown(d) && VersionsUntouched(d, e) && e.versions == d.versions && CatalogsPlaced(e)
    ensures VersionInv(e) && PinsKnown(e)
  {
    hide Entries, CatalogsPlaced, SamePinned;
    forall p, q | p in e.pins && q in e.pins
      ensures SamePinned(e, p, q) == SamePinned(d, p, q)
    {
      SamePinnedSame(d, e, p, q);
    }
  }

  lemma SamePinnedSame(d: Db, e: Db, p: Id, q: Id)
    requires e.pins == d.pins && e.versions == d.versions && p in d.pins && q in d.pins
    ensures SamePinned(e, p, q) == SamePinned(d, p, q)
  {
  }

  /** Only statuses of catalogs may differ. */
  ghost predicate OnlyStatuses(d: Db, e: Db) {
    && e.catalogs.Keys == d.catalogs.Keys && e.resources == d.resources
    && forall c :: c in d.catalogs ==> e.catalogs[c] == d.catalogs[c].(status := e.catalogs[c].status)
  }

  lemma StatusesKeepCatalogs(d: Db, e: Db)
    requires UniqueNames(d.catalogs) && Mirrors(d) && CatalogsPlaced(d) && OnlyStatuses(d, e)
    requires forall cv :: cv in d.versionSets ==> cv in e.versionSets
    ensures UniqueNames(e.catalogs) && Mirrors(e) && CatalogsPlaced(e)
  {
    forall c | c in d.catalogs
      ensures e.catalogs[c].name == d.catalogs[c].name && e.catalogs[c].published == d.catalogs[c].published
      ensures e.catalogs[c].cvId == d.catalogs[c].cvId
    {
    }
    forall n | n in e.resources
      ensures Mirrored(e, n)
    {
      assert Mirrored(d, n);
    }
  }

  // ---- move by move ----

  lemma ValidatedKeeps(d: Db, c: Id, verdict: Status, rules: Rules)
    requires Inv(d) && c in d.catalogs && Takes(d, Validated(c, verdict), WithStatus(d, c, verdict), rules)
    ensures Inv(WithStatus(d, c, verdict))
    ensures NeverStale(d, rules) ==> NeverStale(WithStatus(d, c, verdict), rules)
  {
    hide DataInv, UniqueNames, Mirrors, VersionInv, PinsKnown, SchemaInv, Conforms, ViewOf;
    var e := WithStatus(d, c, verdict);
    StatusKeepsDataInv(d, c, verdict);
    UntouchedKeepsSchema(d, e);
    VersionParts(d);
    StatusesKeepCatalogs(d, e);
    UntouchedKeepsVersions(d, e);
    forall k | k in e.catalogs
      ensures ViewOf(e, k) == ViewOf(d, k)
    {
      StatusIsNotInTheView(d, c, verdict, k);
    }
  }

  lemma VersionParts(d: Db)
    requires VersionInv(d)
    ensures CatalogsPlaced(d)
  {
    hide CatalogsPlaced;
  }

  lemma DataWorkKeeps(d: Db, c: Id, steps: seq<DataStep>, rules: Rules)
    requires Inv(d) && c in d.catalogs && StepsAllowed(d, c, steps)
    ensures Inv(DataCall(d, c, steps))
    ensures NeverStale(d, rules) ==> NeverStale(DataCall(d, c, steps), rules)
  {
    hide DataInv, UniqueNames, Mirrors, VersionInv, PinsKnown, SchemaInv, NeverStale, StepsAllowed, ApplySteps, Elsewhere;
    var e := DataCall(d, c, steps);
    DataCallKeeps(d, c, steps, rules);
    StepsKeep(d, c, steps);
    ElsewhereTables(d, ApplySteps(d, steps), c);
    UntouchedKeepsSchema(d, e);
    VersionParts(d);
    StatusesKeepCatalogs(d, e);
    UntouchedKeepsVersions(d, e);
  }

  lemma ElsewhereTables(d: Db, e: Db, c: Id)
    requires Elsewhere(d, e, c)
    ensures SchemaUntouched(d, e) && VersionsUntouched(d, e) && e.catalogs == d.catalogs && e.resources == d.resources
  {
    hide MembersOf, CurrentRows, LinksTouching;
  }

  lemma VersionTables(d: Db, s: VersionStep)
    requires VersionStepAllowed(d, s)
    ensures SchemaUntouched(d, ApplyVersionStep(d, s)) && OnlyStatuses(d, ApplyVersionStep(d, s))
    ensures forall cv :: cv in d.versionSets ==> cv in ApplyVersionStep(d, s).versionSets
  {
    hide Roomy, Injective, Substituted, MayMove, PinsType, WithPins, InstancesUnder;
  }

  lemma VersionKeepsKnown(d: Db, s: VersionStep)
    requires PinsKnown(d) && VersionStepAllowed(d, s) && KnownVersions(d, s) && FreshSchema(d)
    ensures PinsKnown(ApplyVersionStep(d, s))
  {
    hide Roomy, Injective, Substituted, MayMove, PinsType, InstancesUnder, ResetCatalogs;
  }

  lemma VersionWorkKeeps(d: Db, s: VersionStep, rules: Rules)
    requires Inv(d) && Takes(d, VersionWork(s), ApplyVersionStep(d, s), rules)
    ensures Inv(ApplyVersionStep(d, s))
    ensures NeverStale(d, rules) ==> NeverStale(ApplyVersionStep(d, s), rules)
  {
    hide DataInv, UniqueNames, Mirrors, VersionInv, PinsKnown, SchemaInv, NeverStale, VersionStepAllowed, ApplyVersionStep,
         InitialPinsDistinct, KnownVersions, FreshData, FreshSchema;
    FreshParts(d);
    VersionParts(d);
    VersionTables(d, s);
    VersionStepKeeps(d, s);
    VersionStepKeepsData(d, s);
    VersionKeepsKnown(d, s);
    UntouchedKeepsSchema(d, ApplyVersionStep(d, s));
    StatusesKeepCatalogs(d, ApplyVersionStep(d, s));
    if NeverStale(d, rules) {
      VersionStepNeverStale(d, s, rules);
    }
  }

  lemma CatalogTables(d: Db, s: CatalogStep)
    requires CatalogStepAllowed(d, s)
    ensures SchemaUntouched(d, ApplyCatalogStep(d, s)) && VersionsUntouched(d, ApplyCatalogStep(d, s))
  {
    hide WithoutInstances, SwappedResources, Swapped, NameFree;
  }

  lemma CatalogWorkKeeps(d: Db, s: CatalogStep, rules: Rules)
    requires Inv(d) && CatalogStepAllowed(d, s)
    ensures Inv(ApplyCatalogStep(d, s))
    ensures NeverStale(d, rules) ==> NeverStale(ApplyCatalogStep(d, s), rules)
  {
    hide DataInv, UniqueNames, Mirrors, VersionInv, PinsKnown, SchemaInv, NeverStale, CatalogStepAllowed, ApplyCatalogStep,
         FreshData, FreshSchema;
    FreshParts(d);
    VersionParts(d);
    CatalogTables(d, s);
    StepKeepsNames(d, s);
    StepKeepsMirror(d, s);
    StepKeepsData(d, s);
    StepKeepsPlaced(d, s);
    UntouchedKeepsSchema(d, ApplyCatalogStep(d, s));
    UntouchedKeepsVersions(d, ApplyCatalogStep(d, s));
    if NeverStale(d, rules) {
      CatalogStepNeverStale(d, s, rules);
    }
  }

  lemma CopyKeepsRecords(d: Db, src: Id, k: Copy)
    requires IsCopyOf(d, src, k) && NameFree(d.catalogs, k.row.name) && FreshData(d)
    requires UniqueNames(d.catalogs) && Mirrors(d) && CatalogsPlaced(d)
    ensures UniqueNames(WithCopy(d, k).catalogs) && Mirrors(WithCopy(d, k)) && CatalogsPlaced(WithCopy(d, k))
    ensures SchemaUntouched(d, WithCopy(d, k)) && VersionsUntouched(d, WithCopy(d, k))
  {
    hide CopiesInstances, CopiesRows, CopiesLinks, MembersOf;
    var e := WithCopy(d, k);
    forall n | n in e.resources
      ensures Mirrored(e, n)
    {
      assert Mirrored(d, n);
    }
  }

  lemma CatalogCopiedKeeps(d: Db, src: Id, k: Copy, rules: Rules)
    requires Inv(d) && IsCopyOf(d, src, k) && !CopyClashes(d, src) && NameFree(d.catalogs, k.row.name)
    ensures Inv(WithCopy(d, k))
    ensures NeverStale(d, rules) ==> NeverStale(WithCopy(d, k), rules)
  {
    hide DataInv, UniqueNames, Mirrors, VersionInv, PinsKnown, SchemaInv, NeverStale, IsCopyOf, WithCopy, CopyClashes,
         NameFree, FreshData, FreshSchema, CatalogsPlaced;
    FreshParts(d);
    VersionParts(d);
    CopyKeeps(d, src, k, rules);
    CopyKeepsRecords(d, src, k);
    UntouchedKeepsSchema(d, WithCopy(d, k));
    UntouchedKeepsVersions(d, WithCopy(d, k));
  }

  lemma GrowthKeeps(d: Db, e: Db, ver: Id)
    requires SchemaGrows(d, e, ver) && DataInv(d) && FreshSchema(e) && UniqueNames(d.catalogs) && Mirrors(d)
    requires VersionInv(d) && PinsKnown(d)
    ensures DataInv(e) && UniqueNames(e.catalogs) && Mirrors(e) && VersionInv(e) && PinsKnown(e)
  {
    hide FreshSchema, SameScope, ParentInside, Entries, AssociationsExtend, SamePinned;
    forall i | i in e.instances
      ensures ParentInside(e, i)
    {
      assert ParentInside(d, i);
      ParentStaysInside(d, e, i);
    }
    forall n | n in e.resources
      ensures Mirrored(e, n)
    {
      assert Mirrored(d, n);
    }
    FreshParts(d);
    forall p, q | p in e.pins && q in e.pins
      ensures SamePinned(e, p, q) ==> SamePinned(d, p, q)
    {
      GrownPins(d, e, ver, p, q);
    }
  }

  lemma GrownPins(d: Db, e: Db, ver: Id, p: Id, q: Id)
    requires SchemaGrows(d, e, ver) && PinsKnown(d) && p in d.pins && q in d.pins
    ensures SamePinned(e, p, q) ==> SamePinned(d, p, q)
  {
    hide AssociationsExtend;
  }

  lemma SchemaWorkKeeps(d: Db, e: Db, rules: Rules)
    requires Inv(d) && SchemaStep(d, e)
    ensures Inv(e) && (NeverStale(d, rules) ==> NeverStale(e, rules))
  {
    hide DataInv, UniqueNames, Mirrors, VersionInv, PinsKnown, SchemaInv, NeverStale, SchemaStep, FreshData, FreshSchema,
         SchemaGrows;
    FreshParts(d);
    SchemaStepKeeps(d, e);
    var ver := SchemaStepGrows(d, e);
    GrowthKeeps(d, e, ver);
    if NeverStale(d, rules) {
      SchemaStepNeverStale(d, e, rules);
    }
  }

  lemma SchemaBroughtKeeps(d: Db, p: Phase, e: Db, rules: Rules)
    requires Inv(d) && NewlyImported(d, e, p) && FileNamesApart(d, p.types) && Acyclic(ContainmentEdges(e))
    ensures Inv(e) && (NeverStale(d, rules) ==> NeverStale(e, rules))
  {
    hide DataInv, UniqueNames, Mirrors, PinsKnown, Numbered, SharedNames, UniqueTypeNames, Acyclic, PinsDistinct,
         LogTracks, NeverStale, NewlyImported, FileNamesApart, FreshData, FreshSchema, ContainmentEdges,
         UniqueAttributeNames, UniqueAssociationNames;
    FreshParts(d);
    NewIsBrought(d, e, p);
    ImportKeepsData(d, e, p);
    ImportKeepsNumbers(d, e, p);
    ImportKeepsNamesIff(d, e, p);
    ImportKeepsPins(d, e, p);
    ImportKeepsKnownPins(d, e, p);
    ImportKeepsLog(d, e, p);
    ImportKeepsRecords(d, e, p);
    if NeverStale(d, rules) {
      ImportNeverStale(d, e, p, rules);
    }
  }

  lemma MoveKeeps(d: Db, m: Move, e: Db, rules: Rules)
    requires Inv(d) && Takes(d, m, e, rules)
    ensures Inv(e) && (NeverStale(d, rules) ==> NeverStale(e, rules))
  {
    hide Inv, NeverStale, Conforms, ViewOf, StepsAllowed, VersionStepAllowed, CatalogStepAllowed, SchemaStep, IsCopyOf,
         CopyClashes, NewlyImported, FileNamesApart, ContainmentEdges, Acyclic, WithStatus, DataCall, ApplyVersionStep, ApplyCatalogStep, WithCopy, InitialPinsDistinct, KnownVersions;
    match m
    case Validated(c, verdict) => ValidatedKeeps(d, c, verdict, rules);
    case DataWork(c, steps) => DataWorkKeeps(d, c, steps, rules);
    case VersionWork(s) => VersionWorkKeeps(d, s, rules);
    case CatalogWork(s) => CatalogWorkKeeps(d, s, rules);
    case CatalogCopied(src, k) => CatalogCopiedKeeps(d, src, k, rules);
    case SchemaWork => SchemaWorkKeeps(d, e, rules);
    case SchemaBrought(p) => SchemaBroughtKeeps(d, p, e, rules);
  }

  // ---- runs ----

  ghost predicate Run(states: seq<Db>, moves: seq<Move>, rules: Rules) {
    |states| == |moves| + 1 && forall k :: 0 <= k < |moves| ==> Takes(states[k], moves[k], states[k + 1], rules)
  }

  /** In every state of every run that starts sound, the invariants hold and a catalog marked
      valid conforms to the schema it pins, now. */
  lemma {:induction false} RunKeeps(states: seq<Db>, moves: seq<Move>, rules: Rules, k: nat)
    requires Run(states, moves, rules) && Inv(states[0]) && NeverStale(states[0], rules) && k < |states|
    ensures Inv(states[k]) && NeverStale(states[k], rules)
  {
    hide Inv, NeverStale, Takes;
    if k > 0 {
      RunKeeps(states, moves, rules, k - 1);
      MoveKeeps(states[k - 1], moves[k - 1], states[k], rules);
    }
  }

  // ---- imports ----

  /** The tables are as an import asks for them. */
  lemma SoundForImport(d: Db)
    requires Inv(d)
    ensures SchemaTypes.Sound(d) && FreshData(d) && LinksInside(d)
  {
    hide UniqueNames, Mirrors, VersionInv, PinsKnown, SharedNames, UniqueTypeNames, Acyclic, ContainmentEdges, RowsWithin,
         ParentsInside, UniqueScopes, FreshSchema, FreshData, LinksInside, UniqueAttributeNames, UniqueAssociationNames;
  }

  lemma SchemaPartsOf(d: Db)
    requires SchemaInv(d)
    ensures SharedNames(d) && Acyclic(ContainmentEdges(d))
  {
    hide Numbered, UniqueAttributeNames, UniqueAssociationNames, SharedNames, UniqueTypeNames, Acyclic, ContainmentEdges;
  }

  /** Under a new label the schema phase keeps the invariants exactly when the types of the file
      that did not exist contain each other without a cycle and keep their names apart. No catalog
      that was there becomes stale. */
  lemma ImportKeepsIff(d: Db, e: Db, p: Phase, rules: Rules)
    requires Inv(d) && TargetsKnownIn(d) && NewlyImported(d, e, p)
    ensures Inv(e) <==> Acyclic(FileEdges(d, p.types)) && FileNamesApart(d, p.types)
    ensures NeverStale(d, rules) ==> NeverStale(e, rules)
  {
    hide DataInv, UniqueNames, Mirrors, PinsKnown, Acyclic, SchemaInv, VersionInv, NeverStale, FileNamesApart, FreshData, FreshSchema,
         ContainmentEdges, FileEdges, TargetsKnownIn, SchemaTypes.Sound, SharedNames, NewlyImported, LinksInside;
    SoundForImport(d);
    FreshParts(d);
    SchemaPartsOf(d);
    VersionParts(d);
    NewIsBrought(d, e, p);
    ClosesNoCycleIff(d, e, p);
    ImportKeepsNamesIff(d, e, p);
    if Acyclic(FileEdges(d, p.types)) && FileNamesApart(d, p.types) {
      SchemaBroughtKeeps(d, p, e, rules);
    }
    if SchemaInv(e) {
      SchemaPartsOf(e);
    }
    if NeverStale(d, rules) {
      ImportNeverStale(d, e, p, rules);
    }
  }

  /** The data phase is the creation of a catalog and work on its instances. */
  lemma DataPhaseIsTwoMoves(d: Db, e: Db, row: Catalog, rules: Rules) returns (steps: seq<DataStep>)
    requires CatalogStepAllowed(d, NewCatalog(row)) && Worked(ApplyCatalogStep(d, NewCatalog(row)), e, d.nextId)
    requires DataInv(d)
    ensures Takes(d, CatalogWork(NewCatalog(row)), ApplyCatalogStep(d, NewCatalog(row)), rules)
    ensures Takes(ApplyCatalogStep(d, NewCatalog(row)), DataWork(d.nextId, steps), e, rules)
  {
    hide DataInv, NameFree, StepsAllowed, ApplySteps, Elsewhere;
    var v := ApplyCatalogStep(d, NewCatalog(row));
    steps :| StepsAllowed(v, d.nextId, steps) && ApplySteps(v, steps) == e;
    StepKeepsData(d, NewCatalog(row));
    StepsKeep(v, d.nextId, steps);
    ElsewhereTables(v, e, d.nextId);
    assert WithStatus(e, d.nextId, Draft) == e;
  }

  /** An import under a new label that closes no cycle and mixes no names is three moves of a run:
      its schema, its catalog, its instances. */
  lemma ImportIsARun(d: Db, mid: Db, e: Db, p: Phase, row: Catalog, rules: Rules) returns (states: seq<Db>, moves: seq<Move>)
    requires Inv(d) && NewlyImported(d, mid, p) && FileNamesApart(d, p.types) && Acyclic(ContainmentEdges(mid))
    requires row.cvId == p.cv && row.status.Draft? && !row.published && NameFree(d.catalogs, row.name)
    requires Worked(ApplyCatalogStep(mid, NewCatalog(row)), e, mid.nextId)
    ensures Run(states, moves, rules) && |moves| == 3 && states[0] == d && states[1] == mid && states[3] == e
    ensures Inv(e) && (NeverStale(d, rules) ==> NeverStale(e, rules))
  {
    hide Inv, NeverStale, NewlyImported, FileNamesApart, Acyclic, ContainmentEdges, NameFree, Worked, DataInv, ApplyCatalogStep;
    RecordsAfter(d, mid, p);
    MoveKeeps(d, SchemaBrought(p), mid, rules);
    DataPart(mid);
    var steps := DataPhaseIsTwoMoves(mid, e, row, rules);
    var v := ApplyCatalogStep(mid, NewCatalog(row));
    MoveKeeps(mid, CatalogWork(NewCatalog(row)), v, rules);
    MoveKeeps(v, DataWork(mid.nextId, steps), e, rules);
    states, moves := [d, mid, v, e], [SchemaBrought(p), CatalogWork(NewCatalog(row)), DataWork(mid.nextId, steps)];
    RunOfThree(states, moves, rules);
  }

  lemma DataPart(d: Db)
    requires Inv(d)
    ensures DataInv(d)
  {
    hide DataInv, UniqueNames, Mirrors, VersionInv, PinsKnown, SchemaInv;
  }

  lemma RunOfThree(states: seq<Db>, moves: seq<Move>, rules: Rules)
    requires |states| == 4 && |moves| == 3
    requires Takes(states[0], moves[0], states[1], rules) && Takes(states[1], moves[1], states[2], rules)
    requires Takes(states[2], moves[2], states[3], rules)
    ensures Run(states, moves, rules)
  {
    hide Takes;
  }

  // ---- lookups by name ----

  /** Every pin is of a version that exists. */
  ghost predicate PinsExist(d: Db) {
    forall p :: p in d.pins ==> d.pins[p].versionId in d.versions
  }

  /** The versions that a new catalog version is made with exist: the call does not look. */
  ghost predicate PinsWhatExists(d: Db, m: Move) {
    m.VersionWork? && m.s.CreateVersion? ==> forall k :: 0 <= k < |m.s.made| ==> m.s.made[k] in d.versions
  }

  lemma MoveKeepsPins(d: Db, m: Move, e: Db, rules: Rules)
    requires Inv(d) && PinsExist(d) && Takes(d, m, e, rules) && PinsWhatExists(d, m)
    ensures PinsExist(e)
  {
    hide DataInv, UniqueNames, Mirrors, VersionInv, PinsKnown, SchemaInv, Conforms, ViewOf, StepsAllowed, CatalogStepAllowed,
         IsCopyOf, CopyClashes, ApplySteps, ApplyCatalogStep, VersionStepAllowed, ApplyVersionStep, InitialPinsDistinct,
         KnownVersions, SchemaStep, Elsewhere, FreshSchema, FreshData, AssociationsExtend, NewlyImported, FileNamesApart,
         ContainmentEdges, Acyclic;
    match m
    case Validated(c, verdict) =>
    case DataWork(c, steps) =>
      StepsKeep(d, c, steps);
      ElsewhereTables(d, ApplySteps(d, steps), c);
    case VersionWork(s) => VersionStepKeepsPins(d, s);
    case CatalogWork(s) => CatalogTables(d, s);
    case CatalogCopied(src, k) =>
    case SchemaWork =>
      FreshParts(d);
      var ver := SchemaStepGrows(d, e);
    case SchemaBrought(p) => ImportKeepsKnownPins(d, e, p);
  }

  lemma VersionStepKeepsPins(d: Db, s: VersionStep)
    requires PinsExist(d) && VersionStepAllowed(d, s) && PinsWhatExists(d, VersionWork(s))
    ensures PinsExist(ApplyVersionStep(d, s))
  {
    hide Roomy, Injective, Substituted, MayMove, PinsType, InstancesUnder, ResetCatalogs;
  }

  /** In every state of every run whose new catalog versions pin existing versions, a
      name leads to one row: what the calls by name promise "exactly when" holds. */
  lemma {:induction false} RunIsUnambiguous(states: seq<Db>, moves: seq<Move>, rules: Rules, k: nat)
    requires Run(states, moves, rules) && Inv(states[0]) && NeverStale(states[0], rules) && PinsExist(states[0])
    requires forall j :: 0 <= j < |moves| ==> PinsWhatExists(states[j], moves[j])
    requires k < |states|
    ensures PinsExist(states[k]) && Unambiguous(states[k])
  {
    hide Inv, NeverStale, Takes, PinsExist, PinsWhatExists;
    RunKeeps(states, moves, rules, k);
    if k > 0 {
      RunKeeps(states, moves, rules, k - 1);
      RunIsUnambiguous(states, moves, rules, k - 1);
      MoveKeepsPins(states[k - 1], moves[k - 1], states[k], rules);
    }
    SoundIsUnambiguous(states[k]);
  }

  lemma SoundIsUnambiguous(d: Db)
    requires Inv(d) && PinsExist(d)
    ensures Unambiguous(d)
  {
    hide DataInv, Mirrors, PinsKnown, Numbered, Acyclic, ContainmentEdges, SharedNames, LogTracks, CatalogsPlaced;
  }

  /** So validation can always be called, and what is marked valid is a forest. */
  lemma MarkedValidIsForest(states: seq<Db>, moves: seq<Move>, rules: Rules, k: nat, c: Id, i: Id)
    requires Run(states, moves, rules) && Inv(states[0]) && NeverStale(states[0], rules) && k < |states|
    requires c in states[k].catalogs && states[k].catalogs[c].status.Valid?
    ensures Acyclic(ParentEdges(MembersOf(states[k], c)))
    ensures i in MembersOf(states[k], c) ==> RootReached(MembersOf(states[k], c), i)
    ensures UniquePins(ViewOf(states[k], c))
  {
    hide Run, Takes, Conforms, DataInv, UniqueNames, Mirrors, PinsKnown, SchemaInv, ViewOf, Acyclic, RootReached, UniquePins,
         PinsDistinct, LogTracks, CatalogsPlaced;
    RunKeeps(states, moves, rules, k);
    ValidMeansForest(states[k], c, rules, i);
    DistinctPinsAreUnique(states[k], c);
  }

  /** So no descent from an instance of a catalog marked valid comes back to it, which is what
      deleting it asks of the whole table. */
  lemma MarkedValidMayBeDeleted(states: seq<Db>, moves: seq<Move>, rules: Rules, k: nat, c: Id, i: Id)
    requires Run(states, moves, rules) && Inv(states[0]) && NeverStale(states[0], rules) && k < |states|
    requires c in states[k].catalogs && states[k].catalogs[c].status.Valid?
    requires i in states[k].instances && states[k].instances[i].catalogId == c
    ensures OffCycle(states[k].instances, i)
  {
    hide Run, Inv, NeverStale, Acyclic, RootReached, OffCycle, UniquePins;
    MarkedValidIsForest(states, moves, rules, k, c, i);
    RootReachedInLarger(MembersOf(states[k], c), states[k].instances, i);
    RootedIsOffCycle(states[k].instances, i);
  }

  lemma DistinctPinsAreUnique(d: Db, c: Id)
    requires PinsDistinct(d) && c in d.catalogs
    ensures UniquePins(ViewOf(d, c))
  {
    var cv := d.catalogs[c].cvId;
    var v := ViewOf(d, c);
    forall x, y | x in v.pinned && y in v.pinned && v.pinned[x] == v.pinned[y]
      ensures x == y
    {
      var p :| p in d.pins && d.pins[p] == Pin(cv, x);
      var q :| q in d.pins && d.pins[q] == Pin(cv, y);
      assert SamePinned(d, p, q);
    }
  }

  /** The empty store is a place to start. */
  lemma EmptyStoreIsSound(rules: Rules)
    ensures var d := Db(map[], map[], map[], map[], map[], map[], [], map[], map[], map[], map[], map[], map[], 0);
            Inv(d) && NeverStale(d, rules) && PinsExist(d)
  {
    hide DataInv, Mirrors, UniqueNames, SchemaInv, VersionInv;
    var d := Db(map[], map[], map[], map[], map[], map[], [], map[], map[], map[], map[], map[], map[], 0);
    EmptySchemaIsSound(d);
    EmptyDataIsSound(d);
  }

  lemma EmptyDataIsSound(d: Db)
    requires d == Db(map[], map[], map[], map[], map[], map[], [], map[], map[], map[], map[], map[], map[], 0)
    ensures DataInv(d) && Mirrors(d) && UniqueNames(d.catalogs) && VersionInv(d)
  {
  }

  lemma EmptySchemaIsSound(d: Db)
    requires d == Db(map[], map[], map[], map[], map[], map[], [], map[], map[], map[], map[], map[], map[], 0)
    ensures SchemaInv(d)
  {
    assert ContainmentEdges(d) == {};
    AcyclicMeansNoReturn({});
  }

  // ---- the call that breaks it ----

  /** A creation refused after its row was stored leaves no stale "valid" exactly when its
      catalog was not marked valid, or the bare row fits into it: a condition on the store before
      the call. */
  lemma FailedCreateNeverStaleIff(d: Db, row: Instance, rules: Rules)
    requires Inv(d) && NeverStale(d, rules)
    requires row.catalogId in d.catalogs && StepAllowed(d, row.catalogId, Insert(row, map[]))
    ensures var e := ApplyStep(d, Insert(row, map[]));
            && DataInv(e) && row.catalogId in e.catalogs
            && (NeverStale(e, rules) <==>
                  (d.catalogs[row.catalogId].status.Valid? ==> BareFits(ViewOf(d, row.catalogId), rules, row)))
  {
    hide DataInv, UniqueNames, Mirrors, VersionInv, PinsKnown, SchemaInv, Conforms, ViewOf, ApplyStep, StepAllowed, Elsewhere,
         BareFits, OneMore;
    var c := row.catalogId;
    var e := ApplyStep(d, Insert(row, map[]));
    StepKeeps(d, c, Insert(row, map[]));
    ElsewhereTables(d, e, c);
    forall k | k in e.catalogs && k != c
      ensures ViewOf(e, k) == ViewOf(d, k)
    {
      ElsewhereKeepsViews(d, e, c, k);
    }
    BareInsertIsOneMore(d, row);
    if d.catalogs[c].status.Valid? {
      ConformsWithOneMore(ViewOf(d, c), ViewOf(e, c), rules, d.nextId, row);
    }
  }

  /** A valid, empty catalog whose one entity type has a required number. */
  ghost const BEFORE_FAILURE := Db(
    map[7 := Catalog("c", "", 3, Valid, false)],
    map[], map[], map[], map[3 := CatalogVersion("v", Development)],
    map[4 := Pin(3, 11)], [Transition(3, None, Development)],
    map[10 := "T"], map[11 := TypeVersion(10, 1, "")],
    map[50 := Attribute(11, "size", "", 60, 0, true)],
    map[], map[60 := TypeInfo(IntegerT, Constraints(false, {}, None, None, None, None, None))], map[], 100)

  const REFUSED_ROW := Instance(10, 7, None, "a", "", 1)

  ghost const AFTER_FAILURE := BEFORE_FAILURE.(instances := map[100 := REFUSED_ROW], nextId := 101)

  /** Creating an instance with a truth value for the number is refused after the row is stored:
      the catalog stays marked valid and does not conform. */
  lemma FailedCreateCanGoStale(codec: Codec, rules: Rules)
    ensures NeverStale(BEFORE_FAILURE, rules) && !NeverStale(AFTER_FAILURE, rules)
    ensures CreateFailed(BEFORE_FAILURE, AFTER_FAILURE, codec, map["size" := JBool(true)], REFUSED_ROW)
  {
    hide Conforms, ViewOf, Refused, WithRows, Violates;
    BeforeFailureConforms(rules);
    SizeMissing(rules);
    ConformsMeansNoFindings(ViewOf(AFTER_FAILURE, 7), rules);
    assert AFTER_FAILURE.catalogs[7].status.Valid?;
    TruthIsRefused(codec);
    BareRowWritten();
    assert NotInserted(BEFORE_FAILURE, AFTER_FAILURE, codec, 11, REFUSED_ROW, map["size" := JBool(true)]);
  }

  lemma BareRowWritten()
    ensures ApplyStep(BEFORE_FAILURE, Insert(REFUSED_ROW, map[])) == AFTER_FAILURE
  {
    assert WithRows(map[], 100, 1, map[]) == map[];
  }

  lemma TruthIsRefused(codec: Codec)
    ensures Refused(BEFORE_FAILURE, codec, 11, map["size" := JBool(true)])
  {
    var d := BEFORE_FAILURE;
    var s := Schema(d.attributes, d.typeDefs, 11);
    assert InSchema(s, 50) && BaseOf(s, 50) == IntegerT;
    assert forall a :: InSchema(s, a) ==> a == 50;
    var input := map["size" := JBool(true)];
    assert "size" in input && input["size"] == JBool(true);
    assert SchemaResolves(s) ==> !EntryAccepted(codec, s, "size", JBool(true));
  }

  lemma BeforeFailureConforms(rules: Rules)
    ensures NeverStale(BEFORE_FAILURE, rules)
  {
    hide Conforms;
    forall c | c in BEFORE_FAILURE.catalogs
      ensures Conforms(ViewOf(BEFORE_FAILURE, c), rules)
    {
      assert MembersOf(BEFORE_FAILURE, c) == map[];
      EmptyCatalogConforms(ViewOf(BEFORE_FAILURE, c), rules);
    }
  }

  lemma SizeMissing(rules: Rules)
    ensures 7 in AFTER_FAILURE.catalogs && Violates(ViewOf(AFTER_FAILURE, 7), rules, MissingValue(100, 50))
  {
    hide BrokenRules, WithinType;
    var e := AFTER_FAILURE;
    assert e.pins[4] == Pin(3, 11);
    var v := ViewOf(e, 7);
    assert v.pinned == map[11 := 10];
    assert v.members[100] == REFUSED_ROW;
    assert AttributeOf(v, 50, 100);
  }
}
