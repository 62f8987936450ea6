/** What the schema phase of an import keeps when it makes a new catalog version: every invariant,
    two of them on conditions that the file tells, and what every catalog shows. */
module ImportSafety {
  import opened Domain
  import opened Database
  import opened Conformance
  import opened Digraph
  import opened DataSteps
  import opened Staleness
  import opened Instances
  import opened CatalogVersions
  import opened Catalogs
  import opened SchemaHistory
  import opened CopyOnWrite
  import opened TypeCalls
  import opened CatalogVersionCalls
  import opened ImportNodes
  import opened RoundTrip
  import opened SchemaExport
  import opened SchemaMatch
  import opened SchemaTypes
  import opened SchemaLinks
  import opened SchemaImport
  import opened ImportCycles

  /** One schema phase: what it was given and what it handed over. */
  datatype Phase = Phase(
    defs: DefNames, types: seq<ExportType>, reuse: set<string>, text: string, cv: Id, g: Target, created: set<string>)

  /** The phase has succeeded, on a file whose types are told apart by name. */
  ghost predicate Brought(d: Db, e: Db, p: Phase) {
    SchemaImported(d, e, p.defs, p.types, p.reuse, p.text, p.cv, p.g, p.created) && TypeNamesDiffer(p.types)
  }

  /** The phase has succeeded under a new label. */
  ghost predicate NewlyImported(d: Db, e: Db, p: Phase) {
    SchemaImported(d, e, p.defs, p.types, p.reuse, p.text, p.cv, p.g, p.created) && p.text !in p.reuse
  }

  /** Under a new label success implies that the names differ. */
  lemma NewIsBrought(d: Db, e: Db, p: Phase)
    requires NewlyImported(d, e, p)
    ensures Brought(d, e, p)
  {
    hide Sound, Settled, SchemaAdded, OldIsFrozen, TypeNamesDiffer, PinsDone, AllLinked, LabelTaken, NameOf, TypeNamed;
  }

  lemma BroughtFacts(d: Db, e: Db, p: Phase)
    requires Brought(d, e, p)
    ensures Sound(e) && Settled(e, p.g) && SchemaAdded(d, e) && OldIsFrozen(d, e) && TypeNamesDiffer(p.types)
    ensures PinsDone(d.pins, e.pins, p.cv, p.text !in p.reuse, d.nextId, p.g)
    ensures p.text in p.reuse ==> p.cv in d.versionSets && e.versionSets == d.versionSets
  {
    hide Sound, Settled, SchemaAdded, OldIsFrozen, TypeNamesDiffer, PinsDone, AllLinked, LabelTaken, NameOf, TypeNamed, Covers;
  }

  lemma PhaseFacts(d: Db, e: Db, p: Phase)
    requires NewlyImported(d, e, p)
    ensures Sound(e) && Settled(e, p.g) && SchemaAdded(d, e) && OldIsFrozen(d, e)
    ensures TypeNamesDiffer(p.types) && p.cv >= d.nextId && PinsDone(d.pins, e.pins, p.cv, true, d.nextId, p.g)
    ensures e.versionSets == d.versionSets[p.cv := CatalogVersion(p.text, Development)]
  {
    hide Sound, Settled, SchemaAdded, OldIsFrozen, TypeNamesDiffer, PinsDone, AllLinked, LabelTaken, NameOf, TypeNamed;
  }

  /** A new version is the first of a type of the file, with what the file says. */
  lemma NewVersionOfFile(d: Db, e: Db, p: Phase, v: Id) returns (x: nat)
    requires Brought(d, e, p) && v in e.versions && v !in d.versions
    ensures x < |p.types| && !TypeNamed(d, p.types[x].name) && e.versions[v].version == 1
    ensures AttributesShown(e, p.defs, v, p.types[x].attributes) && AssociationsShown(e, v, p.types[x].associations)
  {
    hide Sound, Settled, SchemaAdded, OldIsFrozen, PinsDone, LabelTaken, TypeNamed, AttributesShown, AssociationsShown, Identical,
         IsLatest, TypeNamesDiffer;
    BroughtFacts(d, e, p);
    assert OfCreated(p.g, p.created, v);
    var n :| n in p.created && n in p.g.versionIds && p.g.versionIds[n] == v;
    assert NameOf(p.types, n);
    x :| x < |p.types| && p.types[x].name == n;
    assert Standing(e, p.defs, p.reuse, p.g, p.created, p.types[x], x < |p.types|);
  }

  /** And a type of the file that is new has such a version. */
  lemma FileHasNewVersion(d: Db, e: Db, p: Phase, x: nat) returns (v: Id)
    requires FreshSchema(d) && Brought(d, e, p) && x < |p.types| && !TypeNamed(d, p.types[x].name)
    ensures v in e.versions && v !in d.versions
    ensures AttributesShown(e, p.defs, v, p.types[x].attributes) && AssociationsShown(e, v, p.types[x].associations)
  {
    hide Sound, Settled, OldIsFrozen, PinsDone, LabelTaken, TypeNamed, AttributesShown, AssociationsShown, Identical, TypeNamesDiffer,
         SchemaAdded, FreshSchema;
    BroughtFacts(d, e, p);
    var n := p.types[x].name;
    assert NameOf(p.types, n);
    SettledNames(e, p.g, n);
    CreatedIsNew(d, e, p.g, n);
    v := p.g.versionIds[n];
    FreshVersionIds(d);
    assert Standing(e, p.defs, p.reuse, p.g, p.created, p.types[x], x < |p.types|);
  }

  lemma FreshVersionIds(d: Db)
    requires FreshSchema(d)
    ensures forall v :: v in d.versions ==> v < d.nextId
  {
  }

  // ---- numbers ----

  lemma ImportKeepsNumbers(d: Db, e: Db, p: Phase)
    requires Numbered(d) && Brought(d, e, p)
    ensures Numbered(e)
  {
    hide Brought, SchemaAdded, OldIsFrozen, Settled, PinsDone, TypeNamesDiffer;
    BroughtFacts(d, e, p);
    NumbersAreUnique(e);
    OldVersionsStay(d, e);
    forall v | v in e.versions && v !in d.versions
      ensures e.versions[v].version == 1
    {
      var x := NewVersionOfFile(d, e, p, v);
    }
    forall v, k: nat | v in e.versions && 1 <= k <= e.versions[v].version
      ensures HasVersion(e, e.versions[v].typeId, k)
    {
      if v in d.versions {
        assert HasVersion(d, d.versions[v].typeId, k);
        var w :| w in d.versions && d.versions[w].typeId == d.versions[v].typeId && d.versions[w].version == k;
        assert w in e.versions && e.versions[w] == d.versions[w];
      }
    }
  }

  lemma NumbersAreUnique(e: Db)
    requires Sound(e)
    ensures UniqueNumbers(e) && UniqueAttributeNames(e.attributes) && UniqueAssociationNames(e.associations) && UniqueTypeNames(e)
    ensures FreshSchema(e)
  {
    hide UniqueNumbers, UniqueAttributeNames, UniqueAssociationNames, UniqueTypeNames, FreshSchema;
  }

  lemma OldVersionsStay(d: Db, e: Db)
    requires SchemaAdded(d, e)
    ensures forall v :: v in d.versions ==> v in e.versions && e.versions[v] == d.versions[v]
  {
  }

  // ---- names ----

  /** No attribute of the type has the name of one of its associations. */
  predicate NamesApart(t: ExportType) {
    forall a, b :: 0 <= a < |t.attributes| && 0 <= b < |t.associations| ==> t.attributes[a].name != t.associations[b].name
  }

  /** The types of the file that do not exist yet keep their names apart. */
  ghost predicate FileNamesApart(d: Db, types: seq<ExportType>) {
    forall x :: 0 <= x < |types| && !TypeNamed(d, types[x].name) ==> NamesApart(types[x])
  }

  lemma OldNamesStayApart(d: Db, e: Db, a: Id, s: Id)
    requires FreshSchema(d) && SharedNames(d) && SchemaAdded(d, e) && OldIsFrozen(d, e)
    requires a in e.attributes && s in e.associations && e.attributes[a].versionId == e.associations[s].versionId
    requires e.attributes[a].versionId < d.nextId
    ensures e.attributes[a].name != e.associations[s].name
  {
    assert a in d.attributes && s in d.associations;
  }

  lemma NewNamesApart(e: Db, defs: DefNames, ver: Id, t: ExportType, a: Id, s: Id)
    requires AttributesShown(e, defs, ver, t.attributes) && AssociationsShown(e, ver, t.associations) && NamesApart(t)
    requires a in e.attributes && s in e.associations && e.attributes[a].versionId == ver == e.associations[s].versionId
    ensures e.attributes[a].name != e.associations[s].name
  {
    var y := AttributeEntryOf(e, defs, ver, t.attributes, a);
    var z := EntryOf(e, ver, t.associations, s);
    assert t.attributes[y].name != t.associations[z].name;
  }

  lemma ApartInFile(e: Db, defs: DefNames, ver: Id, t: ExportType)
    requires AttributesShown(e, defs, ver, t.attributes) && AssociationsShown(e, ver, t.associations) && SharedNames(e)
    ensures NamesApart(t)
  {
    forall y, z | 0 <= y < |t.attributes| && 0 <= z < |t.associations|
      ensures t.attributes[y].name != t.associations[z].name
    {
      var a := AttributeOfEntry(e, defs, ver, t.attributes, y);
      var s := AssociationShownAt(e, ver, t.associations, z);
    }
  }

  /** An attribute of a version that is not old is of a new one. */
  lemma AttributeOfNew(d: Db, e: Db, a: Id)
    requires FreshSchema(d) && SchemaAdded(d, e) && OldIsFrozen(d, e)
    requires a in e.attributes && e.attributes[a].versionId >= d.nextId
    ensures e.attributes[a].versionId in e.versions && e.attributes[a].versionId !in d.versions
  {
  }

  /** The phase does not look whether attributes and associations share names: they stay apart
      exactly when the file keeps them apart in the types that do not exist yet. */
  lemma ImportKeepsNamesIff(d: Db, e: Db, p: Phase)
    requires FreshSchema(d) && SharedNames(d) && Brought(d, e, p)
    ensures SharedNames(e) <==> FileNamesApart(d, p.types)
  {
    hide Brought, SchemaAdded, OldIsFrozen, Settled, PinsDone, TypeNamesDiffer, Sound, NamesApart, FreshSchema, TypeNamed,
         AttributesShown, AssociationsShown;
    BroughtFacts(d, e, p);
    NumbersAreUnique(e);
    if SharedNames(e) {
      forall x | 0 <= x < |p.types| && !TypeNamed(d, p.types[x].name)
        ensures NamesApart(p.types[x])
      {
        var v := FileHasNewVersion(d, e, p, x);
        ApartInFile(e, p.defs, v, p.types[x]);
      }
    }
    if FileNamesApart(d, p.types) {
      forall a, s | a in e.attributes && s in e.associations && e.attributes[a].versionId == e.associations[s].versionId
        ensures e.attributes[a].name != e.associations[s].name
      {
        var v := e.attributes[a].versionId;
        if v < d.nextId {
          OldNamesStayApart(d, e, a, s);
        } else {
          AttributeOfNew(d, e, a);
          var x := NewVersionOfFile(d, e, p, v);
          NewNamesApart(e, p.defs, v, p.types[x], a, s);
        }
      }
    }
  }

  lemma ClosesNoCycleIff(d: Db, e: Db, p: Phase)
    requires Sound(d) && TargetsKnownIn(d) && NewlyImported(d, e, p) && Acyclic(ContainmentEdges(d))
    ensures Acyclic(ContainmentEdges(e)) <==> Acyclic(FileEdges(d, p.types))
  {
    hide SchemaImported, Acyclic, ContainmentEdges, FileEdges, TargetsKnownIn, Sound;
    PhaseFacts(d, e, p);
    ImportKeepsAcyclicIff(d, e, p.defs, p.types, p.reuse, p.text, p.cv, p.g, p.created);
  }

  // ---- pins and versions ----

  lemma NewPinsAreOfTypes(e: Db, g: Target, m: map<Id, Pin>, cv: Id, p: Id) returns (n: string)
    requires Settled(e, g) && p in e.pins && p !in m && PinsDone(m, e.pins, cv, true, 0, g)
    ensures n in g.versionIds && n in g.typeIds && e.pins[p] == Pin(cv, g.versionIds[n])
    ensures g.versionIds[n] in e.versions && e.versions[g.versionIds[n]].typeId == g.typeIds[n]
  {
    n :| n in g.versionIds && g.versionIds[n] == e.pins[p].versionId;
    assert Named(e, g, n);
  }

  /** The new catalog version has one pin for each entity type. */
  lemma NewPinsDiffer(d: Db, e: Db, f: Phase, p: Id, q: Id)
    requires NewlyImported(d, e, f) && p in e.pins && q in e.pins && p !in d.pins && q !in d.pins && SamePinned(e, p, q)
    ensures p == q
  {
    hide NewlyImported, Settled, SchemaAdded, OldIsFrozen, TypeNamesDiffer, Sound, TargetSound;
    PhaseFacts(d, e, f);
    SettledIsSound(e, f.g);
    var m := NewPinsAreOfTypes(e, f.g, d.pins, f.cv, p);
    var n := NewPinsAreOfTypes(e, f.g, d.pins, f.cv, q);
    SoundTargets(f.g, m, n);
  }

  lemma SoundTargets(g: Target, m: string, n: string)
    requires TargetSound(g) && m in g.typeIds && n in g.typeIds && m in g.versionIds && n in g.versionIds
    ensures g.typeIds[m] == g.typeIds[n] ==> m == n
  {
  }

  lemma OldPinsStayApart(d: Db, e: Db, p: Id, q: Id)
    requires PinsKnown(d) && SchemaAdded(d, e) && p in d.pins && q in d.pins
    ensures p in e.pins && q in e.pins && e.pins[p] == d.pins[p] && e.pins[q] == d.pins[q]
    ensures SamePinned(e, p, q) ==> SamePinned(d, p, q)
  {
  }

  lemma OldPinsAreElsewhere(d: Db, p: Id)
    requires FreshSchema(d) && p in d.pins
    ensures d.pins[p].cvId < d.nextId
  {
  }

  lemma ImportKeepsPins(d: Db, e: Db, f: Phase)
    requires FreshSchema(d) && PinsKnown(d) && PinsDistinct(d) && NewlyImported(d, e, f)
    ensures PinsDistinct(e)
  {
    hide NewlyImported, Settled, SchemaAdded, OldIsFrozen, TypeNamesDiffer, Sound, SamePinned, FreshSchema, PinsKnown;
    PhaseFacts(d, e, f);
    forall p, q | p in e.pins && q in e.pins && e.pins[p].cvId == e.pins[q].cvId && SamePinned(e, p, q)
      ensures p == q
    {
      if p in d.pins && q in d.pins {
        OldPinsStayApart(d, e, p, q);
      } else if p in d.pins {
        OldPinsAreElsewhere(d, p);
      } else if q in d.pins {
        OldPinsAreElsewhere(d, q);
      } else {
        NewPinsDiffer(d, e, f, p, q);
      }
    }
  }

  lemma ImportKeepsKnownPins(d: Db, e: Db, f: Phase)
    requires NewlyImported(d, e, f)
    ensures PinsKnown(d) ==> PinsKnown(e)
    ensures (forall p :: p in d.pins ==> d.pins[p].versionId in d.versions) ==>
              forall p :: p in e.pins ==> e.pins[p].versionId in e.versions
  {
    hide NewlyImported, Settled, OldIsFrozen, TypeNamesDiffer, Sound;
    PhaseFacts(d, e, f);
    NumbersAreUnique(e);
    FreshVersionIds(e);
    forall p | p in e.pins && p !in d.pins
      ensures e.pins[p].versionId in e.versions
    {
      var n := NewPinsAreOfTypes(e, f.g, d.pins, f.cv, p);
    }
  }

  /** The new version starts in development with no entry in its log, which is where its path begins. */
  lemma ImportKeepsLog(d: Db, e: Db, f: Phase)
    requires LogTracks(d) && NewlyImported(d, e, f)
    ensures LogTracks(e)
  {
    hide NewlyImported, Settled, OldIsFrozen, TypeNamesDiffer, Sound, PinsDone, Entries, IsPath;
    PhaseFacts(d, e, f);
    NoEntriesFor(d.log, f.cv);
    NoPathIsAPath();
  }

  lemma NoPathIsAPath()
    ensures IsPath([])
  {
  }

  lemma ImportKeepsData(d: Db, e: Db, f: Phase)
    requires DataInv(d) && NewlyImported(d, e, f)
    ensures DataInv(e)
  {
    hide NewlyImported, Settled, OldIsFrozen, TypeNamesDiffer, Sound, PinsDone, FreshSchema, SameScope, ParentInside;
    PhaseFacts(d, e, f);
    NumbersAreUnique(e);
    forall i | i in e.instances
      ensures ParentInside(e, i)
    {
      assert ParentInside(d, i);
      ParentStaysInside(d, e, i);
    }
  }

  lemma ImportKeepsRecords(d: Db, e: Db, f: Phase)
    requires NewlyImported(d, e, f)
    ensures UniqueNames(d.catalogs) ==> UniqueNames(e.catalogs)
    ensures Mirrors(d) ==> Mirrors(e)
    ensures CatalogsPlaced(d) ==> CatalogsPlaced(e)
    ensures UniqueTypeNames(e) && UniqueAttributeNames(e.attributes) && UniqueAssociationNames(e.associations)
  {
    hide NewlyImported, Settled, OldIsFrozen, TypeNamesDiffer, Sound, PinsDone;
    PhaseFacts(d, e, f);
    NumbersAreUnique(e);
    forall n | n in e.resources && Mirrors(d)
      ensures Mirrored(e, n)
    {
      assert Mirrored(d, n);
    }
  }

  lemma RecordsAfter(d: Db, e: Db, f: Phase)
    requires NewlyImported(d, e, f)
    ensures e.catalogs == d.catalogs && f.cv in e.versionSets
  {
    hide NewlyImported, Settled, OldIsFrozen, TypeNamesDiffer, Sound, PinsDone;
    PhaseFacts(d, e, f);
  }

  // ---- what catalogs show ----

  /** The pins of a catalog version that the import does not pin to. */
  lemma OtherPinsUnseen(d: Db, e: Db, f: Phase, cv: Id)
    requires FreshSchema(d) && PinsKnown(d) && Brought(d, e, f) && cv != f.cv
    ensures PinnedTypes(e, cv) == PinnedTypes(d, cv)
  {
    hide Brought, Settled, OldIsFrozen, TypeNamesDiffer, Sound;
    BroughtFacts(d, e, f);
    forall v: Id
      ensures Pin(cv, v) in e.pins.Values <==> Pin(cv, v) in d.pins.Values
      ensures Pin(cv, v) in d.pins.Values ==> v < d.nextId
    {
      if Pin(cv, v) in e.pins.Values {
        var p :| p in e.pins && e.pins[p] == Pin(cv, v);
        assert p in d.pins;
      }
      if Pin(cv, v) in d.pins.Values {
        var p :| p in d.pins && d.pins[p] == Pin(cv, v);
        assert e.pins[p] == d.pins[p];
      }
    }
    assert forall v :: v < d.nextId && v in e.versions ==> v in d.versions;
  }

  lemma ImportedRowsUnseen(d: Db, e: Db, pinned: map<Id, Id>)
    requires SchemaAdded(d, e) && OldIsFrozen(d, e) && forall v :: v in pinned ==> v < d.nextId
    ensures forall a :: a in e.attributes && e.attributes[a].versionId in pinned <==>
              a in d.attributes && d.attributes[a].versionId in pinned
    ensures forall a :: a in d.attributes && a in e.attributes ==> e.attributes[a] == d.attributes[a]
    ensures forall s :: s in e.associations && e.associations[s].versionId in pinned <==>
              s in d.associations && d.associations[s].versionId in pinned
    ensures forall s :: s in d.associations && s in e.associations ==> e.associations[s] == d.associations[s]
  {
  }

  lemma SameDataAfter(d: Db, e: Db, c: Id)
    requires SchemaAdded(d, e)
    ensures MembersOf(d, c) == MembersOf(e, c) && CurrentRows(d, c) == CurrentRows(e, c)
    ensures LinksTouching(d, c) == LinksTouching(e, c) && e.catalogs == d.catalogs && e.typeDefs == d.typeDefs
  {
  }

  lemma PinnedAreOld(d: Db, cv: Id)
    requires FreshSchema(d)
    ensures forall v :: v in PinnedTypes(d, cv) ==> v < d.nextId
  {
  }

  /** A catalog of another version shows nothing of the import. */
  lemma ImportUnseen(d: Db, e: Db, f: Phase, c: Id)
    requires FreshSchema(d) && PinsKnown(d) && Brought(d, e, f) && c in d.catalogs && d.catalogs[c].cvId != f.cv
    ensures c in e.catalogs && ViewOf(e, c) == ViewOf(d, c)
  {
    hide Brought, Settled, SchemaAdded, OldIsFrozen, TypeNamesDiffer, Sound, PinsDone, MembersOf, CurrentRows, LinksTouching,
         PinnedTypes, PinsKnown, FreshSchema;
    var cv := d.catalogs[c].cvId;
    BroughtFacts(d, e, f);
    SameDataAfter(d, e, c);
    OtherPinsUnseen(d, e, f, cv);
    PinnedAreOld(d, cv);
    ImportedRowsUnseen(d, e, PinnedTypes(d, cv));
    assert ViewOf(e, c).attributes == ViewOf(d, c).attributes;
    assert ViewOf(e, c).associations == ViewOf(d, c).associations;
  }

  lemma VersionSetsOld(d: Db, cv: Id)
    requires FreshSchema(d)
    ensures cv in d.versionSets ==> cv < d.nextId
  {
  }

  lemma ImportNeverStale(d: Db, e: Db, f: Phase, rules: Rules)
    requires FreshSchema(d) && PinsKnown(d) && CatalogsPlaced(d) && NewlyImported(d, e, f) && NeverStale(d, rules)
    ensures NeverStale(e, rules)
  {
    hide NewlyImported, Brought, ViewOf, Conforms, NeverStale, PinsKnown, FreshSchema, SchemaAdded, OldIsFrozen, Settled,
         Sound, TypeNamesDiffer, PinsDone;
    NewIsBrought(d, e, f);
    PhaseFacts(d, e, f);
    SameDataAfter(d, e, 0);
    forall c | c in e.catalogs && e.catalogs[c].status.Valid?
      ensures c in d.catalogs && d.catalogs[c].status.Valid? && ViewOf(d, c) == ViewOf(e, c)
    {
      VersionSetsOld(d, d.catalogs[c].cvId);
      ImportUnseen(d, e, f, c);
    }
    UnchangedStaysFresh(d, e, rules);
  }
}
