/** An import into a catalog version to be reused: it pins the types it creates there and resets no
    catalog of the version, so one marked valid can be left stale. */
module ImportReuse {
  import opened Domain
  import opened Database
  import opened Cardinality
  import opened Conformance
  import opened DataSteps
  import opened Staleness
  import opened Instances
  import opened SchemaHistory
  import opened CopyOnWrite
  import opened AttributeCalls
  import opened TypeCalls
  import opened CatalogVersionCalls
  import opened ImportNodes
  import opened RoundTrip
  import opened SchemaExport
  import opened SchemaMatch
  import opened SchemaTypes
  import opened SchemaLinks
  import opened SchemaImport
  import opened ImportSafety

  // ---- a view with more types pinned ----

  /** More types are pinned, none of them a member's, with what their versions hold. */
  ghost predicate MorePinned(v: CatalogView, w: CatalogView) {
    && w.members == v.members && w.rows == v.rows && w.links == v.links && w.typeDefs == v.typeDefs
    && (forall x :: x in v.pinned ==> x in w.pinned && w.pinned[x] == v.pinned[x])
    && (forall x, i :: x in w.pinned && x !in v.pinned && i in v.members ==> w.pinned[x] != v.members[i].typeId)
    && (forall a :: a in v.attributes ==> a in w.attributes && w.attributes[a] == v.attributes[a])
    && (forall a :: a in w.attributes && a !in v.attributes ==>
          w.attributes[a].versionId in w.pinned && w.attributes[a].versionId !in v.pinned)
    && (forall s :: s in v.associations ==> s in w.associations && w.associations[s] == v.associations[s])
    && forall s :: s in w.associations && s !in v.associations ==>
         w.associations[s].versionId in w.pinned && w.associations[s].versionId !in v.pinned
  }

  /** A new association ends at the instance's type. */
  predicate EndsAt(v: CatalogView, w: CatalogView, s: Id, i: Id) {
    && s in w.associations && s !in v.associations && i in w.members
    && w.associations[s].target == w.members[i].typeId
  }

  /** It asks nothing of the instance that it does not have: a container of a root, or links. */
  ghost predicate Unasked(w: CatalogView, s: Id, i: Id)
    requires s in w.associations && i in w.members
  {
    if w.associations[s].kind.Containment? then w.members[i].parent.Some? || SourceRange(w, s).min < 1
    else SourceChecked(SourceRange(w, s)) ==> InRange(|ReverseLinks(w, i, s)|, SourceRange(w, s))
  }

  lemma SameGoverned(v: CatalogView, w: CatalogView, i: Id)
    requires WellFormedView(v) && MorePinned(v, w) && i in v.members
    ensures forall a :: AttributeOf(w, a, i) <==> AttributeOf(v, a, i)
    ensures forall s :: AssociationOf(w, s, i) <==> AssociationOf(v, s, i)
    ensures IsPinned(w, v.members[i].typeId) <==> IsPinned(v, v.members[i].typeId)
  {
    if IsPinned(v, v.members[i].typeId) {
      var x :| x in v.pinned && v.pinned[x] == v.members[i].typeId;
      assert x in w.pinned && w.pinned[x] == v.members[i].typeId;
    }
  }

  lemma SameOwnRules(v: CatalogView, w: CatalogView, r: Rules, i: Id)
    requires WellFormedView(v) && MorePinned(v, w) && i in v.members
    ensures (forall a :: AttributeOf(w, a, i) ==> SchemaSound(w, r, a) && ValueSound(w, r, i, a)) <==>
              forall a :: AttributeOf(v, a, i) ==> SchemaSound(v, r, a) && ValueSound(v, r, i, a)
    ensures (forall s :: AssociationOf(w, s, i) ==>
               if w.associations[s].kind.Containment?
               then InRange(|ChildrenOf(w, i, w.associations[s].target)|, TargetRange(w, s))
               else InRange(|ForwardLinks(w, i, s)|, TargetRange(w, s))) <==>
              forall s :: AssociationOf(v, s, i) ==>
                if v.associations[s].kind.Containment?
                then InRange(|ChildrenOf(v, i, v.associations[s].target)|, TargetRange(v, s))
                else InRange(|ForwardLinks(v, i, s)|, TargetRange(v, s))
  {
    hide WithinType, InRange, ParseCardinality;
    SameGoverned(v, w, i);
    forall a | AttributeOf(v, a, i)
      ensures SchemaSound(w, r, a) == SchemaSound(v, r, a) && ValueSound(w, r, i, a) == ValueSound(v, r, i, a)
    {
    }
    forall s | AssociationOf(v, s, i)
      ensures TargetRange(w, s) == TargetRange(v, s) && w.associations[s] == v.associations[s]
      ensures ForwardLinks(w, i, s) == ForwardLinks(v, i, s)
      ensures ChildrenOf(w, i, w.associations[s].target) == ChildrenOf(v, i, v.associations[s].target)
    {
    }
  }

  /** A root stays one that needs no container when no new association asks for one. */
  lemma SameParents(v: CatalogView, w: CatalogView, i: Id)
    requires WellFormedView(v) && MorePinned(v, w) && i in v.members
    ensures ParentSound(w, i) <==>
              && ParentSound(v, i)
              && (v.members[i].parent.None? ==>
                    forall s :: EndsAt(v, w, s, i) && w.associations[s].kind.Containment? ==> SourceRange(w, s).min < 1)
  {
    hide ParseCardinality;
    forall p | p in v.members
      ensures forall s :: AssociationOf(w, s, p) <==> AssociationOf(v, s, p)
    {
      SameGoverned(v, w, p);
    }
    assert forall s :: s in v.associations ==> SourceRange(w, s) == SourceRange(v, s);
    if v.members[i].parent.Some? && v.members[i].parent.value in v.members {
      var p := v.members[i].parent.value;
      if MayContain(v, p, i) {
        var s :| AssociationOf(v, s, p) && v.associations[s].kind.Containment? && v.associations[s].target == v.members[i].typeId;
        assert AssociationOf(w, s, p);
      }
    }
    if v.members[i].parent.None? && MustBeContained(v, v.members[i].typeId) {
      var s :| s in v.associations && v.associations[s].kind.Containment?
               && v.associations[s].target == v.members[i].typeId && SourceRange(v, s).min >= 1;
      assert s in w.associations && SourceRange(w, s).min >= 1;
    }
  }

  lemma SameSources(v: CatalogView, w: CatalogView, i: Id)
    requires WellFormedView(v) && MorePinned(v, w) && i in v.members
    ensures (forall s :: CheckedSource(w, s, i) ==> InRange(|ReverseLinks(w, i, s)|, SourceRange(w, s))) <==>
              && (forall s :: CheckedSource(v, s, i) ==> InRange(|ReverseLinks(v, i, s)|, SourceRange(v, s)))
              && forall s :: EndsAt(v, w, s, i) && !w.associations[s].kind.Containment? ==> Unasked(w, s, i)
  {
    hide ParseCardinality, InRange, SourceChecked;
    forall s | s in v.associations
      ensures SourceRange(w, s) == SourceRange(v, s) && ReverseLinks(w, i, s) == ReverseLinks(v, i, s)
      ensures CheckedSource(w, s, i) == CheckedSource(v, s, i)
    {
    }
    forall s | s !in v.associations
      ensures CheckedSource(w, s, i) <==> EndsAt(v, w, s, i) && !w.associations[s].kind.Containment? && SourceChecked(SourceRange(w, s))
    {
    }
  }

  lemma MemberConforms(v: CatalogView, w: CatalogView, r: Rules, i: Id)
    requires WellFormedView(v) && MorePinned(v, w) && i in v.members
    ensures InstanceConforms(w, r, i) <==> InstanceConforms(v, r, i) && forall s :: EndsAt(v, w, s, i) ==> Unasked(w, s, i)
  {
    SameGoverned(v, w, i);
    SameOwnRules(v, w, r, i);
    SameParents(v, w, i);
    SameSources(v, w, i);
    CheckedSourcesRead(v, i);
    CheckedSourcesRead(w, i);
    hide IsDnsLabel, WithinType, InRange, ParseCardinality, SourceChecked, IsPinned, ParentSound, SchemaSound, ValueSound;
  }

  lemma CheckedSourcesRead(v: CatalogView, i: Id)
    requires i in v.members
    ensures (forall s :: CheckedSource(v, s, i) ==> InRange(|ReverseLinks(v, i, s)|, SourceRange(v, s))) <==>
              forall s :: s in v.associations && !v.associations[s].kind.Containment?
                          && v.associations[s].target == v.members[i].typeId && SourceChecked(SourceRange(v, s)) ==>
                InRange(|ReverseLinks(v, i, s)|, SourceRange(v, s))
  {
    hide ParseCardinality, InRange, SourceChecked;
    assert forall s :: CheckedSource(v, s, i) <==>
             s in v.associations && !v.associations[s].kind.Containment?
             && v.associations[s].target == v.members[i].typeId && SourceChecked(SourceRange(v, s));
  }

  /** What was valid stays so exactly when no new association asks anything of a member. */
  lemma ConformsWithMorePinned(v: CatalogView, w: CatalogView, r: Rules)
    requires WellFormedView(v) && MorePinned(v, w)
    ensures Conforms(w, r) <==> Conforms(v, r) && forall s, i :: EndsAt(v, w, s, i) ==> Unasked(w, s, i)
  {
    hide InstanceConforms, Unasked;
    forall i | i in v.members
      ensures InstanceConforms(w, r, i) <==> InstanceConforms(v, r, i) && forall s :: EndsAt(v, w, s, i) ==> Unasked(w, s, i)
    {
      MemberConforms(v, w, r, i);
    }
    assert forall s, i :: EndsAt(v, w, s, i) ==> i in v.members;
  }

  // ---- what the file asks ----

  /** The association of the file asks nothing of an instance that has no link of it. */
  ghost predicate AsksNothingOf(a: ExportAssociation, row: Instance) {
    var r := ParseCardinality(a.sourceCardinality);
    if a.kind.Containment? then row.parent.Some? || r.min < 1 else SourceChecked(r) ==> InRange(0, r)
  }

  /** Association "y" of type "x" of the file, which does not exist yet, ends at the instance's type. */
  ghost predicate FileEndsAt(d: Db, c: Id, types: seq<ExportType>, x: int, y: int, i: Id) {
    && 0 <= x < |types| && !TypeNamed(d, types[x].name) && 0 <= y < |types[x].associations| && i in MembersOf(d, c)
    && d.instances[i].typeId in d.types && d.types[d.instances[i].typeId] == types[x].associations[y].target
  }

  /** No type of the file that does not exist yet asks anything of the catalog's instances. */
  ghost predicate FileAsksNothing(d: Db, c: Id, types: seq<ExportType>) {
    forall x, y, i :: FileEndsAt(d, c, types, x, y, i) ==> AsksNothingOf(types[x].associations[y], d.instances[i])
  }

  /** Links name associations whose ids have been handed out. */
  ghost predicate LinksKnown(d: Db) {
    forall l :: l in d.links ==> d.links[l].assoc < d.nextId
  }

  // ---- the catalogs of the version ----

  lemma MemberTypesOld(d: Db, c: Id, r: Rules)
    requires FreshSchema(d) && c in d.catalogs && Conforms(ViewOf(d, c), r)
    ensures forall i :: i in MembersOf(d, c) ==> MembersOf(d, c)[i].typeId < d.nextId
  {
    hide ParentSound, SchemaSound, ValueSound, IsDnsLabel, SourceChecked, InRange, ParseCardinality;
    var v := ViewOf(d, c);
    forall i | i in v.members
      ensures v.members[i].typeId < d.nextId
    {
      assert InstanceConforms(v, r, i);
      var x :| x in v.pinned && v.pinned[x] == v.members[i].typeId;
    }
  }

  /** The pins of a version to be reused: those it had, and those of the types created. */
  lemma ReusedPins(d: Db, e: Db, p: Phase)
    requires Sound(d) && PinsKnown(d) && Brought(d, e, p) && p.text in p.reuse
    ensures forall x :: x in PinnedTypes(d, p.cv) ==>
              x < d.nextId && x in PinnedTypes(e, p.cv) && PinnedTypes(e, p.cv)[x] == PinnedTypes(d, p.cv)[x]
    ensures forall x :: x in PinnedTypes(e, p.cv) && x !in PinnedTypes(d, p.cv) ==> x !in d.versions && PinnedTypes(e, p.cv)[x] >= d.nextId
  {
    hide Brought, Settled, TypeNamesDiffer, Sound;
    BroughtFacts(d, e, p);
    SoundIsFresh(d);
    forall x: Id | Pin(p.cv, x) in e.pins.Values && Pin(p.cv, x) !in d.pins.Values
      ensures x >= d.nextId
    {
      var q :| q in e.pins && e.pins[q] == Pin(p.cv, x);
    }
    forall x: Id | Pin(p.cv, x) in d.pins.Values
      ensures Pin(p.cv, x) in e.pins.Values && x < d.nextId
    {
      var q :| q in d.pins && d.pins[q] == Pin(p.cv, x);
      assert e.pins[q] == d.pins[q];
    }
  }

  /** Every new version is pinned there. */
  lemma CreatedIsPinned(d: Db, e: Db, p: Phase, x: Id)
    requires Sound(d) && Brought(d, e, p) && x in e.versions && x !in d.versions
    ensures x in PinnedTypes(e, p.cv)
  {
    hide Sound, Settled, SchemaAdded, OldIsFrozen, LabelTaken, TypeNamed, Covers, TypeNamesDiffer, AllLinked, NameOf;
    assert OfCreated(p.g, p.created, x);
    var n :| n in p.created && n in p.g.versionIds && p.g.versionIds[n] == x;
    CreatedAtLeast(d, e, p, n);
    assert Pin(p.cv, p.g.versionIds[n]) in e.pins.Values;
  }

  lemma CreatedAtLeast(d: Db, e: Db, p: Phase, n: string)
    requires Sound(d) && Brought(d, e, p) && n in p.created && n in p.g.versionIds
    ensures p.g.versionIds[n] >= d.nextId
  {
    hide Sound, Settled, SchemaAdded, OldIsFrozen, LabelTaken, TypeNamed, Covers, TypeNamesDiffer, AllLinked, NameOf, PinsDone;
    BroughtFacts(d, e, p);
    SoundIsFresh(d);
    SettledNames(e, p.g, n);
    CreatedIsNew(d, e, p.g, n);
  }

  lemma OldRowsStay(d: Db, e: Db)
    requires FreshSchema(d) && SchemaAdded(d, e) && OldIsFrozen(d, e)
    ensures forall a :: a in d.attributes ==>
              a in e.attributes && e.attributes[a] == d.attributes[a] && d.attributes[a].versionId < d.nextId
    ensures forall a :: a in e.attributes && a !in d.attributes ==> e.attributes[a].versionId >= d.nextId
    ensures forall s :: s in d.associations ==>
              s in e.associations && e.associations[s] == d.associations[s] && d.associations[s].versionId < d.nextId
    ensures forall s :: s in e.associations && s !in d.associations ==> s >= d.nextId && e.associations[s].versionId >= d.nextId
    ensures forall v :: v in e.versions && v !in d.versions ==> v >= d.nextId
    ensures forall v :: v in d.versions ==> v < d.nextId && v in e.versions && e.versions[v] == d.versions[v]
  {
  }

  /** A catalog of the version shows more types pinned, and nothing else new. */
  lemma ReusedViewGrows(d: Db, e: Db, p: Phase, c: Id, r: Rules)
    requires Sound(d) && PinsKnown(d) && Brought(d, e, p) && p.text in p.reuse
    requires c in d.catalogs && d.catalogs[c].cvId == p.cv && Conforms(ViewOf(d, c), r)
    ensures c in e.catalogs && MorePinned(ViewOf(d, c), ViewOf(e, c))
  {
    hide Sound, PinsKnown, Brought, Settled, SchemaAdded, OldIsFrozen, TypeNamesDiffer, PinsDone, MembersOf, CurrentRows, LinksTouching,
         PinnedTypes, FreshSchema, Conforms;
    BroughtFacts(d, e, p);
    SoundIsFresh(d);
    SameDataAfter(d, e, c);
    ReusedPins(d, e, p);
    OldRowsStay(d, e);
    MemberTypesOld(d, c, r);
    PinnedExist(d, p.cv);
  }

  lemma PinnedExist(d: Db, cv: Id)
    ensures forall x :: x in PinnedTypes(d, cv) <==> x in d.versions && Pin(cv, x) in d.pins.Values
    ensures forall x :: x in PinnedTypes(d, cv) ==> PinnedTypes(d, cv)[x] == d.versions[x].typeId
  {
  }

  lemma NoLinksOfNew(d: Db, e: Db, c: Id, i: Id, s: Id)
    requires LinksKnown(d) && c in d.catalogs && c in e.catalogs && s >= d.nextId
    requires ViewOf(e, c).links == LinksTouching(d, c)
    ensures ReverseLinks(ViewOf(e, c), i, s) == {}
  {
  }

  /** What an association asks is what its entry in the file asks. */
  lemma UnaskedAsInFile(w: CatalogView, s: Id, i: Id, a: ExportAssociation, row: Instance)
    requires s in w.associations && i in w.members && w.members[i] == row && ReverseLinks(w, i, s) == {}
    requires w.associations[s].sourceCardinality == a.sourceCardinality && w.associations[s].kind == a.kind
    ensures Unasked(w, s, i) <==> AsksNothingOf(a, row)
  {
    hide ParseCardinality, InRange, SourceChecked;
  }

  lemma MemberRows(d: Db, c: Id)
    ensures forall i :: i in MembersOf(d, c) <==> i in d.instances && d.instances[i].catalogId == c
    ensures forall i :: i in MembersOf(d, c) ==> MembersOf(d, c)[i] == d.instances[i]
  {
  }

  lemma TypesAfter(d: Db, e: Db)
    requires SchemaAdded(d, e)
    ensures forall t :: t in d.types ==> t in e.types && e.types[t] == d.types[t]
    ensures forall t :: t in e.types && t < d.nextId ==> t in d.types
  {
  }

  lemma AssociationsSeen(e: Db, c: Id)
    requires c in e.catalogs
    ensures forall s :: s in ViewOf(e, c).associations <==>
              s in e.associations && e.associations[s].versionId in PinnedTypes(e, e.catalogs[c].cvId)
    ensures forall s :: s in ViewOf(e, c).associations ==> ViewOf(e, c).associations[s] == e.associations[s]
  {
  }

  /** A new association that ends at a member is one of the file, */
  lemma EndIsOfFile(d: Db, e: Db, p: Phase, c: Id, s: Id, i: Id, r: Rules) returns (x: nat, y: nat)
    requires Sound(d) && PinsKnown(d) && LinksKnown(d) && Brought(d, e, p) && p.text in p.reuse
    requires c in d.catalogs && d.catalogs[c].cvId == p.cv && Conforms(ViewOf(d, c), r)
    requires c in e.catalogs && EndsAt(ViewOf(d, c), ViewOf(e, c), s, i)
    ensures FileEndsAt(d, c, p.types, x, y, i)
    ensures Unasked(ViewOf(e, c), s, i) <==> AsksNothingOf(p.types[x].associations[y], d.instances[i])
  {
    hide Sound, PinsKnown, Brought, Settled, SchemaAdded, OldIsFrozen, TypeNamesDiffer, PinsDone, MembersOf, CurrentRows, LinksTouching,
         PinnedTypes, FreshSchema, Conforms, TypeNamed, AttributesShown, AssociationsShown, Unasked, AsksNothingOf, LinksKnown, ViewOf;
    BroughtFacts(d, e, p);
    SoundIsFresh(d);
    ReusedViewGrows(d, e, p, c, r);
    ViewParts(d, e, c);
    AssociationsSeen(d, c);
    AssociationsSeen(e, c);
    OldRowsStay(d, e);
    ReusedPins(d, e, p);
    var ver := e.associations[s].versionId;
    PinnedExist(e, p.cv);
    x := NewVersionOfFile(d, e, p, ver);
    y := EntryOf(e, ver, p.types[x].associations, s);
    MemberRows(d, c);
    MemberTypesOld(d, c, r);
    TypesAfter(d, e);
    NoLinksOfNew(d, e, c, i, s);
    UnaskedAsInFile(ViewOf(e, c), s, i, p.types[x].associations[y], d.instances[i]);
  }

  /** and every one of the file that ends there is a new association. */
  lemma FileEndIsNew(d: Db, e: Db, p: Phase, c: Id, x: nat, y: nat, i: Id, r: Rules) returns (s: Id)
    requires Sound(d) && PinsKnown(d) && LinksKnown(d) && Brought(d, e, p) && p.text in p.reuse
    requires c in d.catalogs && d.catalogs[c].cvId == p.cv && Conforms(ViewOf(d, c), r)
    requires FileEndsAt(d, c, p.types, x, y, i)
    ensures c in e.catalogs && EndsAt(ViewOf(d, c), ViewOf(e, c), s, i)
    ensures Unasked(ViewOf(e, c), s, i) <==> AsksNothingOf(p.types[x].associations[y], d.instances[i])
  {
    hide Sound, PinsKnown, Brought, Settled, SchemaAdded, OldIsFrozen, TypeNamesDiffer, PinsDone, MembersOf, CurrentRows, LinksTouching,
         PinnedTypes, FreshSchema, Conforms, TypeNamed, AttributesShown, AssociationsShown, Unasked, AsksNothingOf, LinksKnown, ViewOf;
    BroughtFacts(d, e, p);
    SoundIsFresh(d);
    ReusedViewGrows(d, e, p, c, r);
    ViewParts(d, e, c);
    AssociationsSeen(d, c);
    AssociationsSeen(e, c);
    OldRowsStay(d, e);
    var ver := FileHasNewVersion(d, e, p, x);
    s := AssociationShownAt(e, ver, p.types[x].associations, y);
    CreatedIsPinned(d, e, p, ver);
    MemberRows(d, c);
    TypesAfter(d, e);
    OneTypeNamed(e, e.associations[s].target, d.instances[i].typeId);
    NoLinksOfNew(d, e, c, i, s);
    UnaskedAsInFile(ViewOf(e, c), s, i, p.types[x].associations[y], d.instances[i]);
  }

  lemma OneTypeNamed(e: Db, t: Id, u: Id)
    requires Sound(e) && t in e.types && u in e.types && e.types[t] == e.types[u]
    ensures t == u
  {
    hide UniqueAttributeNames, UniqueAssociationNames, UniqueNumbers, FreshSchema;
  }

  lemma ViewParts(d: Db, e: Db, c: Id)
    requires SchemaAdded(d, e) && c in d.catalogs && c in e.catalogs
    ensures ViewOf(d, c).members == MembersOf(d, c) && ViewOf(e, c).members == MembersOf(d, c)
    ensures ViewOf(e, c).links == LinksTouching(d, c) && e.catalogs[c] == d.catalogs[c]
  {
    hide PinnedTypes;
    SameDataAfter(d, e, c);
  }

  /** A conforming catalog of the version still conforms exactly when the file asks nothing of it. */
  lemma ReusedConformsIff(d: Db, e: Db, p: Phase, c: Id, r: Rules)
    requires Sound(d) && PinsKnown(d) && LinksKnown(d) && Brought(d, e, p) && p.text in p.reuse
    requires c in d.catalogs && d.catalogs[c].cvId == p.cv && Conforms(ViewOf(d, c), r)
    ensures c in e.catalogs && (Conforms(ViewOf(e, c), r) <==> FileAsksNothing(d, c, p.types))
  {
    hide Sound, PinsKnown, Brought, LinksKnown, Conforms, ViewOf, MorePinned, Unasked, AsksNothingOf, WellFormedView, TypeNamed;
    ReusedViewGrows(d, e, p, c, r);
    ViewIsWellFormed(d, c);
    var v, w := ViewOf(d, c), ViewOf(e, c);
    ConformsWithMorePinned(v, w, r);
    if FileAsksNothing(d, c, p.types) {
      forall s, i | EndsAt(v, w, s, i)
        ensures Unasked(w, s, i)
      {
        var x, y := EndIsOfFile(d, e, p, c, s, i, r);
        assert FileEndsAt(d, c, p.types, x, y, i);
      }
    }
    if Conforms(w, r) {
      forall x, y, i | FileEndsAt(d, c, p.types, x, y, i)
        ensures AsksNothingOf(p.types[x].associations[y], d.instances[i])
      {
        var s := FileEndIsNew(d, e, p, c, x, y, i, r);
      }
    }
  }

  /** The import resets no catalog of the version it reuses: no "valid" is left stale exactly when
      the types it creates ask nothing of the instances of a catalog of that version marked valid. */
  lemma ReusedImportNeverStaleIff(d: Db, e: Db, p: Phase, r: Rules)
    requires Sound(d) && PinsKnown(d) && LinksKnown(d) && Brought(d, e, p) && p.text in p.reuse && NeverStale(d, r)
    ensures NeverStale(e, r) <==>
              forall c :: c in d.catalogs && d.catalogs[c].cvId == p.cv && d.catalogs[c].status.Valid? ==>
                FileAsksNothing(d, c, p.types)
  {
    hide Sound, PinsKnown, LinksKnown, Brought, Conforms, ViewOf, FileAsksNothing, FreshSchema, Settled, SchemaAdded, OldIsFrozen, TypeNamesDiffer,
         PinsDone;
    BroughtFacts(d, e, p);
    SoundIsFresh(d);
    SameDataAfter(d, e, 0);
    forall c | c in d.catalogs && d.catalogs[c].status.Valid?
      ensures c in e.catalogs
      ensures Conforms(ViewOf(e, c), r) <==> d.catalogs[c].cvId != p.cv || FileAsksNothing(d, c, p.types)
    {
      if d.catalogs[c].cvId == p.cv {
        ReusedConformsIff(d, e, p, c, r);
      } else {
        ImportUnseen(d, e, p, c);
      }
    }
  }

  // ---- a catalog left stale ----

  /** A valid catalog with one instance, under a version that pins its type. */
  ghost const SHARED := Db(
    map[7 := Catalog("c", "", 3, Valid, false)], map[20 := Instance(10, 7, None, "a", "", 1)], map[], map[],
    map[3 := CatalogVersion("v", Development)], map[4 := Pin(3, 11)], [], map[10 := "T"], map[11 := TypeVersion(10, 1, "")],
    map[], map[], map[], map[], 100)

  /** The type as it is, and one that wants every instance of it to have a link from its own. */
  const WANTING: seq<ExportType> := [
    ExportType("T", "", [], []),
    ExportType("Owner", "", [], [ExportAssociation("owns", Directional, "T", "1", "0..n", "", "")])]

  lemma OneIsRead()
    ensures ParseCardinality("1") == Range(1, 1, false)
  {
    assert AllDigits("1") && "1"[..0] == "" && "1"[..1] == "1";
    assert NumeralValue("1") == 1;
  }

  lemma SharedIsSound()
    ensures Sound(SHARED) && PinsKnown(SHARED) && LinksKnown(SHARED)
  {
  }

  lemma SharedConforms(r: Rules)
    ensures NeverStale(SHARED, r)
  {
    var v := ViewOf(SHARED, 7);
    assert v.pinned[11] == 10 by {
      assert SHARED.pins[4] == Pin(3, 11);
    }
    assert IsPinned(v, 10);
    assert v.attributes == map[] && v.associations == map[];
    assert forall i :: i in v.members ==> i == 20;
    assert InstanceConforms(v, r, 20);
  }

  lemma WantingFits()
    ensures FileFits(SHARED, map[], map[], {"v"}, "v", WANTING)
  {
    var d := SHARED;
    assert Labelled(d, 3, "v");
    assert d.pins[4] == Pin(3, 11);
    assert PinnedVersion(d, 3, 11) && TypePinned(d, 3, 10);
    assert 11 in d.versions && HasVersions(d, 10) && 10 in d.types;
    assert AttributesIn(d, 11) == {} && AssociationsIn(d, 11) == {};
    assert SameAsLatest(d, map[], 10, WANTING[0]);
    assert TypeFits(d, map[], map[], {"v"}, WANTING[0]);
    assert TypeFits(d, map[], map[], {"v"}, WANTING[1]);
    assert NameOf(WANTING, "T");
  }

  lemma WantingAsks()
    ensures 7 in SHARED.catalogs && !FileAsksNothing(SHARED, 7, WANTING)
  {
    hide ParseCardinality;
    OneIsRead();
    var a := WANTING[1].associations[0];
    assert a.target == "T" && WANTING[1].name == "Owner";
    assert !TypeNamed(SHARED, "Owner");
    assert FileEndsAt(SHARED, 7, WANTING, 1, 0, 20);
    assert !AsksNothingOf(a, SHARED.instances[20]);
  }

  /** The file fits and its import leaves the catalog marked valid with an instance that lacks a
      link. */
  lemma ReusedImportGoesStale(e: Db, cv: Id, g: Target, created: set<string>, r: Rules)
    ensures Sound(SHARED) && PinsKnown(SHARED) && LinksKnown(SHARED) && NeverStale(SHARED, r)
    ensures FileFits(SHARED, map[], map[], {"v"}, "v", WANTING)
    ensures SchemaImported(SHARED, e, map[], WANTING, {"v"}, "v", cv, g, created) ==> !NeverStale(e, r)
  {
    hide Sound, PinsKnown, LinksKnown, NeverStale, FileFits, SchemaImported, FileAsksNothing;
    SharedIsSound();
    SharedConforms(r);
    WantingFits();
    if SchemaImported(SHARED, e, map[], WANTING, {"v"}, "v", cv, g, created) {
      var p := Phase(map[], WANTING, {"v"}, "v", cv, g, created);
      assert WANTING[0].name != WANTING[1].name;
      VersionIsShared(e, p);
      ReusedImportNeverStaleIff(SHARED, e, p, r);
      WantingAsks();
    }
  }

  lemma VersionIsShared(e: Db, p: Phase)
    requires Brought(SHARED, e, p) && p.text == "v" && p.text in p.reuse
    ensures p.cv == 3
  {
    hide Sound, Settled, SchemaAdded, OldIsFrozen, TypeNamesDiffer, PinsDone, AllLinked, LabelTaken, NameOf, TypeNamed, Covers;
  }
}
