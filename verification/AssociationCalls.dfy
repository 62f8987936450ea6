/** The association service. A new containment passes the cycle
    check; a change of an association's type to containment does not. */
module AssociationCalls {
  import opened Domain
  import opened Database
  import opened Digraph
  import opened Cardinality
  import opened CycleDetection
  import opened DataSteps
  import opened Instances
  import opened SchemaHistory
  import opened CopyOnWrite
  import opened AttributeCalls

  // ---- the graph ----

  /** All containment edges, one per association row of whatever version. */
  method GetContainmentGraph(db: Store) returns (edges: seq<Edge>)
    ensures EdgeSet(edges) == ContainmentEdges(db.State())
  {
    ghost var d := db.State();
    edges := [];
    var all := set s | s in db.associations && db.associations[s].kind.Containment? && db.associations[s].versionId in db.versions;
    var todo := all;
    while todo != {}
      invariant todo <= all
      invariant forall e :: e in edges <==> exists s :: s in all && s !in todo && e == EdgeAt(d, s)
      decreases todo
    {
      var s :| s in todo;
      var edge := (db.versions[db.associations[s].versionId].typeId, db.associations[s].target);
      forall e
        ensures e in edges + [edge] <==> exists t :: t in all && t !in todo - {s} && e == EdgeAt(d, t)
      {
        if e == edge {
          assert s in all && s !in todo - {s} && e == EdgeAt(d, s);
        }
      }
      edges := edges + [edge];
      todo := todo - {s};
    }
    forall e
      ensures e in EdgeSet(edges) <==> e in ContainmentEdges(d)
    {
      EdgeMembership(d, e);
      assert forall s :: s in all <==> IsEdge(d, s);
    }
  }

  ghost function EdgeAt(d: Db, s: Id): Edge
    requires IsEdge(d, s)
  {
    (d.versions[d.associations[s].versionId].typeId, d.associations[s].target)
  }

  // ---- create ----

  predicate ContainmentSourceOk(s: string) {
    NormalizeSourceCardinality(s, true) == "1" || NormalizeSourceCardinality(s, true) == "0..1"
  }

  /** A contained instance has one container at most: "1", "0..1", or nothing said. */
  lemma ContainerSources(s: string)
    ensures ContainmentSourceOk(s) <==> s in {"", "1", "0..1"}
  {
  }

  ghost predicate NameFreeIn(d: Db, ver: Id, name: string) {
    !AttrNamed(d.attributes, ver, name) && !AssocNamed(d.associations, ver, name)
  }

  /** "exclude" is the name being given up, which does not count. */
  method CheckNameConflict(db: Store, ver: Id, name: string, exclude: string) returns (out: Outcome)
    ensures out.Fail? <==> AttrNamed(db.attributes, ver, name) || (name != exclude && AssocNamed(db.associations, ver, name))
  {
    var attr := FindAttribute(db.attributes, ver, name);
    if attr.Some? {
      return Fail(Conflict);
    }
    if s :| s in db.associations && db.associations[s].versionId == ver && db.associations[s].name == name
            && db.associations[s].name != exclude {
      return Fail(Conflict);
    }
    return Pass;
  }

  /** The row a creation asks for. */
  function Proposed(name: string, target: Id, kind: AssociationKind, sourceRole: string, targetRole: string,
                    sourceCard: string, targetCard: string): Association {
    Association(0, name, target, kind, sourceRole, targetRole,
                NormalizeSourceCardinality(sourceCard, kind.Containment?), NormalizeCardinality(targetCard))
  }

  ghost predicate Creatable(d: Db, source: Id, target: Id, kind: AssociationKind, name: string, sourceCard: string,
                            targetCard: string) {
    && name != "" && ValidateCardinality(sourceCard) && ValidateCardinality(targetCard)
    && (kind.Containment? ==> ContainmentSourceOk(sourceCard) && !Reaches(ContainmentEdges(d), target, source))
  }

  method CreateAssociation(db: Store, source: Id, target: Id, kind: AssociationKind, name: string, sourceRole: string,
                           targetRole: string, sourceCard: string, targetCard: string)
    returns (res: Result<Id>, ghost c: Change)
    requires Indexed(db.State())
    modifies db`versions, db`attributes, db`associations, db`nextId
    ensures res.Ok? ==>
              && Creatable(old(db.State()), source, target, kind, name, sourceCard, targetCard)
              && Next(old(db.State()), db.State(), c) && c.typeId == source && c.ver == res.value
              && NameFreeIn(old(db.State()), c.latest, name)
              && c.extra == Proposed(name, target, kind, sourceRole, targetRole, sourceCard, targetCard)
              && c.attrs == AttrsOf(old(db.attributes), c.latest)
              && c.assocs == AssocsOf(old(db.associations), c.latest) + {c.extra}
              && (SharedNames(old(db.State())) ==> SchemaStep(old(db.State()), db.State()))
    ensures res.Ok? ==>
              && name != "" && (kind == Containment ==> sourceCard in {"", "1", "0..1"}) && c.latest in old(db.versions)
              && VersionBecomes(old(db.State()), db.State(), source, c.latest, res.value, old(db.versions)[c.latest].description,
                   None, {}, None,
                   {Association(res.value, name, target, kind, sourceRole, targetRole,
                                if sourceCard != "" then sourceCard else if kind == Containment then "0..1" else "0..n",
                                if targetCard != "" then targetCard else "0..n")})
    ensures res.Err? ==> db.State() == old(db.State())
    ensures res.Err? ==>
              || !Creatable(old(db.State()), source, target, kind, name, sourceCard, targetCard)
              || !HasVersions(old(db.State()), source)
              || exists v :: IsLatest(old(db.State()), source, v) && !NameFreeIn(old(db.State()), v, name)
  {
    hide NextVersion, FreshSchema, UniqueAttributeNames, UniqueAssociationNames, IsLatest, AttrsOf, AssocsOf, SharedNames,
         Apart, SchemaStep, SchemaOnly, AttrNamed, AssocNamed, ContainmentEdges, Creatable, ValidateCardinality,
         NormalizeSourceCardinality, NormalizeCardinality, VersionBecomes;
    c := Change(0, 0, 0, TypeVersion(0, 0, ""), {}, {}, NO_CONTAINMENT);
    var ok := CheckProposal(db, source, target, kind, name, sourceCard, targetCard);
    if !ok {
      return Err(Rejected), c;
    }
    var found := GetLatest(db, source);
    if found.Err? {
      return Err(NotFound), c;
    }
    var latest := found.value;
    ghost var d := db.State();
    LatestIs(d, source, latest);
    NoEmptyExclude(d, latest, name, kind, source, target, sourceCard, targetCard);
    var conflict := CheckNameConflict(db, latest, name, "");
    if conflict.Fail? {
      return Err(Conflict), c;
    }
    var ver := CopyVersion(db, source, latest, db.versions[latest].description);
    c := PlainChange(d, source, latest, ver, d.versions[latest].description);
    var x := Proposed(name, target, kind, sourceRole, targetRole, sourceCard, targetCard).(versionId := ver);
    c := WriteAssociation(db, d, c, x);
    CreatedIsSafe(d, db.State(), c, sourceCard, targetCard);
    AssociationsByRows(d, db.State(), c, None, Some(x));
    ProposedFields(source, target, kind, name, sourceRole, targetRole, sourceCard, targetCard, d);
    return Ok(ver), c;
  }

  /** What is stored of a proposal: the cardinalities as given, or the default of the kind. */
  lemma ProposedFields(source: Id, target: Id, kind: AssociationKind, name: string, sourceRole: string, targetRole: string,
                       sourceCard: string, targetCard: string, d: Db)
    ensures Proposed(name, target, kind, sourceRole, targetRole, sourceCard, targetCard) ==
            Association(0, name, target, kind, sourceRole, targetRole,
                        if sourceCard != "" then sourceCard else if kind == Containment then "0..1" else "0..n",
                        if targetCard != "" then targetCard else "0..n")
    ensures Creatable(d, source, target, kind, name, sourceCard, targetCard) ==>
              name != "" && (kind == Containment ==> sourceCard in {"", "1", "0..1"})
  {
    hide ContainmentEdges;
  }

  lemma NoEmptyExclude(d: Db, latest: Id, name: string, kind: AssociationKind, source: Id, target: Id, sourceCard: string,
                       targetCard: string)
    requires Creatable(d, source, target, kind, name, sourceCard, targetCard)
    ensures name != ""
  {
  }

  method CheckProposal(db: Store, source: Id, target: Id, kind: AssociationKind, name: string, sourceCard: string,
                       targetCard: string) returns (ok: bool)
    ensures ok <==> Creatable(db.State(), source, target, kind, name, sourceCard, targetCard)
  {
    hide ContainmentEdges, ValidateCardinality, NormalizeSourceCardinality;
    if name == "" || !ValidateCardinality(sourceCard) || !ValidateCardinality(targetCard) {
      return false;
    }
    if kind.Containment? {
      if !ContainmentSourceOk(sourceCard) {
        return false;
      }
      var edges := GetContainmentGraph(db);
      var rejected := CheckContainmentCycle(edges, source, target);
      ReachesSelf(ContainmentEdges(db.State()), source);
      if rejected {
        return false;
      }
    }
    return true;
  }

  /** Adds one association to a copy. */
  method WriteAssociation(db: Store, ghost d: Db, ghost start: Change, x: Association) returns (ghost c: Change)
    requires Indexed(d) && Next(d, db.State(), start) && x.versionId == start.ver
    requires start.assocs == AssocsOf(d.associations, start.latest) && !AssocNamed(d.associations, start.latest, x.name)
    modifies db`associations, db`nextId
    ensures Next(d, db.State(), c) && c == start.(assocs := start.assocs + {BareAssoc(x)}, extra := BareAssoc(x))
  {
    hide NextVersion, FreshSchema, UniqueAttributeNames, UniqueAssociationNames, IsLatest, AttrsOf, AssocsOf, AssocNamed,
         SchemaOnly;
    ghost var e := db.State();
    AssocNameStillFree(d, e, start, x.name);
    db.associations, db.nextId := db.associations[db.nextId := x], db.nextId + 1;
    OnlyAssociations(e, db.State());
    AssociationWritten(d, e, db.State(), start.typeId, start.latest, start.ver, start.row, start.attrs, start.assocs,
                       e.nextId, x);
    c := start.(assocs := start.assocs + {BareAssoc(x)}, extra := BareAssoc(x));
  }

  lemma OnlyAssociations(e: Db, f: Db)
    requires SchemaSame(e, f.(associations := e.associations)) && DataSame(e, f.(nextId := e.nextId)) && e.nextId <= f.nextId
    requires f.catalogs == e.catalogs && f.resources == e.resources
    ensures AssociationsOnly(e, f)
  {
  }

  lemma AssocNameStillFree(d: Db, e: Db, c: Change, name: string)
    requires FreshSchema(d) && Next(d, e, c)
    requires c.assocs == AssocsOf(d.associations, c.latest) && !AssocNamed(d.associations, c.latest, name)
    ensures forall s :: s in e.associations && e.associations[s].versionId == c.ver ==> e.associations[s].name != name
    ensures e.nextId !in e.associations
  {
    hide UniqueAttributeNames, UniqueAssociationNames, IsLatest, AssocsOf, AttrsOf, FreshSchema;
    NamesInContent(d, c.latest, name);
    NamesInContent(e, c.ver, name);
    NewRowsAreFresh(d, e, c.typeId, c.latest, c.ver, c.row, c.attrs, c.assocs);
  }

  lemma CreatedIsSafe(d: Db, e: Db, c: Change, sourceCard: string, targetCard: string)
    requires Next(d, e, c) && c.attrs == AttrsOf(d.attributes, c.latest)
    requires c.assocs == AssocsOf(d.associations, c.latest) + {c.extra} && NameFreeIn(d, c.latest, c.extra.name)
    requires Creatable(d, c.typeId, c.extra.target, c.extra.kind, c.extra.name, sourceCard, targetCard)
    ensures SharedNames(d) ==> SchemaStep(d, e)
  {
    hide NextVersion, AttrsOf, AssocsOf, SharedNames, ContainmentEdges, AttrNamed, AssocNamed;
    if SharedNames(d) {
      NamesStayApart(d, c.latest);
      NamesInContent(d, c.latest, c.extra.name);
      assert SafeNext(d, e, c);
    }
  }

  // ---- delete ----

  ghost predicate AssocIn(assocs: set<Association>, name: string, x: Association) {
    x in assocs && x.name == name
  }

  /** As for attributes, a name that is not there leaves an identical next version behind. */
  method DeleteAssociation(db: Store, typeId: Id, name: string) returns (res: Result<Id>, ghost c: Change, ghost gone: Association)
    requires Indexed(db.State())
    modifies db`versions, db`attributes, db`associations, db`nextId
    ensures res.Err? && !HasVersions(old(db.State()), typeId) ==> db.State() == old(db.State())
    ensures HasVersions(old(db.State()), typeId) ==>
              && Next(old(db.State()), db.State(), c) && c.typeId == typeId
              && c.attrs == AttrsOf(old(db.attributes), c.latest)
              && (SharedNames(old(db.State())) ==> SchemaStep(old(db.State()), db.State()))
    ensures res.Ok? ==>
              && HasVersions(old(db.State()), typeId) && res.value == c.ver
              && AssocIn(AssocsOf(old(db.associations), c.latest), name, gone)
              && c.assocs == AssocsOf(old(db.associations), c.latest) - {gone}
    ensures HasVersions(old(db.State()), typeId) ==>
              && c.latest in old(db.versions)
              && VersionBecomes(old(db.State()), db.State(), typeId, c.latest, c.ver, old(db.versions)[c.latest].description,
                                None, {}, if res.Ok? then Some(name) else None, {})
    ensures res.Err? && HasVersions(old(db.State()), typeId) ==>
              !AssocNamed(old(db.associations), c.latest, name) && c.assocs == AssocsOf(old(db.associations), c.latest)
  {
    hide NextVersion, FreshSchema, UniqueAttributeNames, UniqueAssociationNames, IsLatest, AttrsOf, AssocsOf, SharedNames,
         Apart, SchemaStep, SchemaOnly, AttrNamed, AssocNamed, VersionBecomes;
    c, gone := Change(0, 0, 0, TypeVersion(0, 0, ""), {}, {}, NO_CONTAINMENT), NO_CONTAINMENT;
    var found := GetLatest(db, typeId);
    if found.Err? {
      return Err(NotFound), c, gone;
    }
    var latest := found.value;
    LatestIs(db.State(), typeId, latest);
    ghost var d := db.State();
    var ver := CopyVersion(db, typeId, latest, db.versions[latest].description);
    c := PlainChange(d, typeId, latest, ver, d.versions[latest].description);
    ghost var e := db.State();
    var assoc := FindOwnAssociation(db.associations, ver, name);
    SameAssocNames(d, e, c, name);
    if assoc.None? {
      FewerAssocsSafe(d, e, c);
      NoChangeByRows(d, e, c);
      return Err(NotFound), c, gone;
    }
    CopyHoldsAssoc(d, e, c, assoc.value);
    gone := BareAssoc(db.associations[assoc.value]);
    db.associations := db.associations - {assoc.value};
    OnlyAssociations(e, db.State());
    AssociationDropped(d, e, db.State(), typeId, latest, ver, c.row, c.attrs, c.assocs, assoc.value);
    c := c.(assocs := c.assocs - {gone});
    FewerAssocsSafe(d, db.State(), c);
    AssociationsByRows(d, db.State(), c, Some(gone), None);
    return Ok(ver), c, gone;
  }

  lemma SameAssocNames(d: Db, e: Db, c: Change, name: string)
    requires Next(d, e, c) && c.assocs == AssocsOf(d.associations, c.latest)
    ensures AssocNamed(e.associations, c.ver, name) <==> AssocNamed(d.associations, c.latest, name)
  {
    hide UniqueAttributeNames, UniqueAssociationNames, IsLatest, AttrsOf, AssocsOf, AssocNamed;
    NamesInContent(d, c.latest, name);
    NamesInContent(e, c.ver, name);
  }

  lemma CopyHoldsAssoc(d: Db, e: Db, c: Change, s: Id)
    requires Next(d, e, c) && s in e.associations && e.associations[s].versionId == c.ver
    ensures BareAssoc(e.associations[s]) in c.assocs
  {
    hide UniqueAttributeNames, UniqueAssociationNames, IsLatest, AttrsOf;
  }

  lemma FewerAssocsSafe(d: Db, e: Db, c: Change)
    requires Next(d, e, c) && c.attrs == AttrsOf(d.attributes, c.latest)
    requires c.assocs <= AssocsOf(d.associations, c.latest) && c.extra == NO_CONTAINMENT
    ensures SharedNames(d) ==> SchemaStep(d, e)
  {
    hide NextVersion, AttrsOf, AssocsOf, SharedNames, ContainmentEdges;
    if SharedNames(d) {
      NamesStayApart(d, c.latest);
      assert SafeNext(d, e, c);
    }
  }

  // ---- edit ----

  datatype AssocEdit = AssocEdit(
    name: Option<string>, sourceRole: Option<string>, targetRole: Option<string>,
    sourceCard: Option<string>, targetCard: Option<string>, kind: Option<AssociationKind>)

  function EditedAssoc(x: Association, edit: AssocEdit): Association {
    var kind := Or(edit.kind, x.kind);
    x.(name := Or(edit.name, x.name), sourceRole := Or(edit.sourceRole, x.sourceRole),
       targetRole := Or(edit.targetRole, x.targetRole), kind := kind,
       sourceCardinality := if edit.sourceCard.Some? then NormalizeSourceCardinality(edit.sourceCard.value, kind.Containment?)
                            else x.sourceCardinality,
       targetCardinality := if edit.targetCard.Some? then NormalizeCardinality(edit.targetCard.value) else x.targetCardinality)
  }

  /** The association after an edit: each field as given, or as it was; an empty cardinality stands
      for the default of the kind it ends up with. */
  ghost function AfterEdit(was: Association, ver: Id, edit: AssocEdit): (x: Association)
    ensures x.versionId == ver && x.target == was.target
    ensures x.name == (if edit.name.Some? then edit.name.value else was.name)
    ensures x.kind == (if edit.kind.Some? then edit.kind.value else was.kind)
    ensures x.sourceRole == (if edit.sourceRole.Some? then edit.sourceRole.value else was.sourceRole)
    ensures x.targetRole == (if edit.targetRole.Some? then edit.targetRole.value else was.targetRole)
    ensures edit.sourceCard.None? ==> x.sourceCardinality == was.sourceCardinality
    ensures edit.sourceCard.Some? && edit.sourceCard.value != "" ==> x.sourceCardinality == edit.sourceCard.value
    ensures edit.sourceCard == Some("") ==> x.sourceCardinality == if x.kind == Containment then "0..1" else "0..n"
    ensures edit.targetCard.None? ==> x.targetCardinality == was.targetCardinality
    ensures edit.targetCard.Some? && edit.targetCard.value != "" ==> x.targetCardinality == edit.targetCard.value
    ensures edit.targetCard == Some("") ==> x.targetCardinality == "0..n"
  {
    var kind := Or(edit.kind, was.kind);
    var (source, dest) := (Or(edit.sourceCard, was.sourceCardinality), Or(edit.targetCard, was.targetCardinality));
    Association(ver, Or(edit.name, was.name), was.target, kind, Or(edit.sourceRole, was.sourceRole),
                Or(edit.targetRole, was.targetRole),
                if edit.sourceCard.Some? && source == "" then if kind.Containment? then "0..1" else "0..n" else source,
                if edit.targetCard.Some? && dest == "" then "0..n" else dest)
  }

  lemma EditedFields(was: Association, ver: Id, edit: AssocEdit, x: Association)
    requires x.versionId == ver && BareAssoc(x) == EditedAssoc(was, edit) && was.versionId == 0
    ensures x == AfterEdit(was, ver, edit)
  {
  }

  /** The cardinalities named are well formed, and a containment ends with a source cardinality
      it may have, unless it was a containment and keeps the one it had. */
  predicate CardinalitiesOk(x: Association, edit: AssocEdit) {
    var kind := Or(edit.kind, x.kind);
    && (edit.sourceCard.Some? ==>
          ValidateCardinality(edit.sourceCard.value) && (kind.Containment? ==> ContainmentSourceOk(edit.sourceCard.value)))
    && (edit.targetCard.Some? ==> ValidateCardinality(edit.targetCard.value))
    && (edit.kind == Some(Containment) && !x.kind.Containment? && edit.sourceCard.None? ==> ContainmentSourceOk(x.sourceCardinality))
  }

  ghost predicate AssocEditable(d: Db, v: Id, current: string, edit: AssocEdit) {
    && (edit.name.Some? && edit.name.value != current ==>
          !AttrNamed(d.attributes, v, edit.name.value) && !AssocNamed(d.associations, v, edit.name.value))
    && exists s :: s in d.associations && d.associations[s].versionId == v && d.associations[s].name == current
                   && CardinalitiesOk(d.associations[s], edit)
  }

  /** The cycle check, which the service does not make here, would have passed. */
  ghost predicate EdgeOpen(d: Db, c: Change) {
    c.extra.kind.Containment? ==> !Reaches(ContainmentEdges(d), c.extra.target, c.typeId)
  }

  /** Below that condition the edit is a safe step. */
  lemma EditIsSafe(d: Db, e: Db, c: Change, was: Association, current: string, edit: AssocEdit)
    requires SharedNames(d) && Next(d, e, c) && AssocEditable(d, c.latest, current, edit)
    requires AssocIn(AssocsOf(d.associations, c.latest), current, was) && c.extra == EditedAssoc(was, edit)
    requires c.attrs == AttrsOf(d.attributes, c.latest) && c.assocs == AssocsOf(d.associations, c.latest) - {was} + {c.extra}
    requires EdgeOpen(d, c)
    ensures SchemaStep(d, e)
  {
    hide NextVersion, AttrsOf, AssocsOf, SharedNames, ContainmentEdges, AttrNamed, AssocNamed, CardinalitiesOk,
         NormalizeSourceCardinality, NormalizeCardinality;
    NamesStayApart(d, c.latest);
    NamesInContent(d, c.latest, c.extra.name);
    assert SafeNext(d, e, c);
  }

  method EditAssociation(db: Store, typeId: Id, current: string, edit: AssocEdit)
    returns (res: Result<Id>, ghost c: Change, ghost was: Association)
    requires Indexed(db.State())
    modifies db`versions, db`attributes, db`associations, db`nextId
    ensures res.Ok? ==>
              && Next(old(db.State()), db.State(), c) && c.typeId == typeId && c.ver == res.value
              && AssocEditable(old(db.State()), c.latest, current, edit)
              && AssocIn(AssocsOf(old(db.associations), c.latest), current, was)
              && c.extra == EditedAssoc(was, edit)
              && c.assocs == AssocsOf(old(db.associations), c.latest) - {was} + {c.extra}
              && c.attrs == AttrsOf(old(db.attributes), c.latest)
    ensures res.Ok? ==>
              && c.latest in old(db.versions) && was.name == current
              && VersionBecomes(old(db.State()), db.State(), typeId, c.latest, res.value, old(db.versions)[c.latest].description,
                                None, {}, Some(current), {AfterEdit(was, res.value, edit)})
    ensures res.Ok? && (if edit.kind.Some? then edit.kind.value else was.kind) == Containment ==>
              && (edit.sourceCard.Some? ==> edit.sourceCard.value in {"", "1", "0..1"})
              && (edit.sourceCard.None? && was.kind != Containment ==> was.sourceCardinality in {"", "1", "0..1"})
    ensures res.Err? ==> db.State() == old(db.State())
    ensures res.Err? ==>
              || !HasVersions(old(db.State()), typeId)
              || exists v :: IsLatest(old(db.State()), typeId, v) && !AssocEditable(old(db.State()), v, current, edit)
    ensures res.Ok? && SharedNames(old(db.State())) && EdgeOpen(old(db.State()), c) ==> SchemaStep(old(db.State()), db.State())
  {
    hide SchemaStep, EdgeOpen, NextVersion, FreshSchema, UniqueAttributeNames, UniqueAssociationNames, IsLatest, AttrsOf, AssocsOf,
         SharedNames, Apart, SchemaOnly, AttrNamed, AssocNamed, CardinalitiesOk, EditedAssoc, AssocEditable, VersionBecomes,
         AfterEdit;
    c, was := Change(0, 0, 0, TypeVersion(0, 0, ""), {}, {}, NO_CONTAINMENT), NO_CONTAINMENT;
    var found := GetLatest(db, typeId);
    if found.Err? {
      return Err(NotFound), c, was;
    }
    var latest := found.value;
    LatestIs(db.State(), typeId, latest);
    ghost var d := db.State();
    var ok := CheckAssocEdit(db, latest, current, edit);
    if ok.Fail? {
      return Err(ok.error), c, was;
    }
    CurrentExists(d, latest, current, edit);
    var ver := CopyVersion(db, typeId, latest, db.versions[latest].description);
    c := PlainChange(d, typeId, latest, ver, d.versions[latest].description);
    ghost var e := db.State();
    var assoc := FindOwnAssociation(db.associations, ver, current);
    SameAssocNames(d, e, c, current);
    var s := assoc.value;
    CopyHoldsAssoc(d, e, c, s);
    var x := EditedAssoc(db.associations[s], edit);
    was := BareAssoc(db.associations[s]);
    EditedBare(db.associations[s], edit);
    NewAssocNameFree(d, e, c, s, x.name, current, edit);
    db.associations := db.associations[s := x];
    OnlyAssociations(e, db.State());
    AssociationWritten(d, e, db.State(), typeId, latest, ver, c.row, c.attrs, c.assocs, s, x);
    c := c.(assocs := c.assocs - {was} + {BareAssoc(x)}, extra := BareAssoc(x));
    AssociationsByRows(d, db.State(), c, Some(was), Some(x));
    EditedFields(was, ver, edit, x);
    EditableSources(d, latest, current, edit, was);
    if SharedNames(d) && EdgeOpen(d, c) {
      EditIsSafe(d, db.State(), c, was, current, edit);
    }
    return Ok(ver), c, was;
  }

  lemma EditableSources(d: Db, v: Id, current: string, edit: AssocEdit, was: Association)
    requires UniqueAssociationNames(d.associations) && AssocEditable(d, v, current, edit)
    requires AssocIn(AssocsOf(d.associations, v), current, was)
    ensures (if edit.kind.Some? then edit.kind.value else was.kind) == Containment ==>
              && (edit.sourceCard.Some? ==> edit.sourceCard.value in {"", "1", "0..1"})
              && (edit.sourceCard.None? && was.kind != Containment ==> was.sourceCardinality in {"", "1", "0..1"})
  {
    hide ValidateCardinality, AttrNamed, AssocNamed, ContainmentSourceOk;
    var s :| s in d.associations && d.associations[s].versionId == v && d.associations[s].name == current
             && CardinalitiesOk(d.associations[s], edit);
    var t := FromAssocsOf(d.associations, v, was);
    OnlyOne(d.associations, v, current, s);
    ContainerSources(if edit.sourceCard.Some? then edit.sourceCard.value else was.sourceCardinality);
  }

  lemma EditedBare(x: Association, edit: AssocEdit)
    ensures EditedAssoc(BareAssoc(x), edit) == BareAssoc(EditedAssoc(x, edit))
    ensures EditedAssoc(x, edit).versionId == x.versionId && EditedAssoc(x, edit).name == Or(edit.name, x.name)
  {
    hide NormalizeSourceCardinality, NormalizeCardinality;
  }

  lemma CurrentExists(d: Db, v: Id, current: string, edit: AssocEdit)
    requires AssocEditable(d, v, current, edit)
    ensures AssocNamed(d.associations, v, current)
  {
    hide CardinalitiesOk;
  }

  method CheckAssocEdit(db: Store, latest: Id, current: string, edit: AssocEdit) returns (out: Outcome)
    requires UniqueAssociationNames(db.associations)
    ensures out.Pass? <==> AssocEditable(db.State(), latest, current, edit)
  {
    hide ValidateCardinality, NormalizeSourceCardinality;
    var found := FindOwnAssociation(db.associations, latest, current);
    if found.None? {
      return Fail(NotFound);
    }
    var was := db.associations[found.value];
    OnlyOne(db.associations, latest, current, found.value);
    var kind := Or(edit.kind, was.kind);
    if edit.sourceCard.Some? {
      if !ValidateCardinality(edit.sourceCard.value) {
        return Fail(Rejected);
      }
      if kind.Containment? && !ContainmentSourceOk(edit.sourceCard.value) {
        return Fail(Rejected);
      }
    }
    if edit.targetCard.Some? && !ValidateCardinality(edit.targetCard.value) {
      return Fail(Rejected);
    }
    if edit.kind == Some(Containment) && was.kind != Containment && edit.sourceCard.None? {
      if !ContainmentSourceOk(was.sourceCardinality) {
        return Fail(Rejected);
      }
    }
    if edit.name.Some? && edit.name.value != current {
      var conflict := CheckNameConflict(db, latest, edit.name.value, current);
      if conflict.Fail? {
        return Fail(Conflict);
      }
    }
    return Pass;
  }

  lemma OnlyOne(associations: map<Id, Association>, ver: Id, name: string, s: Id)
    requires UniqueAssociationNames(associations)
    requires s in associations && associations[s].versionId == ver && associations[s].name == name
    ensures forall t :: t in associations && associations[t].versionId == ver && associations[t].name == name ==> t == s
  {
    forall t | t in associations && associations[t].versionId == ver && associations[t].name == name
      ensures t == s
    {
      assert SameAssocSlot(associations[s], associations[t]);
    }
  }

  lemma NewAssocNameFree(d: Db, e: Db, c: Change, s: Id, name: string, current: string, edit: AssocEdit)
    requires Indexed(d) && Next(d, e, c) && c.assocs == AssocsOf(d.associations, c.latest)
    requires s in e.associations && e.associations[s].versionId == c.ver && e.associations[s].name == current
    requires AssocEditable(d, c.latest, current, edit) && name == Or(edit.name, current)
    ensures forall t :: t in e.associations && t != s && e.associations[t].versionId == c.ver ==> e.associations[t].name != name
  {
    hide UniqueAttributeNames, IsLatest, AssocsOf, AttrsOf, FreshSchema, AssocNamed, AttrNamed, CardinalitiesOk;
    SameAssocNames(d, e, c, name);
    forall t | t in e.associations && t != s && e.associations[t].versionId == c.ver
      ensures e.associations[t].name != name
    {
      assert !SameAssocSlot(e.associations[s], e.associations[t]);
      if e.associations[t].name == name {
        IntroAssocNamed(e.associations, c.ver, name, t);
      }
    }
  }

  /** An edit keeps the graph acyclic exactly when it does not turn an association into a
      containment that closes a cycle, which the service does not check. */
  lemma EditKeepsAcyclic(d: Db, e: Db, c: Change, was: Association)
    requires SchemaInv(d) && FreshSchema(d) && Next(d, e, c)
    requires was in AssocsOf(d.associations, c.latest) && c.extra.target == was.target
    requires c.assocs == AssocsOf(d.associations, c.latest) - {was} + {c.extra}
    ensures Acyclic(ContainmentEdges(e)) <==>
              !(c.extra.kind.Containment? && Reaches(ContainmentEdges(d), c.extra.target, c.typeId))
    ensures was.kind.Containment? ==> Acyclic(ContainmentEdges(e))
  {
    hide NextVersion, AssocsOf, ContainmentEdges, FreshSchema, Acyclic, Numbered, SharedNames;
    NextKeepsAcyclic(d, e, c.typeId, c.latest, c.ver, c.row, c.attrs, c.assocs, c.extra);
    if was.kind.Containment? {
      NextIsLatest(d, e, c.typeId, c.latest, c.ver, c.row, c.attrs, c.assocs);
      LatestEdges(d, c.typeId, c.latest);
      assert (c.typeId, was.target) in EdgesFrom(c.typeId, AssocsOf(d.associations, c.latest));
      AcyclicMeansNoReturn(ContainmentEdges(d));
    }
  }

  ghost const CYCLE_BASE := Db(
    map[], map[], map[], map[], map[], map[], [], map[10 := "A", 20 := "B"],
    map[1 := TypeVersion(10, 1, ""), 2 := TypeVersion(20, 1, "")], map[],
    map[5 := Association(1, "parts", 20, Containment, "", "", "0..1", "0..n"),
        6 := Association(2, "owner", 10, Directional, "", "", "0..1", "0..n")],
    map[], map[], 100)

  lemma CycleBaseEdges()
    ensures ContainmentEdges(CYCLE_BASE) == {(10, 20)} && Acyclic({(10, 20)}) && Reaches({(10, 20)}, 10, 20)
  {
    forall e
      ensures e in ContainmentEdges(CYCLE_BASE) <==> e == (10, 20)
    {
      EdgeMembership(CYCLE_BASE, e);
      assert IsEdge(CYCLE_BASE, 5);
    }
    ReachesEdge({(10, 20)}, 10, 20);
    forall w | WalkFromTo({(10, 20)}, w, 20, 10)
      ensures false
    {
      ClosedUnderReach({(10, 20)}, {20}, w);
    }
    AcyclicMeansNoReturn({(10, 20)});
  }

  lemma CycleBaseIsFresh()
    ensures FreshSchema(CYCLE_BASE)
  {
  }

  lemma CycleBaseIsSound()
    ensures SchemaInv(CYCLE_BASE) && FreshSchema(CYCLE_BASE)
  {
    hide ContainmentEdges, Acyclic, Numbered, FreshSchema;
    CycleBaseEdges();
    CycleBaseIsFresh();
    CycleBaseIsNumbered();
  }

  lemma CycleBaseIsNumbered()
    ensures Numbered(CYCLE_BASE)
  {
    forall v, k: nat | v in CYCLE_BASE.versions && 1 <= k <= CYCLE_BASE.versions[v].version
      ensures HasVersion(CYCLE_BASE, CYCLE_BASE.versions[v].typeId, k)
    {
      assert CYCLE_BASE.versions[v].version == k;
    }
  }

  /** A contains B, and B has a plain link to A. Turning that link into a containment is
      accepted, and the graph has a cycle. */
  lemma TypeChangeClosesACycle(e: Db, c: Change)
    requires Next(CYCLE_BASE, e, c) && c.typeId == 20
    requires c.attrs == AttrsOf(CYCLE_BASE.attributes, c.latest)
    requires c.extra == EditedAssoc(BareAssoc(CYCLE_BASE.associations[6]), AssocEdit(None, None, None, None, None, Some(Containment)))
    requires c.assocs == AssocsOf(CYCLE_BASE.associations, c.latest) - {BareAssoc(CYCLE_BASE.associations[6])} + {c.extra}
    ensures AssocEditable(CYCLE_BASE, c.latest, "owner", AssocEdit(None, None, None, None, None, Some(Containment)))
    ensures SchemaInv(CYCLE_BASE) && !Acyclic(ContainmentEdges(e))
  {
    CycleBaseIsSound();
    CycleBaseEdges();
    hide SchemaInv, ContainmentEdges, Acyclic, FreshSchema, Reaches;
    var was := BareAssoc(CYCLE_BASE.associations[6]);
    assert c.latest == 2;
    assert CYCLE_BASE.associations[6].(versionId := 0) in AssocsOf(CYCLE_BASE.associations, 2);
    assert CardinalitiesOk(CYCLE_BASE.associations[6], AssocEdit(None, None, None, None, None, Some(Containment)));
    EditKeepsAcyclic(CYCLE_BASE, e, c, was);
  }
}
