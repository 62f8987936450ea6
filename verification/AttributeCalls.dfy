/** The attribute service: each edit of an entity type's attributes is a copy-on-write. */
module AttributeCalls {
  import opened Domain
  import opened Database
  import opened Digraph
  import opened DataSteps
  import opened Instances
  import opened SchemaHistory
  import opened CopyOnWrite

  predicate IsSystemName(name: string) {
    name == "name" || name == "description"
  }

  method FindAttribute(attributes: map<Id, Attribute>, ver: Id, name: string) returns (found: Option<Id>)
    ensures found.Some? ==> found.value in attributes && attributes[found.value].versionId == ver && attributes[found.value].name == name
    ensures found.None? ==> !AttrNamed(attributes, ver, name)
  {
    if a :| a in attributes && attributes[a].versionId == ver && attributes[a].name == name {
      return Some(a);
    }
    return None;
  }

  method FindOwnAssociation(associations: map<Id, Association>, ver: Id, name: string) returns (found: Option<Id>)
    ensures found.Some? ==> found.value in associations && associations[found.value].versionId == ver
                            && associations[found.value].name == name
    ensures found.None? ==> !AssocNamed(associations, ver, name)
  {
    if s :| s in associations && associations[s].versionId == ver && associations[s].name == name {
      return Some(s);
    }
    return None;
  }

  ghost predicate AttrNamed(attributes: map<Id, Attribute>, ver: Id, name: string) {
    exists a :: a in attributes && attributes[a].versionId == ver && attributes[a].name == name
  }

  ghost predicate AssocNamed(associations: map<Id, Association>, ver: Id, name: string) {
    exists s :: s in associations && associations[s].versionId == ver && associations[s].name == name
  }

  ghost predicate HasVersions(d: Db, typeId: Id) {
    exists v :: v in d.versions && d.versions[v].typeId == typeId
  }

  const NO_CONTAINMENT := Association(0, "", 0, Directional, "", "", "", "")

  lemma NoLatest(d: Db, typeId: Id)
    requires forall v :: v in d.versions ==> d.versions[v].typeId != typeId
    ensures forall v :: !IsLatest(d, typeId, v)
  {
  }

  /** The change a copy alone would be. */
  ghost function PlainChange(d: Db, typeId: Id, latest: Id, ver: Id, description: string): Change
    requires latest in d.versions
  {
    Change(typeId, latest, ver, NextRow(d, latest, description), AttrsOf(d.attributes, latest),
           AssocsOf(d.associations, latest), NO_CONTAINMENT)
  }

  lemma NamesStayApart(d: Db, latest: Id)
    requires SharedNames(d)
    ensures Apart(AttrsOf(d.attributes, latest), AssocsOf(d.associations, latest))
  {
  }

  lemma NamesInContent(d: Db, ver: Id, name: string)
    ensures AttrNamed(d.attributes, ver, name) <==> exists x :: x in AttrsOf(d.attributes, ver) && x.name == name
    ensures AssocNamed(d.associations, ver, name) <==> exists x :: x in AssocsOf(d.associations, ver) && x.name == name
  {
    if AttrNamed(d.attributes, ver, name) {
      var a :| a in d.attributes && d.attributes[a].versionId == ver && d.attributes[a].name == name;
      assert d.attributes[a].(versionId := 0) in AttrsOf(d.attributes, ver);
    }
    if AssocNamed(d.associations, ver, name) {
      var s :| s in d.associations && d.associations[s].versionId == ver && d.associations[s].name == name;
      assert d.associations[s].(versionId := 0) in AssocsOf(d.associations, ver);
    }
  }

  /** An edit that leaves the associations alone is safe when the names stay apart. */
  lemma AttributeChangeIsSafe(d: Db, e: Db, c: Change)
    requires Next(d, e, c) && Apart(c.attrs, c.assocs) && c.assocs == AssocsOf(d.associations, c.latest)
    requires c.extra == NO_CONTAINMENT
    ensures SchemaStep(d, e)
  {
    hide NextVersion, Apart, AssocsOf, ContainmentEdges;
    assert SafeNext(d, e, c);
  }

  // ---- add ----

  method AddAttribute(db: Store, typeId: Id, name: string, description: string, typeDef: Id, required: bool)
    returns (res: Result<Id>, ghost c: Change)
    requires Indexed(db.State())
    modifies db`versions, db`attributes, db`associations, db`nextId
    ensures res.Ok? ==>
              && Next(old(db.State()), db.State(), c) && c.typeId == typeId && c.ver == res.value
              && c.row.description == old(db.versions)[c.latest].description
              && c.attrs == AttrsOf(old(db.attributes), c.latest)
                            + {Attribute(0, name, description, typeDef, |AttrIds(old(db.attributes), c.latest)|, required)}
              && c.assocs == AssocsOf(old(db.associations), c.latest)
              && (SharedNames(old(db.State())) ==> SchemaStep(old(db.State()), db.State()))
    ensures res.Ok? ==>
              && c.latest in old(db.versions)
              && VersionBecomes(old(db.State()), db.State(), typeId, c.latest, res.value, old(db.versions)[c.latest].description, None,
                   {Attribute(res.value, name, description, typeDef, |AttrIds(old(db.attributes), c.latest)|, required)}, None, {})
    ensures res.Ok? <==> name !in {"", "name", "description"} && typeDef in old(db.typeDefs)
                         && IsLatest(old(db.State()), typeId, c.latest)
                         && !AttrNamed(old(db.attributes), c.latest, name) && !AssocNamed(old(db.associations), c.latest, name)
    ensures res.Err? ==> db.State() == old(db.State())
    ensures res.Err? ==>
              || name == "" || IsSystemName(name) || typeDef !in old(db.typeDefs) || !HasVersions(old(db.State()), typeId)
              || exists v :: IsLatest(old(db.State()), typeId, v)
                             && (AttrNamed(old(db.attributes), v, name) || AssocNamed(old(db.associations), v, name))
  {
    hide NextVersion, FreshSchema, UniqueAttributeNames, UniqueAssociationNames, IsLatest, AttrsOf, AssocsOf, SharedNames,
         Apart, SchemaStep, SchemaOnly, AttrNamed, AssocNamed, VersionBecomes;
    c := Change(0, 0, 0, TypeVersion(0, 0, ""), {}, {}, NO_CONTAINMENT);
    if name == "" || IsSystemName(name) || typeDef !in db.typeDefs {
      return Err(Rejected), c;
    }
    var found := GetLatest(db, typeId);
    if found.Err? {
      NoLatest(db.State(), typeId);
      return Err(NotFound), c;
    }
    var latest := found.value;
    c := c.(latest := latest);
    LatestIs(db.State(), typeId, latest);
    var attr := FindAttribute(db.attributes, latest, name);
    if attr.Some? {
      IntroAttrNamed(db.attributes, latest, name, attr.value);
      return Err(Conflict), c;
    }
    var assoc := FindOwnAssociation(db.associations, latest, name);
    if assoc.Some? {
      IntroAssocNamed(db.associations, latest, name, assoc.value);
      return Err(Conflict), c;
    }
    ghost var d := db.State();
    var count := |AttrIds(db.attributes, latest)|;
    var ver := CopyVersion(db, typeId, latest, db.versions[latest].description);
    c := PlainChange(d, typeId, latest, ver, d.versions[latest].description);
    ghost var e := db.State();
    var x := Attribute(ver, name, description, typeDef, count, required);
    NameStillFree(d, e, c, name);
    db.attributes, db.nextId := db.attributes[db.nextId := x], db.nextId + 1;
    OnlyAttributes(e, db.State());
    AttributeWritten(d, e, db.State(), typeId, latest, ver, c.row, c.attrs, c.assocs, e.nextId, x);
    c := c.(attrs := c.attrs + {Bare(x)});
    AttributesByRows(d, db.State(), c, None, Some(x));
    if SharedNames(d) {
      ApartWith(d, latest, Bare(x));
      AttributeChangeIsSafe(d, db.State(), c);
    }
    return Ok(ver), c;
  }

  lemma IntroAttrNamed(attributes: map<Id, Attribute>, ver: Id, name: string, a: Id)
    requires a in attributes && attributes[a].versionId == ver && attributes[a].name == name
    ensures AttrNamed(attributes, ver, name)
  {
  }

  lemma IntroAssocNamed(associations: map<Id, Association>, ver: Id, name: string, s: Id)
    requires s in associations && associations[s].versionId == ver && associations[s].name == name
    ensures AssocNamed(associations, ver, name)
  {
  }

  lemma OnlyAttributes(e: Db, f: Db)
    requires SchemaSame(e, f.(attributes := e.attributes)) && DataSame(e, f.(nextId := e.nextId)) && e.nextId <= f.nextId
    requires f.catalogs == e.catalogs && f.resources == e.resources
    ensures AttributesOnly(e, f)
  {
  }

  /** A name unused in the latest version is unused in the copy. */
  lemma NameStillFree(d: Db, e: Db, c: Change, name: string)
    requires FreshSchema(d) && Next(d, e, c)
    requires c.attrs == AttrsOf(d.attributes, c.latest) && !AttrNamed(d.attributes, c.latest, name)
    ensures forall a :: a in e.attributes && e.attributes[a].versionId == c.ver ==> e.attributes[a].name != name
    ensures e.nextId !in e.attributes
  {
    hide UniqueAttributeNames, UniqueAssociationNames, IsLatest, AssocsOf, AttrsOf, FreshSchema;
    NamesInContent(d, c.latest, name);
    NamesInContent(e, c.ver, name);
    NewRowsAreFresh(d, e, c.typeId, c.latest, c.ver, c.row, c.attrs, c.assocs);
  }

  lemma ApartWith(d: Db, latest: Id, x: Attribute)
    requires SharedNames(d) && !AssocNamed(d.associations, latest, x.name)
    ensures Apart(AttrsOf(d.attributes, latest) + {x}, AssocsOf(d.associations, latest))
  {
    hide SharedNames, AttrsOf, AssocsOf;
    NamesStayApart(d, latest);
    NamesInContent(d, latest, x.name);
  }

  // ---- remove ----

  ghost predicate NamedIn(attrs: set<Attribute>, name: string, x: Attribute) {
    x in attrs && x.name == name
  }

  /** The copy is made first: a name that is not there leaves an identical next version behind. */
  method RemoveAttribute(db: Store, typeId: Id, name: string) returns (res: Result<Id>, ghost c: Change, ghost gone: Attribute)
    requires Indexed(db.State())
    modifies db`versions, db`attributes, db`associations, db`nextId
    ensures res.Err? && !HasVersions(old(db.State()), typeId) ==> db.State() == old(db.State())
    ensures HasVersions(old(db.State()), typeId) ==>
              && Next(old(db.State()), db.State(), c) && c.typeId == typeId
              && c.assocs == AssocsOf(old(db.associations), c.latest)
              && (SharedNames(old(db.State())) ==> SchemaStep(old(db.State()), db.State()))
    ensures res.Ok? ==>
              && HasVersions(old(db.State()), typeId) && res.value == c.ver
              && NamedIn(AttrsOf(old(db.attributes), c.latest), name, gone)
              && c.attrs == AttrsOf(old(db.attributes), c.latest) - {gone}
    ensures HasVersions(old(db.State()), typeId) ==>
              && c.latest in old(db.versions)
              && VersionBecomes(old(db.State()), db.State(), typeId, c.latest, c.ver, old(db.versions)[c.latest].description,
                                if res.Ok? then Some(name) else None, {}, None, {})
    ensures res.Err? && HasVersions(old(db.State()), typeId) ==>
              !AttrNamed(old(db.attributes), c.latest, name) && c.attrs == AttrsOf(old(db.attributes), c.latest)
  {
    hide NextVersion, FreshSchema, UniqueAttributeNames, UniqueAssociationNames, IsLatest, AttrsOf, AssocsOf, SharedNames,
         Apart, SchemaStep, SchemaOnly, AttrNamed, AssocNamed, VersionBecomes;
    c, gone := Change(0, 0, 0, TypeVersion(0, 0, ""), {}, {}, NO_CONTAINMENT), Attribute(0, "", "", 0, 0, false);
    var found := GetLatest(db, typeId);
    if found.Err? {
      return Err(NotFound), c, gone;
    }
    var latest := found.value;
    LatestIs(db.State(), typeId, latest);
    ghost var d := db.State();
    var ver := CopyVersion(db, typeId, latest, db.versions[latest].description);
    c := PlainChange(d, typeId, latest, ver, d.versions[latest].description);
    ghost var e := db.State();
    var attr := FindAttribute(db.attributes, ver, name);
    SameNames(d, e, c, name);
    if attr.None? {
      if SharedNames(d) {
        NamesStayApart(d, latest);
        AttributeChangeIsSafe(d, e, c);
      }
      NoChangeByRows(d, e, c);
      return Err(NotFound), c, gone;
    }
    CopyHolds(d, e, c, attr.value);
    gone := Bare(db.attributes[attr.value]);
    db.attributes := db.attributes - {attr.value};
    OnlyAttributes(e, db.State());
    AttributeDropped(d, e, db.State(), typeId, latest, ver, c.row, c.attrs, c.assocs, attr.value);
    c := c.(attrs := c.attrs - {gone});
    AttributesByRows(d, db.State(), c, Some(gone), None);
    if SharedNames(d) {
      NamesStayApart(d, latest);
      FewerApart(AttrsOf(d.attributes, latest), c.attrs, c.assocs);
      AttributeChangeIsSafe(d, db.State(), c);
    }
    return Ok(ver), c, gone;
  }

  lemma SameNames(d: Db, e: Db, c: Change, name: string)
    requires Next(d, e, c) && c.attrs == AttrsOf(d.attributes, c.latest)
    ensures AttrNamed(e.attributes, c.ver, name) <==> AttrNamed(d.attributes, c.latest, name)
  {
    hide UniqueAttributeNames, UniqueAssociationNames, IsLatest, AssocsOf, AttrsOf, AttrNamed;
    NamesInContent(d, c.latest, name);
    NamesInContent(e, c.ver, name);
  }

  lemma CopyHolds(d: Db, e: Db, c: Change, a: Id)
    requires Next(d, e, c) && a in e.attributes && e.attributes[a].versionId == c.ver
    ensures Bare(e.attributes[a]) in c.attrs
  {
    hide UniqueAttributeNames, UniqueAssociationNames, IsLatest, AssocsOf;
  }

  lemma FewerApart(attrs: set<Attribute>, fewer: set<Attribute>, assocs: set<Association>)
    requires Apart(attrs, assocs) && fewer <= attrs
    ensures Apart(fewer, assocs)
  {
  }

  // ---- edit ----

  const NO_ID: Id := 0

  function Replaced(x: Attribute, name: Option<string>, description: Option<string>, typeDef: Option<Id>,
                    required: Option<bool>): Attribute {
    x.(name := if name.Some? then name.value else x.name,
       description := if description.Some? then description.value else x.description,
       typeDef := if typeDef.Some? then typeDef.value else x.typeDef,
       required := if required.Some? then required.value else x.required)
  }

  /** An empty type id is not looked up, and clears the type. */
  method EditAttribute(db: Store, typeId: Id, current: string, name: Option<string>, description: Option<string>,
                       typeDef: Option<Id>, required: Option<bool>)
    returns (res: Result<Id>, ghost c: Change, ghost was: Attribute)
    requires Indexed(db.State())
    modifies db`versions, db`attributes, db`associations, db`nextId
    ensures res.Ok? ==>
              && Next(old(db.State()), db.State(), c) && c.typeId == typeId && c.ver == res.value
              && NamedIn(AttrsOf(old(db.attributes), c.latest), current, was)
              && c.attrs == AttrsOf(old(db.attributes), c.latest) - {was} + {Replaced(was, name, description, typeDef, required)}
              && c.assocs == AssocsOf(old(db.associations), c.latest)
              && (SharedNames(old(db.State())) ==> SchemaStep(old(db.State()), db.State()))
    ensures res.Ok? ==>
              && c.latest in old(db.versions) && was.name == current
              && HasAttribute(old(db.attributes), Attribute(c.latest, current, was.description, was.typeDef, was.ordinal, was.required))
              && VersionBecomes(old(db.State()), db.State(), typeId, c.latest, res.value, old(db.versions)[c.latest].description,
                   Some(current),
                   {Attribute(res.value, if name.Some? then name.value else current,
                              if description.Some? then description.value else was.description,
                              if typeDef.Some? then typeDef.value else was.typeDef, was.ordinal,
                              if required.Some? then required.value else was.required)}, None, {})
    ensures res.Ok? <==> (name.Some? ==> name.value !in {"name", "description"})
                         && (typeDef.Some? && typeDef.value != NO_ID ==> typeDef.value in old(db.typeDefs))
                         && IsLatest(old(db.State()), typeId, c.latest)
                         && !Uneditable(old(db.State()), c.latest, current, name)
    ensures res.Err? ==> db.State() == old(db.State())
    ensures res.Err? ==>
              || (name.Some? && IsSystemName(name.value))
              || (typeDef.Some? && typeDef.value != NO_ID && typeDef.value !in old(db.typeDefs))
              || !HasVersions(old(db.State()), typeId)
              || exists v :: IsLatest(old(db.State()), typeId, v) && Uneditable(old(db.State()), v, current, name)
  {
    hide NextVersion, FreshSchema, UniqueAttributeNames, UniqueAssociationNames, IsLatest, AttrsOf, AssocsOf, SharedNames,
         Apart, SchemaStep, SchemaOnly, AttrNamed, AssocNamed, VersionBecomes, HasAttribute, Uneditable;
    c, was := Change(0, 0, 0, TypeVersion(0, 0, ""), {}, {}, NO_CONTAINMENT), Attribute(0, "", "", 0, 0, false);
    if name.Some? && IsSystemName(name.value) {
      return Err(Rejected), c, was;
    }
    if typeDef.Some? && typeDef.value != NO_ID && typeDef.value !in db.typeDefs {
      return Err(Rejected), c, was;
    }
    var found := GetLatest(db, typeId);
    if found.Err? {
      NoLatest(db.State(), typeId);
      return Err(NotFound), c, was;
    }
    var latest := found.value;
    c := c.(latest := latest);
    LatestIs(db.State(), typeId, latest);
    ghost var d := db.State();
    var checked := MayRename(db, latest, current, name);
    if checked.Fail? {
      return Err(checked.error), c, was;
    }
    var ver := CopyVersion(db, typeId, latest, db.versions[latest].description);
    c := PlainChange(d, typeId, latest, ver, d.versions[latest].description);
    ghost var e := db.State();
    var attr := FindAttribute(db.attributes, ver, current);
    SameNames(d, e, c, current);
    EditableIsThere(d, latest, current, name);
    var a := attr.value;
    var x := Replaced(db.attributes[a], name, description, typeDef, required);
    was := Bare(db.attributes[a]);
    db.attributes := db.attributes[a := x];
    OnlyAttributes(e, db.State());
    EditedIsNext(d, e, db.State(), c, a, was, x, current, name, description, typeDef, required);
    c := c.(attrs := c.attrs - {was} + {Replaced(was, name, description, typeDef, required)});
    return Ok(ver), c, was;
  }

  /** The edited copy: what the new version holds, and that the edit is safe. */
  lemma EditedIsNext(d: Db, e: Db, f: Db, c: Change, a: Id, was: Attribute, x: Attribute, current: string, name: Option<string>,
                     description: Option<string>, typeDef: Option<Id>, required: Option<bool>)
    requires Indexed(d) && Next(d, e, c) && AttributesOnly(e, f) && f.attributes == e.attributes[a := x]
    requires c.attrs == AttrsOf(d.attributes, c.latest) && c.assocs == AssocsOf(d.associations, c.latest) && c.extra == NO_CONTAINMENT
    requires a in e.attributes && e.attributes[a].versionId == c.ver && e.attributes[a].name == current && was == Bare(e.attributes[a])
    requires x == Replaced(e.attributes[a], name, description, typeDef, required)
    requires !Uneditable(d, c.latest, current, name)
    ensures was in c.attrs && was.name == current && x.versionId == c.ver && Bare(x) == Replaced(was, name, description, typeDef, required)
    ensures var n := c.(attrs := c.attrs - {was} + {Bare(x)});
            && Next(d, f, n) && (SharedNames(d) ==> SchemaStep(d, f))
            && VersionBecomes(d, f, c.typeId, c.latest, c.ver, c.row.description, Some(current), {x}, None, {})
    ensures HasAttribute(d.attributes, Attribute(c.latest, current, was.description, was.typeDef, was.ordinal, was.required))
  {
    hide NextVersion, FreshSchema, UniqueAttributeNames, UniqueAssociationNames, AttrsOf, AssocsOf, SharedNames, Apart, SchemaStep,
         AttrNamed, AssocNamed, VersionBecomes, HasAttribute, AttributesOnly;
    var n := c.(attrs := c.attrs - {was} + {Bare(x)});
    CopyHolds(d, e, c, a);
    NewNameFree(d, e, c, a, x.name);
    AttributeWritten(d, e, f, c.typeId, c.latest, c.ver, c.row, c.attrs, c.assocs, a, x);
    WasThere(d, c.latest, was, current);
    AttributesByRows(d, f, n, Some(was), Some(x));
    if SharedNames(d) {
      ApartInstead(d, c.latest, was, Bare(x));
      AttributeChangeIsSafe(d, f, n);
    }
  }

  lemma EditableIsThere(d: Db, v: Id, current: string, name: Option<string>)
    requires !Uneditable(d, v, current, name)
    ensures AttrNamed(d.attributes, v, current)
  {
  }

  lemma WasThere(d: Db, latest: Id, was: Attribute, current: string)
    requires was in AttrsOf(d.attributes, latest) && was.name == current
    ensures HasAttribute(d.attributes, Attribute(latest, current, was.description, was.typeDef, was.ordinal, was.required))
  {
    AttributesHeld(d.attributes, latest, Attribute(latest, current, was.description, was.typeDef, was.ordinal, was.required));
  }

  /** The attribute is missing, or its new name is taken by another one or by an association. */
  ghost predicate Uneditable(d: Db, v: Id, current: string, name: Option<string>) {
    || !AttrNamed(d.attributes, v, current)
    || (name.Some? && name.value != current
        && (AttrNamed(d.attributes, v, name.value) || AssocNamed(d.associations, v, name.value)))
  }

  method MayRename(db: Store, latest: Id, current: string, name: Option<string>) returns (out: Outcome)
    ensures out.Fail? <==> Uneditable(db.State(), latest, current, name)
  {
    var here := FindAttribute(db.attributes, latest, current);
    if name.Some? && name.value != current {
      var taken := FindAttribute(db.attributes, latest, name.value);
      if taken.Some? {
        return Fail(Conflict);
      }
    }
    if here.None? {
      return Fail(NotFound);
    }
    if name.Some? && name.value != current {
      var assoc := FindOwnAssociation(db.associations, latest, name.value);
      if assoc.Some? {
        return Fail(Conflict);
      }
    }
    return Pass;
  }

  lemma NewNameFree(d: Db, e: Db, c: Change, a: Id, name: string)
    requires Indexed(d) && Next(d, e, c) && c.attrs == AttrsOf(d.attributes, c.latest)
    requires a in e.attributes && e.attributes[a].versionId == c.ver
    requires name == e.attributes[a].name || !AttrNamed(d.attributes, c.latest, name)
    ensures forall b :: b in e.attributes && b != a && e.attributes[b].versionId == c.ver ==> e.attributes[b].name != name
  {
    hide UniqueAssociationNames, IsLatest, AssocsOf, AttrsOf, FreshSchema, AttrNamed;
    SameNames(d, e, c, name);
    forall b | b in e.attributes && b != a && e.attributes[b].versionId == c.ver
      ensures e.attributes[b].name != name
    {
      assert !SameSlot(e.attributes[a], e.attributes[b]);
      if e.attributes[b].name == name {
        IntroAttrNamed(e.attributes, c.ver, name, b);
      }
    }
  }

  lemma ApartInstead(d: Db, latest: Id, was: Attribute, x: Attribute)
    requires SharedNames(d) && was in AttrsOf(d.attributes, latest)
    requires x.name == was.name || !AssocNamed(d.associations, latest, x.name)
    ensures Apart(AttrsOf(d.attributes, latest) - {was} + {x}, AssocsOf(d.associations, latest))
  {
    hide SharedNames, AttrsOf, AssocsOf;
    NamesStayApart(d, latest);
    NamesInContent(d, latest, x.name);
  }

  // ---- reorder ----

  /** The last position of an id in a list. */
  ghost predicate LastPlace(ids: seq<Id>, a: Id, k: nat) {
    k < |ids| && ids[k] == a && forall j :: k < j < |ids| ==> ids[j] != a
  }

  /** Ordinals of the version follow the list; nothing else has changed. */
  ghost predicate Follows(was: map<Id, Attribute>, now: map<Id, Attribute>, latest: Id, ids: seq<Id>) {
    && now.Keys == was.Keys
    && (forall a :: a in was ==> now[a] == was[a].(ordinal := now[a].ordinal))
    && (forall a :: a in was && (was[a].versionId != latest || a !in ids) ==> now[a] == was[a])
    && (forall a, k: nat :: a in was && was[a].versionId == latest && LastPlace(ids, a, k) ==> now[a].ordinal == k)
  }

  lemma OneMorePlace(was: map<Id, Attribute>, now: map<Id, Attribute>, latest: Id, ids: seq<Id>, k: nat)
    requires k < |ids| && Follows(was, now, latest, ids[..k])
    ensures Follows(was, if ids[k] in was && was[ids[k]].versionId == latest
                         then now[ids[k] := now[ids[k]].(ordinal := k)] else now, latest, ids[..k + 1])
  {
    var next := if ids[k] in was && was[ids[k]].versionId == latest then now[ids[k] := now[ids[k]].(ordinal := k)] else now;
    var more := ids[..k + 1];
    assert more == ids[..k] + [ids[k]];
    forall a, j: nat | a in was && was[a].versionId == latest && LastPlace(more, a, j)
      ensures next[a].ordinal == j
    {
      assert more[k] == ids[k];
      if a != ids[k] {
        assert forall i :: 0 <= i < k ==> ids[..k][i] == more[i];
        assert LastPlace(ids[..k], a, j);
      }
    }
  }

  /** Ids of other versions, or of no attribute, are passed over. */
  method ReorderAttributes(db: Store, typeId: Id, ids: seq<Id>) returns (out: Outcome, ghost latest: Id)
    modifies db`attributes
    ensures out.Fail? <==> !HasVersions(old(db.State()), typeId)
    ensures out.Fail? ==> db.State() == old(db.State())
    ensures out.Pass? ==>
              && Reordered(old(db.State()), db.State(), typeId, latest) && SchemaStep(old(db.State()), db.State())
              && Follows(old(db.attributes), db.attributes, latest, ids)
  {
    hide IsLatest, Follows;
    latest := 0;
    var found := GetLatest(db, typeId);
    if found.Err? {
      return Fail(NotFound), latest;
    }
    latest := found.value;
    ghost var d := db.State();
    assert Follows(d.attributes, db.attributes, latest, ids[..0]) by {
      NothingReordered(d.attributes, latest, ids[..0]);
    }
    for k := 0 to |ids|
      invariant Follows(d.attributes, db.attributes, latest, ids[..k])
    {
      OneMorePlace(d.attributes, db.attributes, latest, ids, k);
      FollowsKeys(d.attributes, db.attributes, latest, ids[..k]);
      if ids[k] in db.attributes && db.attributes[ids[k]].versionId == found.value {
        db.attributes := db.attributes[ids[k] := db.attributes[ids[k]].(ordinal := k)];
      }
    }
    assert ids[..|ids|] == ids;
    ReorderIsStep(d, db.State(), typeId, latest, ids);
    return Pass, latest;
  }

  lemma NothingReordered(was: map<Id, Attribute>, latest: Id, ids: seq<Id>)
    requires ids == []
    ensures Follows(was, was, latest, ids)
  {
  }

  lemma FollowsKeys(was: map<Id, Attribute>, now: map<Id, Attribute>, latest: Id, ids: seq<Id>)
    requires Follows(was, now, latest, ids)
    ensures now.Keys == was.Keys && forall a :: a in was ==> now[a].versionId == was[a].versionId
  {
  }

  lemma ReorderIsStep(d: Db, e: Db, typeId: Id, latest: Id, ids: seq<Id>)
    requires IsLatest(d, typeId, latest) && Follows(d.attributes, e.attributes, latest, ids)
    requires SchemaOnly(d, e) && e.nextId == d.nextId
    requires e.types == d.types && e.versions == d.versions && e.associations == d.associations
    ensures Reordered(d, e, typeId, latest) && SchemaStep(d, e)
  {
    hide IsLatest, LastPlace, SchemaOnly;
    assert Reordered(d, e, typeId, latest);
  }

  // ---- copy from another type ----

  /** The names asked for, without the reserved ones. */
  function OwnNames(names: seq<string>): seq<string> {
    if names == [] then []
    else
      var rest := OwnNames(names[..|names| - 1]);
      if IsSystemName(names[|names| - 1]) then rest else rest + [names[|names| - 1]]
  }

  method FilterNames(names: seq<string>) returns (own: seq<string>)
    ensures own == OwnNames(names)
    ensures forall n :: n in own <==> n in names && n != "name" && n != "description"
  {
    own := [];
    for k := 0 to |names|
      invariant own == OwnNames(names[..k])
      invariant forall n :: n in own <==> n in names[..k] && n != "name" && n != "description"
    {
      assert names[..k + 1][..k] == names[..k];
      if !IsSystemName(names[k]) {
        own := own + [names[k]];
      }
    }
    assert names[..|names|] == names;
  }

  ghost predicate IsVersion(d: Db, typeId: Id, number: nat, v: Id) {
    v in d.versions && d.versions[v].typeId == typeId && d.versions[v].version == number
  }

  /** The source rows, one per name. */
  ghost predicate Found(attributes: map<Id, Attribute>, source: Id, names: seq<string>, rows: seq<Attribute>) {
    |rows| == |names| && forall k :: 0 <= k < |names| ==>
      rows[k] in attributes.Values && rows[k].versionId == source && rows[k].name == names[k]
  }

  /** The rows to add, placed after the target's own. */
  function Placed(rows: seq<Attribute>, ver: Id, from: nat, k: nat): Attribute
    requires k < |rows|
  {
    rows[k].(versionId := ver, ordinal := from + k)
  }

  /** They are the rows found, field by field, after as many as there were. */
  ghost function RowsPlaced(rows: seq<Attribute>, ver: Id, from: nat): set<Attribute> {
    set k | 0 <= k < |rows| ::
      Attribute(ver, rows[k].name, rows[k].description, rows[k].typeDef, from + k, rows[k].required)
  }

  lemma PlacedByRows(d: Db, e: Db, c: Change, rows: seq<Attribute>, from: nat)
    requires Indexed(d) && Next(d, e, c) && c.assocs == AssocsOf(d.associations, c.latest)
    requires c.attrs == AttrsOf(d.attributes, c.latest) + PlacedSet(rows, from)
    ensures VersionBecomes(d, e, c.typeId, c.latest, c.ver, c.row.description, None, RowsPlaced(rows, c.ver, from), None, {})
  {
    hide AttrsOf, AssocsOf, NextVersion, FreshSchema, UniqueAttributeNames, UniqueAssociationNames, VersionBecomes;
    NothingGone(d, c.latest);
    BareRowsPlaced(rows, c.ver, from);
    var more := RowsPlaced(rows, c.ver, from);
    ChangeByRows(d, e, c, None, {}, more, None, {}, {});
  }

  lemma BareRowsPlaced(rows: seq<Attribute>, ver: Id, from: nat)
    ensures (set x | x in RowsPlaced(rows, ver, from) :: Bare(x)) == PlacedSet(rows, from)
    ensures forall x :: x in RowsPlaced(rows, ver, from) ==> x.versionId == ver
  {
    var more := RowsPlaced(rows, ver, from);
    forall y | y in PlacedSet(rows, from)
      ensures y in set x | x in more :: Bare(x)
    {
      var k: nat :| k < |rows| && Placed(rows, 0, from, k) == y;
      var x := Attribute(ver, rows[k].name, rows[k].description, rows[k].typeDef, from + k, rows[k].required);
      assert x in more && Bare(x) == y;
    }
    forall x | x in more
      ensures Bare(x) in PlacedSet(rows, from)
    {
      var k: nat :| k < |rows| && x == Attribute(ver, rows[k].name, rows[k].description, rows[k].typeDef, from + k, rows[k].required);
      assert Bare(x) == Placed(rows, 0, from, k);
    }
  }

  ghost function PlacedSet(rows: seq<Attribute>, from: nat): set<Attribute> {
    set k | 0 <= k < |rows| :: Placed(rows, 0, from, k)
  }

  method CollectRows(attributes: map<Id, Attribute>, source: Id, latest: Id, names: seq<string>) returns (res: Result<seq<Attribute>>)
    ensures res.Ok? ==> Found(attributes, source, names, res.value)
    ensures res.Ok? ==> forall k :: 0 <= k < |names| ==> !AttrNamed(attributes, latest, names[k])
    ensures res.Err? ==> exists k :: 0 <= k < |names| && (AttrNamed(attributes, latest, names[k]) || !AttrNamed(attributes, source, names[k]))
  {
    var rows: seq<Attribute> := [];
    for k := 0 to |names|
      invariant |rows| == k
      invariant forall j :: 0 <= j < k ==> rows[j] in attributes.Values && rows[j].versionId == source && rows[j].name == names[j]
      invariant forall j :: 0 <= j < k ==> !AttrNamed(attributes, latest, names[j])
    {
      var taken := FindAttribute(attributes, latest, names[k]);
      if taken.Some? {
        return Err(Conflict);
      }
      var found := FindAttribute(attributes, source, names[k]);
      if found.None? {
        return Err(NotFound);
      }
      assert attributes[found.value] in attributes.Values;
      rows := rows + [attributes[found.value]];
    }
    return Ok(rows);
  }

  method FindVersion(db: Store, typeId: Id, number: nat) returns (found: Option<Id>)
    ensures found.Some? ==> IsVersion(db.State(), typeId, number, found.value)
    ensures found.None? ==> forall v :: !IsVersion(db.State(), typeId, number, v)
  {
    if v :| v in db.versions && db.versions[v].typeId == typeId && db.versions[v].version == number {
      return Some(v);
    }
    return None;
  }

  ghost predicate DistinctNames(names: seq<string>) {
    forall j, k :: 0 <= j < k < |names| ==> names[j] != names[k]
  }

  /** What the call asks of its arguments before it writes. */
  ghost predicate Copyable(d: Db, source: Id, latest: Id, own: seq<string>) {
    && own != []
    && forall k :: 0 <= k < |own| ==> !AttrNamed(d.attributes, latest, own[k]) && AttrNamed(d.attributes, source, own[k])
  }

  /** Names are checked against the target's attributes only, so an association may share the
      name of what is copied. A name asked for twice stops the copying after the first. */
  method CopyAttributesFromType(db: Store, target: Id, source: Id, number: nat, names: seq<string>)
    returns (res: Result<Id>, ghost c: Change, ghost rows: seq<Attribute>)
    requires Indexed(db.State())
    modifies db`versions, db`attributes, db`associations, db`nextId
    ensures rows == [] ==> db.State() == old(db.State()) && res.Err?
    ensures rows == [] ==>
              || OwnNames(names) == [] || !HasVersions(old(db.State()), target)
              || (forall v :: !IsVersion(old(db.State()), source, number, v))
              || exists s, v :: IsVersion(old(db.State()), source, number, s) && IsLatest(old(db.State()), target, v)
                                && !Copyable(old(db.State()), s, v, OwnNames(names))
    ensures rows != [] ==>
              && |rows| <= |OwnNames(names)| && Next(old(db.State()), db.State(), c) && c.typeId == target
              && (exists s :: IsVersion(old(db.State()), source, number, s)
                              && Found(old(db.attributes), s, OwnNames(names)[..|rows|], rows))
              && c.attrs == AttrsOf(old(db.attributes), c.latest) + PlacedSet(rows, |AttrIds(old(db.attributes), c.latest)|)
              && c.assocs == AssocsOf(old(db.associations), c.latest)
              && (res.Ok? <==> |rows| == |OwnNames(names)|)
    ensures rows != [] ==>
              && c.latest in old(db.versions)
              && VersionBecomes(old(db.State()), db.State(), target, c.latest, c.ver, old(db.versions)[c.latest].description, None,
                                RowsPlaced(rows, c.ver, |AttrIds(old(db.attributes), c.latest)|), None, {})
    ensures res.Ok? ==> rows != [] && res.value == c.ver && DistinctNames(OwnNames(names))
    ensures res.Err? && rows != [] ==> !DistinctNames(OwnNames(names))
  {
    hide NextVersion, FreshSchema, UniqueAttributeNames, UniqueAssociationNames, IsLatest, AttrsOf, AssocsOf, SharedNames,
         Apart, SchemaStep, SchemaOnly, AttrNamed, AssocNamed, Found, DistinctNames, PlacedSet, IsVersion, OwnNames,
         VersionBecomes, RowsPlaced;
    c, rows := Change(0, 0, 0, TypeVersion(0, 0, ""), {}, {}, NO_CONTAINMENT), [];
    var own := FilterNames(names);
    if own == [] {
      return Err(Rejected), c, rows;
    }
    var src := FindVersion(db, source, number);
    if src.None? {
      return Err(NotFound), c, rows;
    }
    ghost var d := db.State();
    var found := GetLatest(db, target);
    if found.Err? {
      return Err(NotFound), c, rows;
    }
    var latest := found.value;
    LatestIs(d, target, latest);
    var collected := CollectRows(db.attributes, src.value, latest, own);
    if collected.Err? {
      NotCopyable(d, src.value, latest, own);
      return Err(collected.error), c, rows;
    }
    var count := |AttrIds(db.attributes, latest)|;
    var ver := CopyVersion(db, target, latest, db.versions[latest].description);
    c := PlainChange(d, target, latest, ver, d.versions[latest].description);
    FoundNames(d.attributes, src.value, own, collected.value);
    var n;
    n, c := AddRows(db, collected.value, ver, count, d, c);
    rows := collected.value[..n];
    FoundPrefix(d.attributes, src.value, own, collected.value, n);
    PlacedByRows(d, db.State(), c, rows, count);
    if n < |own| {
      return Err(Conflict), c, rows;
    }
    assert collected.value[..n] == collected.value && own[..n] == own;
    return Ok(ver), c, rows;
  }

  lemma FoundNames(attributes: map<Id, Attribute>, source: Id, names: seq<string>, rows: seq<Attribute>)
    requires Found(attributes, source, names, rows)
    ensures |rows| == |names| && forall k :: 0 <= k < |rows| ==> rows[k].name == names[k]
  {
  }

  /** Whether a name repeats is settled by where the copying stopped. */
  lemma FoundPrefix(attributes: map<Id, Attribute>, source: Id, names: seq<string>, rows: seq<Attribute>, n: nat)
    requires Found(attributes, source, names, rows) && n <= |rows|
    requires forall j, k :: 0 <= j < k < n ==> rows[j].name != rows[k].name
    requires n < |rows| ==> exists j :: 0 <= j < n && rows[j].name == rows[n].name
    ensures Found(attributes, source, names[..n], rows[..n])
    ensures DistinctNames(names) <==> n == |rows|
  {
    if n < |rows| {
      var j :| 0 <= j < n && rows[j].name == rows[n].name;
      assert names[j] == names[n];
    } else {
      assert forall j :: 0 <= j < |rows| ==> rows[j].name == names[j];
    }
  }

  /** Stops at the first row whose name the version already has. */
  method AddRows(db: Store, rows: seq<Attribute>, ver: Id, count: nat, ghost d: Db, ghost start: Change)
    returns (n: nat, ghost c: Change)
    requires FreshSchema(d) && Next(d, db.State(), start) && start.ver == ver && rows != []
    requires start.attrs == AttrsOf(d.attributes, start.latest)
    requires forall k :: 0 <= k < |rows| ==> !AttrNamed(d.attributes, start.latest, rows[k].name)
    modifies db`attributes, db`nextId
    ensures 0 < n <= |rows| && Next(d, db.State(), c) && c == start.(attrs := start.attrs + PlacedSet(rows[..n], count))
    ensures forall j, k :: 0 <= j < k < n ==> rows[j].name != rows[k].name
    ensures n < |rows| ==> exists j :: 0 <= j < n && rows[j].name == rows[n].name
  {
    hide NextVersion, FreshSchema, AttrsOf, AssocsOf, SchemaOnly, AttrNamed, PlacedSet;
    c := start;
    NothingPlaced(rows, count);
    assert rows[..0] == [] && start.attrs + {} == start.attrs;
    for k := 0 to |rows|
      invariant Next(d, db.State(), c) && c == start.(attrs := start.attrs + PlacedSet(rows[..k], count))
      invariant forall i, j :: 0 <= i < j < k ==> rows[i].name != rows[j].name
    {
      ghost var e := db.State();
      TakenBy(d, e, start, c, rows, k, count);
      if a :| a in db.attributes && db.attributes[a].versionId == ver && db.attributes[a].name == rows[k].name {
        assert k > 0;
        return k, c;
      }
      var x := Placed(rows, ver, count, k);
      NextIdFree(d, e, c);
      db.attributes, db.nextId := db.attributes[db.nextId := x], db.nextId + 1;
      OnlyAttributes(e, db.State());
      AttributeWritten(d, e, db.State(), c.typeId, c.latest, ver, c.row, c.attrs, c.assocs, e.nextId, x);
      OneMorePlaced(rows, count, k, start.attrs);
      assert Bare(x) == Placed(rows, 0, count, k);
      c := c.(attrs := c.attrs + {Bare(x)});
    }
    assert rows[..|rows|] == rows;
    return |rows|, c;
  }

  lemma NothingPlaced(rows: seq<Attribute>, count: nat)
    ensures PlacedSet([], count) == {}
  {
  }

  lemma OneMorePlaced(rows: seq<Attribute>, count: nat, k: nat, base: set<Attribute>)
    requires k < |rows|
    ensures (base + PlacedSet(rows[..k], count)) + {Placed(rows, 0, count, k)} == base + PlacedSet(rows[..k + 1], count)
  {
    var less, more := rows[..k], rows[..k + 1];
    forall x | x in PlacedSet(more, count)
      ensures x in PlacedSet(less, count) || x == Placed(rows, 0, count, k)
    {
      var j: nat :| j < |more| && Placed(more, 0, count, j) == x;
      if j < k {
        assert Placed(less, 0, count, j) == x;
      }
    }
    forall x | x in PlacedSet(less, count)
      ensures x in PlacedSet(more, count)
    {
      var j: nat :| j < |less| && Placed(less, 0, count, j) == x;
      assert Placed(more, 0, count, j) == x;
    }
    assert Placed(more, 0, count, k) == Placed(rows, 0, count, k);
  }

  lemma NextIdFree(d: Db, e: Db, c: Change)
    requires FreshSchema(d) && Next(d, e, c)
    ensures e.nextId !in e.attributes
  {
    hide FreshSchema, NextVersion;
    NewRowsAreFresh(d, e, c.typeId, c.latest, c.ver, c.row, c.attrs, c.assocs);
  }

  /** A name the version has is one placed before. */
  lemma TakenBy(d: Db, e: Db, start: Change, c: Change, rows: seq<Attribute>, k: nat, count: nat)
    requires k < |rows| && Next(d, e, c) && c == start.(attrs := start.attrs + PlacedSet(rows[..k], count))
    requires start.attrs == AttrsOf(d.attributes, start.latest)
    requires !AttrNamed(d.attributes, start.latest, rows[k].name)
    ensures (exists a :: a in e.attributes && e.attributes[a].versionId == c.ver && e.attributes[a].name == rows[k].name) <==>
            exists j :: 0 <= j < k && rows[j].name == rows[k].name
  {
    hide AttrsOf, NextVersion, PlacedSet;
    var name := rows[k].name;
    NamesInContent(d, start.latest, name);
    NamesInContent(e, c.ver, name);
    NextParts(d, e, c.typeId, c.latest, c.ver, c.row, c.attrs, c.assocs);
    PlacedNames(rows, count, k, name);
    assert forall x :: x in AttrsOf(e.attributes, c.ver) <==> x in start.attrs || x in PlacedSet(rows[..k], count);
  }

  lemma PlacedNames(rows: seq<Attribute>, count: nat, k: nat, name: string)
    requires k <= |rows|
    ensures (exists x :: x in PlacedSet(rows[..k], count) && x.name == name) <==> exists j :: 0 <= j < k && rows[j].name == name
  {
    if j :| 0 <= j < k && rows[j].name == name {
      assert Placed(rows[..k], 0, count, j).name == name;
      assert Placed(rows[..k], 0, count, j) in PlacedSet(rows[..k], count);
    }
    if x :| x in PlacedSet(rows[..k], count) && x.name == name {
      var j: nat :| j < k && Placed(rows[..k], 0, count, j) == x;
      assert rows[j].name == name;
    }
  }

  lemma NotCopyable(d: Db, s: Id, latest: Id, own: seq<string>)
    requires exists k :: 0 <= k < |own| && (AttrNamed(d.attributes, latest, own[k]) || !AttrNamed(d.attributes, s, own[k]))
    ensures !Copyable(d, s, latest, own)
  {
    hide AttrNamed;
  }

  /** Copied attributes keep the names of the version apart exactly when none of them is the
      name of one of its associations. */
  lemma CopiedNamesApart(d: Db, e: Db, c: Change, rows: seq<Attribute>, count: nat)
    requires FreshSchema(d) && SharedNames(d) && Next(d, e, c)
    requires c.attrs == AttrsOf(d.attributes, c.latest) + PlacedSet(rows, count) && c.assocs == AssocsOf(d.associations, c.latest)
    ensures SharedNames(e) <==> forall k :: 0 <= k < |rows| ==> !AssocNamed(d.associations, c.latest, rows[k].name)
  {
    hide SharedNames, AttrsOf, AssocsOf, FreshSchema, NextVersion, AssocNamed;
    NextKeepsNames(d, e, c.typeId, c.latest, c.ver, c.row, c.attrs, c.assocs);
    NamesStayApart(d, c.latest);
    forall k | 0 <= k < |rows|
      ensures Placed(rows, 0, count, k) in c.attrs && Placed(rows, 0, count, k).name == rows[k].name
      ensures AssocNamed(d.associations, c.latest, rows[k].name) <==> exists y :: y in c.assocs && y.name == rows[k].name
    {
      assert Placed(rows, 0, count, k) in PlacedSet(rows, count);
      NamesInContent(d, c.latest, rows[k].name);
    }
    if forall k :: 0 <= k < |rows| ==> !AssocNamed(d.associations, c.latest, rows[k].name) {
      forall x, y | x in c.attrs && y in c.assocs
        ensures x.name != y.name
      {
        if x in PlacedSet(rows, count) {
          var k: nat :| k < |rows| && Placed(rows, 0, count, k) == x;
          assert !AssocNamed(d.associations, c.latest, rows[k].name);
        }
      }
    }
  }

  /** A has an association "size"; B has an attribute "size". */
  ghost const COLLIDING := Db(
    map[], map[], map[], map[], map[], map[], [], map[10 := "A", 20 := "B"],
    map[1 := TypeVersion(10, 1, ""), 2 := TypeVersion(20, 1, "")],
    map[50 := Attribute(2, "size", "", 60, 0, false)],
    map[5 := Association(1, "size", 20, Directional, "", "", "0..1", "0..n")],
    map[60 := TypeInfo(StringT, Constraints(false, {}, None, None, None, None, None))], map[], 100)

  lemma CollidingIsFresh()
    ensures FreshSchema(COLLIDING) && SharedNames(COLLIDING)
  {
  }

  /** Copying "size" from B to A is accepted, and A's next version has two things of that name. */
  lemma CopiedNameCollides(e: Db, c: Change)
    requires Next(COLLIDING, e, c) && c.typeId == 10 && c.assocs == AssocsOf(COLLIDING.associations, c.latest)
    requires c.attrs == AttrsOf(COLLIDING.attributes, c.latest) + PlacedSet([COLLIDING.attributes[50]], 0)
    ensures c.latest == 1 && Copyable(COLLIDING, 2, c.latest, ["size"])
    ensures SharedNames(COLLIDING) && !SharedNames(e)
  {
    hide SharedNames, FreshSchema, AttrsOf, AssocsOf, PlacedSet;
    CollidingIsFresh();
    assert c.latest == 1;
    assert AttrNamed(COLLIDING.attributes, 2, "size") by {
      assert 50 in COLLIDING.attributes;
    }
    assert AssocNamed(COLLIDING.associations, 1, "size") by {
      assert 5 in COLLIDING.associations;
    }
    var rows := [COLLIDING.attributes[50]];
    CopiedNamesApart(COLLIDING, e, c, rows, 0);
    assert AssocNamed(COLLIDING.associations, c.latest, rows[0].name);
  }
}
