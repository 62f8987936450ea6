/** What the calls of the instance service are made of: finding rows by name, reading the values
    of a request, carrying values forward, and writing an instance with its rows. */
module Instances {
  import opened Domain
  import opened Database
  import opened Conformance
  import opened Revisions
  import opened Digraph
  import opened Forest
  import opened Containment
  import opened DataSteps
  import opened Staleness
  import CatalogVersions

  // ---- looking things up ----

  /** Entity type names carry a unique index. */
  ghost predicate UniqueTypeNames(d: Db) {
    forall s, t :: s in d.types && t in d.types && d.types[s] == d.types[t] ==> s == t
  }

  predicate SameAssocSlot(x: Association, y: Association) {
    x.versionId == y.versionId && x.name == y.name
  }

  /** The version has an association of this name. */
  predicate OwnAssociation(associations: map<Id, Association>, ver: Id, name: string, s: Id) {
    s in associations && associations[s].versionId == ver && associations[s].name == name
  }

  ghost predicate UniqueAssociationNames(associations: map<Id, Association>) {
    forall s, t :: s in associations && t in associations && SameAssocSlot(associations[s], associations[t]) ==> s == t
  }

  /** What makes every lookup by name lead to one row: the unique indexes, pins of existing
      versions, and one pin per entity type. */
  ghost predicate Unambiguous(d: Db) {
    && UniqueNames(d.catalogs) && UniqueTypeNames(d) && UniqueAssociationNames(d.associations) && CatalogVersions.PinsDistinct(d)
    && forall p :: p in d.pins ==> d.pins[p].versionId in d.versions
  }

  method FindType(types: map<Id, string>, name: string) returns (found: Option<Id>)
    ensures found.Some? ==> found.value in types && types[found.value] == name
    ensures found.None? ==> forall t :: t in types ==> types[t] != name
  {
    if t :| t in types && types[t] == name {
      return Some(t);
    }
    return None;
  }

  /** "ver" is the version of the named entity type that the named catalog pins. */
  ghost predicate Resolves(d: Db, catalogName: string, typeName: string, c: Id, ver: Id) {
    && c in d.catalogs && d.catalogs[c].name == catalogName
    && Pin(d.catalogs[c].cvId, ver) in d.pins.Values
    && ver in d.versions && d.versions[ver].typeId in d.types && d.types[d.versions[ver].typeId] == typeName
  }

  /** The result is all there is to find. */
  ghost predicate Decides(d: Db, catalogName: string, typeName: string, res: Result<(Id, Id)>) {
    forall c: Id, ver: Id :: Resolves(d, catalogName, typeName, c, ver) <==> res == Ok((c, ver))
  }

  lemma NoCatalog(d: Db, catalogName: string, typeName: string, e: Error)
    requires (forall c :: c in d.catalogs ==> d.catalogs[c].name != catalogName) || (forall t :: t in d.types ==> d.types[t] != typeName)
    ensures Decides(d, catalogName, typeName, Err(e))
  {
  }

  lemma OneCatalogAndType(d: Db, catalogName: string, typeName: string, c: Id, t: Id, k: Id, ver: Id)
    requires UniqueNames(d.catalogs) && UniqueTypeNames(d)
    requires c in d.catalogs && d.catalogs[c].name == catalogName && t in d.types && d.types[t] == typeName
    requires Resolves(d, catalogName, typeName, k, ver)
    ensures k == c && d.versions[ver].typeId == t && exists p :: p in d.pins && d.pins[p] == Pin(d.catalogs[c].cvId, ver)
  {
  }

  lemma PinFound(d: Db, catalogName: string, typeName: string, c: Id, t: Id, p: Id)
    requires c in d.catalogs && d.catalogs[c].name == catalogName && t in d.types && d.types[t] == typeName
    requires p in d.pins && d.pins[p].cvId == d.catalogs[c].cvId
    requires d.pins[p].versionId in d.versions && d.versions[d.pins[p].versionId].typeId == t
    ensures Resolves(d, catalogName, typeName, c, d.pins[p].versionId)
    ensures Unambiguous(d) ==> Decides(d, catalogName, typeName, Ok((c, d.pins[p].versionId)))
  {
    assert d.pins[p] == Pin(d.catalogs[c].cvId, d.pins[p].versionId);
    if Unambiguous(d) {
      forall k: Id, ver: Id | Resolves(d, catalogName, typeName, k, ver)
        ensures k == c && ver == d.pins[p].versionId
      {
        OneCatalogAndType(d, catalogName, typeName, c, t, k, ver);
        var q :| q in d.pins && d.pins[q] == Pin(d.catalogs[c].cvId, ver);
        assert CatalogVersions.SamePinned(d, p, q);
      }
    }
  }

  lemma NoPinFound(d: Db, catalogName: string, typeName: string, c: Id, t: Id, e: Error)
    requires c in d.catalogs && d.catalogs[c].name == catalogName && t in d.types && d.types[t] == typeName
    requires forall p :: p in d.pins && d.pins[p].cvId == d.catalogs[c].cvId && d.pins[p].versionId in d.versions ==>
               d.versions[d.pins[p].versionId].typeId != t
    ensures Unambiguous(d) ==> Decides(d, catalogName, typeName, Err(e))
  {
    if Unambiguous(d) {
      forall k: Id, ver: Id
        ensures !Resolves(d, catalogName, typeName, k, ver)
      {
        if Resolves(d, catalogName, typeName, k, ver) {
          OneCatalogAndType(d, catalogName, typeName, c, t, k, ver);
        }
      }
    }
  }

  /** The catalog and the pinned version of the type in it. A pin of a version that does not
      exist fails the call. */
  method ResolveEntityType(db: Store, catalogName: string, typeName: string) returns (res: Result<(Id, Id)>)
    ensures res.Ok? ==> Resolves(db.State(), catalogName, typeName, res.value.0, res.value.1)
    ensures Unambiguous(db.State()) ==> Decides(db.State(), catalogName, typeName, res)
  {
    hide Resolves, Decides;
    var c := FindCatalog(db.catalogs, catalogName);
    if c.None? {
      NoCatalog(db.State(), catalogName, typeName, NotFound);
      return Err(NotFound);
    }
    var t := FindType(db.types, typeName);
    if t.None? {
      NoCatalog(db.State(), catalogName, typeName, NotFound);
      return Err(NotFound);
    }
    var all := set p | p in db.pins && db.pins[p].cvId == db.catalogs[c.value].cvId;
    var todo := all;
    while todo != {}
      invariant todo <= all
      invariant forall p :: p in all - todo ==> db.pins[p].versionId in db.versions && db.versions[db.pins[p].versionId].typeId != t.value
      decreases todo
    {
      var p :| p in todo;
      var ver := db.pins[p].versionId;
      if ver !in db.versions {
        return Err(Integrity);
      }
      if db.versions[ver].typeId == t.value {
        PinFound(db.State(), catalogName, typeName, c.value, t.value, p);
        return Ok((c.value, ver));
      }
      todo := todo - {p};
    }
    assert forall p :: p in db.pins && db.pins[p].cvId == db.catalogs[c.value].cvId ==> p in all;
    NoPinFound(db.State(), catalogName, typeName, c.value, t.value, NotFound);
    return Err(NotFound);
  }

  // ---- attribute input ----

  /** How raw input is rendered and read; the text forms themselves are not modelled. */
  datatype Codec = Codec(format: Json -> string, parseFloat: string -> Option<real>, marshal: Json -> string)

  /** One input value: nothing for null and the empty string, which clear the attribute. */
  function ParseInput(codec: Codec, base: BaseType, raw: Json): Result<Option<Value>> {
    if raw.JNull? || raw == JStr("") then Ok(None)
    else
      match base
      case StringT | UrlT | DateT | EnumT | BooleanT => Ok(Some(Value(codec.format(raw), None, "")))
      case IntegerT | NumberT =>
        (match raw
         case JNum(x) => Ok(Some(Value("", Some(x), "")))
         case JStr(s) =>
           var x := codec.parseFloat(s);
           if x.Some? then Ok(Some(Value("", x, ""))) else Err(Rejected)
         case _ => Err(Rejected))
      case ListT | JsonT =>
        (match raw
         case JStr(s) => Ok(Some(Value("", None, s)))
         case _ => Ok(Some(Value("", None, codec.marshal(raw)))))
  }

  /** The schema of one entity type version, as input is checked against it. */
  datatype Schema = Schema(attributes: map<Id, Attribute>, typeDefs: map<Id, TypeInfo>, version: Id)

  predicate InSchema(s: Schema, a: Id) {
    a in s.attributes && s.attributes[a].versionId == s.version
  }

  function BaseOf(s: Schema, a: Id): BaseType
    requires InSchema(s, a) && s.attributes[a].typeDef in s.typeDefs
  {
    s.typeDefs[s.attributes[a].typeDef].base
  }

  predicate SameSlot(x: Attribute, y: Attribute) {
    x.versionId == y.versionId && x.name == y.name
  }

  /** Attribute names are unique within a version. */
  ghost predicate UniqueAttributeNames(attributes: map<Id, Attribute>) {
    forall a, b :: a in attributes && b in attributes && SameSlot(attributes[a], attributes[b]) ==> a == b
  }

  ghost predicate SchemaResolves(s: Schema) {
    forall a :: InSchema(s, a) ==> s.attributes[a].typeDef in s.typeDefs
  }

  /** Every name in the input is an attribute of the version and its value can be read. */
  ghost predicate InputAccepted(codec: Codec, s: Schema, input: map<string, Json>) {
    && SchemaResolves(s)
    && forall n :: n in input ==> EntryAccepted(codec, s, n, input[n])
  }

  ghost predicate EntryAccepted(codec: Codec, s: Schema, n: string, raw: Json)
    requires SchemaResolves(s)
  {
    exists a :: InSchema(s, a) && s.attributes[a].name == n && ParseInput(codec, BaseOf(s, a), raw).Ok?
  }

  /** "touched" holds exactly the attributes named in the input, each with the value read. */
  ghost predicate ReadFrom(codec: Codec, s: Schema, input: map<string, Json>, touched: map<Id, Option<Value>>)
    requires SchemaResolves(s)
  {
    && (forall a :: a in touched <==> InSchema(s, a) && s.attributes[a].name in input)
    && (forall a :: a in touched && InSchema(s, a) && s.attributes[a].name in input ==>
          ParseInput(codec, BaseOf(s, a), input[s.attributes[a].name]) == Ok(touched[a]))
  }

  method IndexByName(s: Schema) returns (byName: map<string, Id>)
    requires UniqueAttributeNames(s.attributes)
    ensures forall n :: n in byName <==> exists a :: InSchema(s, a) && s.attributes[a].name == n
    ensures forall n :: n in byName ==> InSchema(s, byName[n]) && s.attributes[byName[n]].name == n
    ensures forall a :: InSchema(s, a) ==> s.attributes[a].name in byName && byName[s.attributes[a].name] == a
  {
    byName := map[];
    var todo := set a | a in s.attributes && s.attributes[a].versionId == s.version;
    ghost var all := todo;
    while todo != {}
      invariant todo <= all
      invariant forall n :: n in byName ==> InSchema(s, byName[n]) && byName[n] !in todo && s.attributes[byName[n]].name == n
      invariant forall a :: InSchema(s, a) && a !in todo ==> s.attributes[a].name in byName
      decreases todo
    {
      var a :| a in todo;
      byName := byName[s.attributes[a].name := a];
      todo := todo - {a};
    }
  }

  /** The entries named in "done" have been read. */
  ghost predicate EntriesRead(codec: Codec, s: Schema, input: map<string, Json>, touched: map<Id, Option<Value>>, done: set<string>)
    requires SchemaResolves(s)
  {
    && done <= input.Keys
    && (forall a :: a in touched <==> InSchema(s, a) && s.attributes[a].name in done)
    && (forall a :: a in touched && InSchema(s, a) && s.attributes[a].name in input ==>
          ParseInput(codec, BaseOf(s, a), input[s.attributes[a].name]) == Ok(touched[a]))
    && forall n :: n in done ==> EntryAccepted(codec, s, n, input[n])
  }

  lemma EntryRead(codec: Codec, s: Schema, input: map<string, Json>, touched: map<Id, Option<Value>>, done: set<string>, n: string,
                  a: Id, value: Option<Value>)
    requires SchemaResolves(s) && EntriesRead(codec, s, input, touched, done) && n in input && n !in done
    requires InSchema(s, a) && forall b :: InSchema(s, b) && s.attributes[b].name == n <==> b == a
    requires ParseInput(codec, BaseOf(s, a), input[n]) == Ok(value)
    ensures EntriesRead(codec, s, input, touched[a := value], done + {n})
  {
    hide ParseInput;
    assert EntryAccepted(codec, s, n, input[n]);
  }

  lemma EntryRefused(codec: Codec, s: Schema, input: map<string, Json>, n: string)
    requires SchemaResolves(s) && n in input
    requires forall a :: InSchema(s, a) && s.attributes[a].name == n ==> ParseInput(codec, BaseOf(s, a), input[n]).Err?
    ensures !InputAccepted(codec, s, input)
  {
    hide ParseInput;
    assert !EntryAccepted(codec, s, n, input[n]);
  }

  lemma AllEntriesRead(codec: Codec, s: Schema, input: map<string, Json>, touched: map<Id, Option<Value>>)
    requires SchemaResolves(s)
    ensures EntriesRead(codec, s, input, map[], {})
    ensures EntriesRead(codec, s, input, touched, input.Keys) ==> InputAccepted(codec, s, input) && ReadFrom(codec, s, input, touched)
  {
    hide ParseInput, EntryAccepted;
  }

  method ReadInput(codec: Codec, s: Schema, input: map<string, Json>) returns (res: Result<map<Id, Option<Value>>>)
    requires UniqueAttributeNames(s.attributes)
    ensures res.Ok? <==> InputAccepted(codec, s, input)
    ensures res.Ok? ==> ReadFrom(codec, s, input, res.value)
  {
    hide ParseInput, UniqueAttributeNames, EntriesRead, ReadFrom, EntryAccepted;
    if a :| a in s.attributes && s.attributes[a].versionId == s.version && s.attributes[a].typeDef !in s.typeDefs {
      assert InSchema(s, a);
      return Err(NotFound);
    }
    assert SchemaResolves(s);
    var byName := IndexByName(s);
    var touched: map<Id, Option<Value>> := map[];
    var todo := input.Keys;
    ghost var done: set<string> := {};
    AllEntriesRead(codec, s, input, touched);
    while todo != {}
      invariant todo <= input.Keys && done == input.Keys - todo
      invariant EntriesRead(codec, s, input, touched, done)
      decreases todo
    {
      var n :| n in todo;
      if n !in byName {
        EntryRefused(codec, s, input, n);
        return Err(Rejected);
      }
      var a := byName[n];
      var value := ParseInput(codec, BaseOf(s, a), input[n]);
      if value.Err? {
        EntryRefused(codec, s, input, n);
        return Err(value.error);
      }
      EntryRead(codec, s, input, touched, done, n, a, value.value);
      touched := touched[a := value.value];
      todo, done := todo - {n}, done + {n};
    }
    assert done == input.Keys;
    AllEntriesRead(codec, s, input, touched);
    return Ok(touched);
  }

  // ---- writing rows ----

  ghost predicate ScopeTaken(m: map<Id, Instance>, i: Id, row: Instance) {
    exists j :: j in m && j != i && SameScope(m[j], row)
  }

  /** A name is taken by another record of the type in the catalog, under the same parent or beside
      it at the root. */
  lemma ScopeTakenMeans(m: map<Id, Instance>, i: Id, row: Instance)
    ensures ScopeTaken(m, i, row) <==>
              exists j :: j in m && j != i && m[j].typeId == row.typeId && m[j].catalogId == row.catalogId
                          && m[j].parent == row.parent && m[j].name == row.name
  {
  }

  /** Bulk insert of attribute rows; a key already present fails the whole statement. */
  method SetValues(db: Store, rows: Rows) returns (out: Outcome)
    modifies db`values
    ensures out.Fail? <==> exists k :: k in rows && k in old(db.values)
    ensures db.values == if out.Fail? then old(db.values) else old(db.values) + rows
  {
    if k :| k in rows && k in db.values {
      return Fail(Conflict);
    }
    db.values := db.values + rows;
    return Pass;
  }

  /** The values stored by an update: the ones read from the input, then every previous
      value that was not touched. */
  method CarryForward(prev: map<Id, Value>, touched: map<Id, Option<Value>>) returns (rows: map<Id, Value>)
    ensures rows == Revised(prev, touched)
  {
    rows := map a | a in touched && touched[a].Some? :: touched[a].value;
    ghost var built := rows;
    var todo := prev.Keys;
    while todo != {}
      invariant todo <= prev.Keys
      invariant rows.Keys == built.Keys + (prev.Keys - todo - touched.Keys)
      invariant forall a :: a in built ==> rows[a] == built[a]
      invariant forall a :: a in rows && a !in touched ==> rows[a] == prev[a]
      decreases todo
    {
      var a :| a in todo;
      if a !in touched {
        rows := rows[a := prev[a]];
      }
      todo := todo - {a};
    }
    IsRevised(prev, touched, rows);
  }

  lemma IsRevised(prev: map<Id, Value>, touched: map<Id, Option<Value>>, rows: map<Id, Value>)
    requires forall a :: a in rows <==> if a in touched then touched[a].Some? else a in prev
    requires forall a :: a in rows ==> rows[a] == if a in touched then touched[a].value else prev[a]
    ensures rows == Revised(prev, touched)
  {
  }

  lemma DropKeepsOthers(values: Rows, i: Id, ver: nat)
    ensures RowsAt(DropVersion(values, i, ver + 1), i, ver) == RowsAt(values, i, ver)
    ensures forall k :: k in DropVersion(values, i, ver + 1) ==> !(k.inst == i && k.ver == ver + 1)
  {
    hide RowsAt;
  }

  /** Saves a record under the next version and carries its rows forward, as one
      transaction. "row" is the record as the caller loaded it, with the caller's changes. */
  method BumpInstanceVersion(db: Store, i: Id, row: Instance) returns (out: Outcome)
    modifies db`instances, db`values
    ensures out.Fail? <==> ScopeTaken(old(db.instances), i, row)
    ensures out.Fail? ==> db.State() == old(db.State())
    ensures out.Pass? ==>
              && db.instances == old(db.instances)[i := row.(version := row.version + 1)]
              && db.values == EditValues(old(db.values), i, row.version, Structural)
  {
    hide DropVersion, RowsAt, Keyed;
    var before := db.values;
    var next := row.version + 1;
    DropKeepsOthers(db.values, i, row.version);
    db.values := DropVersion(db.values, i, next);
    var prev := RowsAt(db.values, i, row.version);
    var set_ := SetValues(db, Keyed(i, next, prev));
    assert set_.Pass?;
    if j :| j in db.instances && j != i && SameScope(db.instances[j], row) {
      db.values := before;
      return Fail(Conflict);
    }
    db.instances := db.instances[i := row.(version := next)];
    return Pass;
  }
}
