/** What the instance calls leave in the table of attribute values, said of its rows: what was put
    in, what is carried on, and what is not touched. */
module InstanceRows {
  import opened Domain
  import opened Database
  import opened Revisions
  import opened DataSteps
  import opened Instances

  // ---- input ----

  /** Null and the empty text clear an attribute. */
  ghost predicate Clears(raw: Json) {
    raw.JNull? || (raw.JStr? && raw.s == "")
  }

  /** Only numbers can be refused. */
  ghost predicate Readable(codec: Codec, base: BaseType, raw: Json) {
    base.IntegerT? || base.NumberT? ==> raw.JNum? || (raw.JStr? && codec.parseFloat(raw.s).Some?)
  }

  /** The row says what was put in. */
  ghost predicate Says(codec: Codec, base: BaseType, raw: Json, v: Value) {
    if base.IntegerT? || base.NumberT? then
      && v.num == (if raw.JNum? then Some(raw.n) else if raw.JStr? then codec.parseFloat(raw.s) else None)
      && v.num.Some? && v.str == "" && v.json == ""
    else if base.ListT? || base.JsonT? then
      v.json == (if raw.JStr? then raw.s else codec.marshal(raw)) && v.str == "" && v.num.None?
    else
      v.str == codec.format(raw) && v.num.None? && v.json == ""
  }

  lemma InputSays(codec: Codec, base: BaseType, raw: Json)
    ensures ParseInput(codec, base, raw) == Ok(None) <==> Clears(raw)
    ensures ParseInput(codec, base, raw).Err? <==> !Clears(raw) && !Readable(codec, base, raw)
    ensures ParseInput(codec, base, raw).Ok? && !Clears(raw) ==>
              ParseInput(codec, base, raw).value.Some? && Says(codec, base, raw, ParseInput(codec, base, raw).value.value)
  {
  }

  /** Input is accepted exactly when every attribute of the version has a type definition, and every
      name is one of its attributes, with nothing or something readable for its base type. */
  lemma AcceptedMeans(codec: Codec, s: Schema, input: map<string, Json>)
    ensures InputAccepted(codec, s, input) <==>
              && (forall a :: a in s.attributes && s.attributes[a].versionId == s.version ==> s.attributes[a].typeDef in s.typeDefs)
              && forall n :: n in input ==>
                   exists a :: a in s.attributes && s.attributes[a].versionId == s.version && s.attributes[a].name == n
                               && s.attributes[a].typeDef in s.typeDefs
                               && (Clears(input[n]) || Readable(codec, s.typeDefs[s.attributes[a].typeDef].base, input[n]))
  {
    hide ParseInput;
    if forall a :: a in s.attributes && s.attributes[a].versionId == s.version ==> s.attributes[a].typeDef in s.typeDefs {
      assert forall a :: InSchema(s, a) <==> a in s.attributes && s.attributes[a].versionId == s.version;
      assert SchemaResolves(s);
      forall n | n in input
        ensures EntryAccepted(codec, s, n, input[n]) <==>
                  exists a :: a in s.attributes && s.attributes[a].versionId == s.version && s.attributes[a].name == n
                              && s.attributes[a].typeDef in s.typeDefs
                              && (Clears(input[n]) || Readable(codec, s.typeDefs[s.attributes[a].typeDef].base, input[n]))
      {
        EntryMeans(codec, s, n, input[n]);
      }
    } else {
      var a :| a in s.attributes && s.attributes[a].versionId == s.version && s.attributes[a].typeDef !in s.typeDefs;
      assert InSchema(s, a);
    }
  }

  lemma EntryMeans(codec: Codec, s: Schema, n: string, raw: Json)
    requires SchemaResolves(s)
    ensures EntryAccepted(codec, s, n, raw) <==>
              exists a :: a in s.attributes && s.attributes[a].versionId == s.version && s.attributes[a].name == n
                          && s.attributes[a].typeDef in s.typeDefs
                          && (Clears(raw) || Readable(codec, s.typeDefs[s.attributes[a].typeDef].base, raw))
  {
    hide ParseInput, Clears, Readable;
    forall a | InSchema(s, a)
      ensures s.attributes[a].typeDef in s.typeDefs
      ensures ParseInput(codec, BaseOf(s, a), raw).Ok? <==> Clears(raw) || Readable(codec, s.typeDefs[s.attributes[a].typeDef].base, raw)
    {
      InputSays(codec, BaseOf(s, a), raw);
    }
  }

  // ---- rows ----

  /** The input names this attribute of the version. */
  ghost predicate Asked(d: Db, ver: Id, a: Id, input: map<string, Json>) {
    a in d.attributes && d.attributes[a].versionId == ver && d.attributes[a].name in input
  }

  /** What was asked for is there, as put in, unless it was to be cleared; whatever else the
      instance had is carried on. */
  ghost predicate StoredAt(d: Db, after: Rows, codec: Codec, ver: Id, i: Id, from: nat, input: map<string, Json>, a: Id) {
    var old_, new_ := RowKey(i, from, a), RowKey(i, from + 1, a);
    if Asked(d, ver, a, input) then
      var raw := input[d.attributes[a].name];
      && (new_ in after <==> !Clears(raw))
      && (new_ in after ==> d.attributes[a].typeDef in d.typeDefs
                            && Says(codec, d.typeDefs[d.attributes[a].typeDef].base, raw, after[new_]))
    else
      (new_ in after <==> old_ in d.values) && (new_ in after && old_ in d.values ==> after[new_] == d.values[old_])
  }

  ghost predicate Stored(d: Db, after: Rows, codec: Codec, ver: Id, i: Id, from: nat, input: map<string, Json>) {
    forall a: Id :: StoredAt(d, after, codec, ver, i, from, input, a)
  }

  /** The rows outside one version of one instance are as they were. */
  ghost predicate SameBut(before: Rows, after: Rows, i: Id, ver: nat) {
    forall k: RowKey :: !(k.inst == i && k.ver == ver) ==>
      (k in after <==> k in before) && (k in after && k in before ==> after[k] == before[k])
  }

  /** Every version an instance has gained has the rows it had; all other rows are as they were,
      those of new instances aside. */
  ghost predicate CarriedOn(m: map<Id, Instance>, n: map<Id, Instance>, before: Rows, after: Rows, new_: set<Id>) {
    forall k: RowKey {:trigger k in after} :: k.inst !in new_ ==>
      var gained := k.inst in m && k.inst in n && m[k.inst].version < k.ver <= n[k.inst].version;
      var from := if gained then RowKey(k.inst, m[k.inst].version, k.attr) else k;
      (k in after <==> from in before) && (k in after && from in before ==> after[k] == before[from])
  }

  /** What a call has read from its input, or nothing if there was none. */
  ghost predicate WasRead(d: Db, codec: Codec, ver: Id, input: map<string, Json>, touched: map<Id, Option<Value>>) {
    var s := Schema(d.attributes, d.typeDefs, ver);
    if input == map[] then touched == map[] else SchemaResolves(s) && ReadFrom(codec, s, input, touched)
  }

  lemma ReadMeans(d: Db, codec: Codec, ver: Id, input: map<string, Json>, touched: map<Id, Option<Value>>, a: Id)
    requires WasRead(d, codec, ver, input, touched)
    ensures a in touched <==> Asked(d, ver, a, input)
    ensures a in touched && Asked(d, ver, a, input) ==>
              var raw := input[d.attributes[a].name];
              && (touched[a].None? <==> Clears(raw))
              && d.attributes[a].typeDef in d.typeDefs
              && (touched[a].Some? ==> Says(codec, d.typeDefs[d.attributes[a].typeDef].base, raw, touched[a].value))
  {
    hide ParseInput, Clears, Says;
    var s := Schema(d.attributes, d.typeDefs, ver);
    if Asked(d, ver, a, input) {
      assert InSchema(s, a);
      InputSays(codec, BaseOf(s, a), input[d.attributes[a].name]);
    }
  }

  ghost predicate NoRowsAt(values: Rows, i: Id, ver: nat) {
    forall k: RowKey :: k in values ==> !(k.inst == i && k.ver == ver)
  }

  /** An update, or the first rows of a new instance, which has none to carry on. */
  lemma UpdateStores(d: Db, codec: Codec, ver: Id, i: Id, from: nat, input: map<string, Json>, touched: map<Id, Option<Value>>)
    requires WasRead(d, codec, ver, input, touched) && NoRowsAt(d.values, i, from + 1)
    ensures var after := WithRows(d.values, i, from + 1, Revised(RowsAt(d.values, i, from), touched));
            Stored(d, after, codec, ver, i, from, input) && SameBut(d.values, after, i, from + 1)
  {
    hide WasRead, StoredAt, WithRows, RowsAt, Revised, SameBut, NoRowsAt;
    var after := WithRows(d.values, i, from + 1, Revised(RowsAt(d.values, i, from), touched));
    OthersStay(d.values, i, from + 1, Revised(RowsAt(d.values, i, from), touched));
    forall a: Id
      ensures StoredAt(d, after, codec, ver, i, from, input, a)
    {
      StoresAt(d, codec, ver, i, from, input, touched, a);
    }
  }

  lemma OthersStay(values: Rows, i: Id, ver: nat, rows: map<Id, Value>)
    ensures SameBut(values, WithRows(values, i, ver, rows), i, ver)
  {
    hide WithRows;
    forall k: RowKey | !(k.inst == i && k.ver == ver)
      ensures k in WithRows(values, i, ver, rows) <==> k in values
      ensures k in WithRows(values, i, ver, rows) && k in values ==> WithRows(values, i, ver, rows)[k] == values[k]
    {
      KeyWritten(values, i, ver, rows, k);
    }
  }

  /** What a table holds under a key once rows have been written. */
  lemma KeyWritten(values: Rows, i: Id, ver: nat, rows: map<Id, Value>, k: RowKey)
    ensures var written := k.inst == i && k.ver == ver && k.attr in rows;
            && (k in WithRows(values, i, ver, rows) <==> written || k in values)
            && (written ==> WithRows(values, i, ver, rows)[k] == rows[k.attr])
            && (!written && k in values ==> WithRows(values, i, ver, rows)[k] == values[k])
  {
  }

  lemma StoresAt(d: Db, codec: Codec, ver: Id, i: Id, from: nat, input: map<string, Json>, touched: map<Id, Option<Value>>, a: Id)
    requires WasRead(d, codec, ver, input, touched) && NoRowsAt(d.values, i, from + 1)
    ensures StoredAt(d, WithRows(d.values, i, from + 1, Revised(RowsAt(d.values, i, from), touched)), codec, ver, i, from, input, a)
  {
    hide WasRead, Clears, Says, WithRows, RowsAt;
    ReadMeans(d, codec, ver, input, touched, a);
    KeyWritten(d.values, i, from + 1, Revised(RowsAt(d.values, i, from), touched), RowKey(i, from + 1, a));
  }

  // ---- rows carried on ----

  ghost predicate OnlyCarries(s: DataStep) {
    s.AddLink? || s.DropLink? || (s.Revise? && s.edit.Structural?)
  }

  lemma RowsCopied(values: Rows, i: Id, ver: nat, k: RowKey)
    ensures var from := if k.inst == i && k.ver == ver + 1 then RowKey(i, ver, k.attr) else k;
            var after := EditValues(values, i, ver, Structural);
            (k in after <==> from in values) && (k in after && from in values ==> after[k] == values[from])
  {
    hide WithRows, RowsAt;
    KeyWritten(DropVersion(values, i, ver + 1), i, ver + 1, RowsAt(values, i, ver), k);
  }

  lemma SavedTables(d: Db, i: Id, to: Instance)
    requires i in d.instances
    ensures var e := ApplyStep(d, Revise(i, to, Structural));
            && e.instances == d.instances[i := to.(version := d.instances[i].version + 1)]
            && e.values == EditValues(d.values, i, d.instances[i].version, Structural)
  {
    hide EditValues;
  }

  lemma StepCarries(d: Db, s: DataStep)
    requires OnlyCarries(s)
    ensures CarriedOn(d.instances, ApplyStep(d, s).instances, d.values, ApplyStep(d, s).values, {})
    ensures d.instances.Keys == ApplyStep(d, s).instances.Keys
    ensures forall i :: i in d.instances ==> d.instances[i].version <= ApplyStep(d, s).instances[i].version
  {
    if s.Revise? && s.inst in d.instances {
      SaveCarries(d, s.inst, s.to);
    }
  }

  lemma SaveCarries(d: Db, i: Id, to: Instance)
    requires i in d.instances
    ensures var e := ApplyStep(d, Revise(i, to, Structural));
            && CarriedOn(d.instances, e.instances, d.values, e.values, {}) && d.instances.Keys == e.instances.Keys
            && forall j :: j in d.instances ==> d.instances[j].version <= e.instances[j].version
  {
    hide ApplyStep, EditValues;
    SavedTables(d, i, to);
    forall k: RowKey
      ensures var from := if k.inst == i && k.ver == d.instances[i].version + 1 then RowKey(i, d.instances[i].version, k.attr) else k;
              var after := EditValues(d.values, i, d.instances[i].version, Structural);
              (k in after <==> from in d.values) && (k in after && from in d.values ==> after[k] == d.values[from])
    {
      RowsCopied(d.values, i, d.instances[i].version, k);
    }
  }

  lemma {:induction false} StepsCarry(d: Db, steps: seq<DataStep>)
    requires forall k :: 0 <= k < |steps| ==> OnlyCarries(steps[k])
    ensures CarriedOn(d.instances, ApplySteps(d, steps).instances, d.values, ApplySteps(d, steps).values, {})
    ensures d.instances.Keys == ApplySteps(d, steps).instances.Keys
    ensures forall i :: i in d.instances ==> d.instances[i].version <= ApplySteps(d, steps).instances[i].version
    decreases |steps|
  {
    hide ApplyStep, OnlyCarries, CarriedOn;
    if steps == [] {
      CarriedAtOnce(d.instances, d.values);
    } else {
      var e := ApplyStep(d, steps[0]);
      StepCarries(d, steps[0]);
      StepsCarry(e, steps[1..]);
      CarriedTwice(d.instances, e.instances, ApplySteps(d, steps).instances, d.values, e.values, ApplySteps(d, steps).values);
    }
  }

  lemma CarriedAtOnce(m: map<Id, Instance>, values: Rows)
    ensures CarriedOn(m, m, values, values, {})
  {
  }

  lemma CarriedTwice(m: map<Id, Instance>, n: map<Id, Instance>, o: map<Id, Instance>, v: Rows, w: Rows, x: Rows)
    requires CarriedOn(m, n, v, w, {}) && CarriedOn(n, o, w, x, {}) && m.Keys == n.Keys && n.Keys == o.Keys
    requires forall i :: i in m ==> m[i].version <= n[i].version && n[i].version <= o[i].version
    ensures CarriedOn(m, o, v, x, {})
  {
  }

  /** A new instance stands beside what is carried on. */
  lemma InsertedThenCarried(d: Db, v: Db, e: Db, codec: Codec, ver: Id, input: map<string, Json>, row: Instance)
    requires v.instances == d.instances[d.nextId := row] && d.nextId !in d.instances && row.version == 1
    requires Stored(d, v.values, codec, ver, d.nextId, 0, input) && SameBut(d.values, v.values, d.nextId, 1)
    requires CarriedOn(v.instances, e.instances, v.values, e.values, {}) && d.nextId in e.instances && e.instances[d.nextId] == row
    ensures Stored(d, e.values, codec, ver, d.nextId, 0, input) && CarriedOn(d.instances, e.instances, d.values, e.values, {d.nextId})
  {
    hide Asked, Says, Clears;
    forall a: Id
      ensures StoredAt(d, e.values, codec, ver, d.nextId, 0, input, a)
    {
      assert StoredAt(d, v.values, codec, ver, d.nextId, 0, input, a);
      assert RowKey(d.nextId, 1, a) in e.values <==> RowKey(d.nextId, 1, a) in v.values;
      AskedIsThere(d, ver, a, input);
    }
  }

  lemma AskedIsThere(d: Db, ver: Id, a: Id, input: map<string, Json>)
    ensures Asked(d, ver, a, input) ==> a in d.attributes && d.attributes[a].name in input
  {
  }
}
