/** Moving stored attribute rows from the attributes of one schema version to those of
    another: pair by pair as the store does it, and at once as it is meant. */
module Migration {
  import opened Domain
  import opened Database
  import opened Revisions

  predicate Concerned(insts: set<Id>, k: RowKey, a: Id) {
    k.inst in insts && k.attr == a
  }

  // ---- one pair ----

  /** A row would take the place of another one. */
  predicate Clash(values: Rows, insts: set<Id>, a: Id, b: Id) {
    a != b && exists k :: k in values && Concerned(insts, k, a) && k.(attr := b) in values
  }

  function Moved(insts: set<Id>, a: Id, b: Id, k: RowKey): RowKey {
    if Concerned(insts, k, a) then k.(attr := b) else k
  }

  /** One UPDATE: every concerned row changes its attribute id, or the statement fails on the
      unique index. */
  function RemapOne(values: Rows, insts: set<Id>, a: Id, b: Id): Option<Rows> {
    if Clash(values, insts, a, b) then None else Some(map k | k in values :: Moved(insts, a, b, k) := values[k])
  }

  // ---- all pairs ----

  function Affected(values: Rows, insts: set<Id>, m: map<Id, Id>): set<RowKey> {
    set k | k in values && k.inst in insts && k.attr in m
  }

  /** The updates of the listed pairs, one after the other. */
  function RemapInOrder(values: Rows, insts: set<Id>, m: map<Id, Id>, order: seq<Id>): Option<Rows>
    requires forall a :: a in order ==> a in m
  {
    if order == [] then Some(values)
    else
      match RemapInOrder(values, insts, m, order[..|order| - 1])
      case None => None
      case Some(v) => RemapOne(v, insts, order[|order| - 1], m[order[|order| - 1]])
  }

  function Members(order: seq<Id>): set<Id> {
    set a | a in order
  }

  method CountConcerned(values: Rows, insts: set<Id>, a: Id) returns (n: nat)
    ensures n == |Affected(values, insts, map[a := a])|
  {
    var rows := set k | k in values && Concerned(insts, k, a);
    assert rows == Affected(values, insts, map[a := a]);
    n := |rows|;
  }

  /** The sum of what each update touched. */
  ghost function Total(values: Rows, insts: set<Id>, m: map<Id, Id>, order: seq<Id>): nat
    requires forall a :: a in order ==> a in m
  {
    if order == [] then 0
    else
      var before := order[..|order| - 1];
      Total(values, insts, m, before)
      + match RemapInOrder(values, insts, m, before)
        case None => 0
        case Some(v) => |Affected(v, insts, map[order[|order| - 1] := order[|order| - 1]])|
  }

  lemma OneMorePair(values: Rows, insts: set<Id>, m: map<Id, Id>, order: seq<Id>, a: Id, now: Rows)
    requires (forall x :: x in order ==> x in m) && a in m && RemapInOrder(values, insts, m, order) == Some(now)
    ensures RemapInOrder(values, insts, m, order + [a]) == RemapOne(now, insts, a, m[a])
    ensures Total(values, insts, m, order + [a]) == Total(values, insts, m, order) + |Affected(now, insts, map[a := a])|
    ensures RemapOne(now, insts, a, m[a]).None? <==> Clash(now, insts, a, m[a])
  {
    hide Clash;
    assert (order + [a])[..|order|] == order;
  }

  /** Runs over the pairs in whatever order the map yields them, keeping a running total. On
      failure the pairs before the failing one stay applied: the caller's transaction undoes them. */
  method RemapAttributeIds(db: Store, insts: set<Id>, m: map<Id, Id>)
    returns (res: Result<nat>, ghost order: seq<Id>)
    modifies db`values
    ensures Distinct(order) && forall a :: a in order ==> a in m
    ensures res.Ok? && insts != {} && m != map[] ==> forall a :: a in m ==> a in order
    ensures res.Ok? ==> RemapInOrder(old(db.values), insts, m, order) == Some(db.values)
    ensures res.Ok? ==> res.value == Total(old(db.values), insts, m, order)
    ensures res.Err? ==> res.error == Integrity && RemapInOrder(old(db.values), insts, m, order).None?
  {
    order := [];
    if |insts| == 0 || |m| == 0 {
      return Ok(0), [];
    }
    hide Clash, RemapOne, Affected;
    var total := 0;
    var todo := m.Keys;
    while todo != {}
      invariant todo <= m.Keys
      invariant Distinct(order) && forall a :: a in order <==> a in m.Keys - todo
      invariant RemapInOrder(old(db.values), insts, m, order) == Some(db.values)
      invariant total == Total(old(db.values), insts, m, order)
      decreases todo
    {
      var a :| a in todo;
      OneMorePair(old(db.values), insts, m, order, a, db.values);
      hide RemapInOrder, Total;
      assert a !in order;
      order := order + [a];
      if Clash(db.values, insts, a, m[a]) {
        return Err(Integrity), order;
      }
      var n := CountConcerned(db.values, insts, a);
      db.values := RemapOne(db.values, insts, a, m[a]).value;
      total := total + n;
      todo := todo - {a};
    }
    return Ok(total), order;
  }

  // ---- all at once ----

  function Renamed(insts: set<Id>, m: map<Id, Id>, k: RowKey): RowKey {
    if k.inst in insts && k.attr in m then k.(attr := m[k.attr]) else k
  }

  /** A map from the attributes of one version to those of another: no id is on both sides. */
  ghost predicate BetweenVersions(m: map<Id, Id>) {
    Injective(m) && m.Keys !! m.Values
  }

  /** No instance concerned holds both a row to move and a row in its place. */
  ghost predicate Roomy(values: Rows, insts: set<Id>, m: map<Id, Id>) {
    forall k :: k in Affected(values, insts, m) ==> Renamed(insts, m, k) !in values
  }

  function Restrict(m: map<Id, Id>, keys: set<Id>): map<Id, Id> {
    map a | a in m && a in keys :: m[a]
  }

  function Inverse(m: map<Id, Id>): (w: map<Id, Id>)
    requires Injective(m)
    ensures forall b :: b in w ==> w[b] in m && m[w[b]] == b
    ensures forall a :: a in m ==> m[a] in w && w[m[a]] == a
  {
    map a | a in m :: m[a] := a
  }

  /** Where the row at a key comes from. */
  function Source(values: Rows, insts: set<Id>, w: map<Id, Id>, k: RowKey): RowKey {
    if k.inst in insts && k.attr in w && k.(attr := w[k.attr]) in values then k.(attr := w[k.attr]) else k
  }

  /** The simultaneous substitution, read backwards from each key. */
  function Substituted(values: Rows, insts: set<Id>, m: map<Id, Id>): (out: Rows)
    requires Injective(m)
  {
    var w := Inverse(m);
    var keys := values.Keys + set k | k in values :: Renamed(insts, m, k);
    map k | k in keys && !(k.inst in insts && k.attr in m) && Source(values, insts, w, k) in values
      :: values[Source(values, insts, w, k)]
  }

  lemma SubstitutedAt(values: Rows, insts: set<Id>, m: map<Id, Id>, k: RowKey)
    requires Injective(m)
    ensures k in Substituted(values, insts, m) <==>
            !(k.inst in insts && k.attr in m) && Source(values, insts, Inverse(m), k) in values
    ensures k in Substituted(values, insts, m) ==>
              Substituted(values, insts, m)[k] == values[Source(values, insts, Inverse(m), k)]
  {
    var j := Source(values, insts, Inverse(m), k);
    if j in values && j != k {
      assert Renamed(insts, m, j) == k;
    }
  }

  /** Every row is found under its new key, and there are no others. */
  lemma SubstitutionMovesEachRow(values: Rows, insts: set<Id>, m: map<Id, Id>, k: RowKey)
    requires BetweenVersions(m) && Roomy(values, insts, m)
    ensures k in values ==> Renamed(insts, m, k) in Substituted(values, insts, m)
                            && Substituted(values, insts, m)[Renamed(insts, m, k)] == values[k]
    ensures k in Substituted(values, insts, m) ==> exists j :: j in values && Renamed(insts, m, j) == k
  {
    hide Substituted;
    SubstitutedAt(values, insts, m, k);
    SubstitutedAt(values, insts, m, Renamed(insts, m, k));
    if k in values {
      assert k in Affected(values, insts, m) ==> Renamed(insts, m, k) !in values;
      assert k.inst in insts && k.attr in m ==> m[k.attr] in m.Values && m[k.attr] in Inverse(m);
      if k.inst in insts && k.attr !in m && k.attr in Inverse(m) {
        var j := k.(attr := Inverse(m)[k.attr]);
        assert j in Affected(values, insts, m) ==> Renamed(insts, m, j) == k;
      }
    }
    if k in Substituted(values, insts, m) {
      assert Renamed(insts, m, Source(values, insts, Inverse(m), k)) == k;
    }
  }

  /** One update, read backwards from each key. */
  lemma RemapOneAt(values: Rows, insts: set<Id>, a: Id, b: Id, k: RowKey)
    requires a != b && !Clash(values, insts, a, b)
    ensures var out := RemapOne(values, insts, a, b).value;
            var from := if Concerned(insts, k, b) && k.(attr := a) in values then k.(attr := a) else k;
            && (k in out <==> !Concerned(insts, k, a) && from in values)
            && (k in out ==> out[k] == values[from])
  {
    var from := if Concerned(insts, k, b) && k.(attr := a) in values then k.(attr := a) else k;
    if from in values && !Concerned(insts, k, a) {
      assert Moved(insts, a, b, from) == k;
    }
  }

  lemma KeysApart(m: map<Id, Id>, done: set<Id>, a: Id)
    requires BetweenVersions(m) && done <= m.Keys && a in m && a !in done
    ensures Injective(Restrict(m, done)) && Injective(Restrict(m, done + {a}))
    ensures a != m[a] && m[a] !in Restrict(m, done) && m[a] !in Inverse(Restrict(m, done))
    ensures a !in Restrict(m, done) && a !in Inverse(Restrict(m, done))
    ensures Inverse(Restrict(m, done + {a})) == Inverse(Restrict(m, done))[m[a] := a]
    ensures Restrict(m, done + {a}) == Restrict(m, done)[a := m[a]]
  {
    var r, s := Restrict(m, done), Restrict(m, done + {a});
    assert s == r[a := m[a]];
    assert forall x :: x in r ==> x in m && r[x] == m[x] && x != a;
    assert a in m.Keys && m[a] in m.Values;
    hide Restrict;
    assert Injective(r);
    assert Injective(s);
    forall x | x in r
      ensures r[x] != a && r[x] != m[a]
    {
      assert m[x] in m.Values;
    }
    InverseGrows(r, a, m[a]);
  }

  lemma InverseGrows(r: map<Id, Id>, a: Id, b: Id)
    requires Injective(r) && Injective(r[a := b]) && a !in r && b !in r.Values
    ensures Inverse(r[a := b]) == Inverse(r)[b := a]
  {
    var s := r[a := b];
    forall y
      ensures y in Inverse(s) <==> y in Inverse(r)[b := a]
      ensures y in Inverse(s) && y in Inverse(r)[b := a] ==> Inverse(s)[y] == Inverse(r)[b := a][y]
    {
      if y in Inverse(s) {
        var x := Inverse(s)[y];
        assert x in s && s[x] == y;
      }
      if y in Inverse(r) {
        var x := Inverse(r)[y];
        assert x in s && s[x] == y;
      }
      assert a in s && s[a] == b;
    }
  }

  /** One more pair: the update fails exactly when a row it moves has no room, and otherwise
      extends the substitution by the pair. */
  lemma StepOfSubstitution(values: Rows, insts: set<Id>, m: map<Id, Id>, done: set<Id>, a: Id)
    requires BetweenVersions(m) && done <= m.Keys && a in m && a !in done
    ensures Injective(Restrict(m, done)) && Injective(Restrict(m, done + {a}))
    ensures RemapOne(Substituted(values, insts, Restrict(m, done)), insts, a, m[a]) ==
            if Clash(values, insts, a, m[a]) then None else Some(Substituted(values, insts, Restrict(m, done + {a})))
  {
    KeysApart(m, done, a);
    var r := Restrict(m, done);
    var now := Substituted(values, insts, r);
    hide Substituted, Restrict;
    forall k: RowKey | k.inst in insts && (k.attr == a || k.attr == m[a])
      ensures k in now <==> k in values
      ensures k in now ==> now[k] == values[k]
    {
      SubstitutedAt(values, insts, r, k);
    }
    SameClash(values, now, insts, a, m[a]);
    if !Clash(values, insts, a, m[a]) {
      StepMoves(values, insts, r, Restrict(m, done + {a}), a, m[a]);
    }
  }

  lemma SameClash(values: Rows, now: Rows, insts: set<Id>, a: Id, b: Id)
    requires forall k: RowKey :: k.inst in insts && (k.attr == a || k.attr == b) ==> (k in now <==> k in values)
    ensures Clash(now, insts, a, b) <==> Clash(values, insts, a, b)
  {
    if Clash(now, insts, a, b) {
      var k :| k in now && Concerned(insts, k, a) && k.(attr := b) in now;
      assert k in values && k.(attr := b) in values;
    }
    if Clash(values, insts, a, b) {
      var k :| k in values && Concerned(insts, k, a) && k.(attr := b) in values;
      assert k in now && k.(attr := b) in now;
    }
  }

  lemma StepMoves(values: Rows, insts: set<Id>, r: map<Id, Id>, s: map<Id, Id>, a: Id, b: Id)
    requires Injective(r) && Injective(s) && s == r[a := b] && Inverse(s) == Inverse(r)[b := a]
    requires a != b && a !in r && b !in r && a !in Inverse(r) && b !in Inverse(r)
    requires !Clash(Substituted(values, insts, r), insts, a, b)
    ensures RemapOne(Substituted(values, insts, r), insts, a, b) == Some(Substituted(values, insts, s))
  {
    hide Substituted, RemapOne, Clash, Inverse, Injective;
    RemapFails(Substituted(values, insts, r), insts, a, b);
    forall k: RowKey
      ensures var out := RemapOne(Substituted(values, insts, r), insts, a, b).value;
              var want := Substituted(values, insts, s);
              (k in out <==> k in want) && (k in out && k in want ==> out[k] == want[k])
    {
      MovesAt(values, insts, r, s, a, b, k);
    }
    assert RemapOne(Substituted(values, insts, r), insts, a, b).value == Substituted(values, insts, s);
  }

  lemma RemapFails(values: Rows, insts: set<Id>, a: Id, b: Id)
    ensures RemapOne(values, insts, a, b).None? <==> Clash(values, insts, a, b)
  {
    hide Clash;
  }

  lemma MovesAt(values: Rows, insts: set<Id>, r: map<Id, Id>, s: map<Id, Id>, a: Id, b: Id, k: RowKey)
    requires Injective(r) && Injective(s) && s == r[a := b] && Inverse(s) == Inverse(r)[b := a]
    requires a != b && a !in r && b !in r && a !in Inverse(r) && b !in Inverse(r)
    requires !Clash(Substituted(values, insts, r), insts, a, b)
    ensures var out := RemapOne(Substituted(values, insts, r), insts, a, b).value;
            var want := Substituted(values, insts, s);
            (k in out <==> k in want) && (k in out && k in want ==> out[k] == want[k])
  {
    hide Substituted, RemapOne, Clash, Inverse, Injective;
    var j := k.(attr := a);
    RemapOneAt(Substituted(values, insts, r), insts, a, b, k);
    SubstitutedAt(values, insts, r, k);
    SubstitutedAt(values, insts, s, k);
    SubstitutedAt(values, insts, r, j);
    if k.inst in insts && k.attr == b {
      assert Source(values, insts, Inverse(r), j) == j && Source(values, insts, Inverse(r), k) == k;
      assert Source(values, insts, Inverse(s), k) == if j in values then j else k;
    } else {
      assert Source(values, insts, Inverse(r), k) == Source(values, insts, Inverse(s), k);
    }
  }

  /** Pair by pair, in any order, is one simultaneous substitution; and some update fails
      exactly when the table is not roomy. */
  lemma {:induction false} InOrderIsAtOnce(values: Rows, insts: set<Id>, m: map<Id, Id>, order: seq<Id>)
    requires BetweenVersions(m) && Distinct(order) && forall a :: a in order ==> a in m
    ensures Injective(Restrict(m, Members(order)))
    ensures RemapInOrder(values, insts, m, order) ==
            if Roomy(values, insts, Restrict(m, Members(order)))
            then Some(Substituted(values, insts, Restrict(m, Members(order)))) else None
  {
    hide Clash, RemapOne, Restrict, Substituted;
    if order == [] {
      NothingSubstituted(values, insts, m);
    } else {
      var before, a := order[..|order| - 1], order[|order| - 1];
      InOrderIsAtOnce(values, insts, m, before);
      assert a !in before;
      assert order == before + [a];
      assert Members(order) == Members(before) + {a};
      RoomyStep(values, insts, m, Members(before), a);
      StepOfSubstitution(values, insts, m, Members(before), a);
    }
  }

  lemma NothingSubstituted(values: Rows, insts: set<Id>, m: map<Id, Id>)
    ensures Injective(Restrict(m, Members([]))) && Roomy(values, insts, Restrict(m, Members([])))
    ensures Substituted(values, insts, Restrict(m, Members([]))) == values
  {
    assert Restrict(m, Members([])) == map[];
    assert Inverse(map[]) == map[];
  }

  lemma RoomyStep(values: Rows, insts: set<Id>, m: map<Id, Id>, done: set<Id>, a: Id)
    requires BetweenVersions(m) && done <= m.Keys && a in m && a !in done
    ensures Roomy(values, insts, Restrict(m, done + {a})) <==>
            Roomy(values, insts, Restrict(m, done)) && !Clash(values, insts, a, m[a])
  {
    KeysApart(m, done, a);
    var r, s := Restrict(m, done), Restrict(m, done + {a});
    hide Restrict;
    forall k: RowKey
      ensures k in Affected(values, insts, s) <==>
                k in Affected(values, insts, r) || (k in values && Concerned(insts, k, a))
      ensures k in Affected(values, insts, r) ==> Renamed(insts, s, k) == Renamed(insts, r, k)
      ensures Concerned(insts, k, a) ==> Renamed(insts, s, k) == k.(attr := m[a])
    {
    }
  }

  /** The running total counts each affected row once. */
  lemma {:induction false} TotalIsAffected(values: Rows, insts: set<Id>, m: map<Id, Id>, order: seq<Id>)
    requires BetweenVersions(m) && Distinct(order) && forall a :: a in order ==> a in m
    requires Roomy(values, insts, Restrict(m, Members(order)))
    ensures Total(values, insts, m, order) == |Affected(values, insts, Restrict(m, Members(order)))|
  {
    hide RemapInOrder, Substituted, Restrict, Roomy, RemapOne, Clash, Affected, Injective, Inverse;
    if order == [] {
      RestrictToNothing(m);
    } else {
      var before, a := order[..|order| - 1], order[|order| - 1];
      var done := Members(before);
      assert order == before + [a];
      assert Members(order) == done + {a};
      RoomyStep(values, insts, m, done, a);
      InOrderIsAtOnce(values, insts, m, before);
      TotalIsAffected(values, insts, m, before);
      KeysApart(m, done, a);
      SameAffected(values, insts, Restrict(m, done), a);
      AffectedGrows(values, insts, Restrict(m, done), a, m[a]);
    }
  }

  lemma SameAffected(values: Rows, insts: set<Id>, r: map<Id, Id>, a: Id)
    requires Injective(r) && a !in r && a !in Inverse(r)
    ensures Affected(Substituted(values, insts, r), insts, map[a := a]) == Affected(values, insts, map[a := a])
  {
    hide Substituted, Inverse;
    forall k: RowKey
      ensures k in Affected(Substituted(values, insts, r), insts, map[a := a]) <==> k in Affected(values, insts, map[a := a])
    {
      SubstitutedAt(values, insts, r, k);
    }
  }

  lemma AffectedGrows(values: Rows, insts: set<Id>, r: map<Id, Id>, a: Id, b: Id)
    requires a !in r
    ensures |Affected(values, insts, r[a := b])| == |Affected(values, insts, r)| + |Affected(values, insts, map[a := a])|
  {
    var x, y := Affected(values, insts, r), Affected(values, insts, map[a := a]);
    assert Affected(values, insts, r[a := b]) == x + y;
    assert x !! y;
  }

  lemma RestrictToNothing(m: map<Id, Id>)
    ensures Restrict(m, Members([])) == map[]
    ensures forall values: Rows, insts: set<Id> :: Affected(values, insts, map[]) == {}
  {
  }

  // ---- what the values mean afterwards ----

  /** What a caller sees of an attribute: JSON null, a text or a number. */
  datatype Shown = Blank | Text(s: string) | Number(n: real)

  function Show(base: BaseType, rows: map<Id, Value>, a: Id): Shown {
    if a !in rows then Blank
    else
      match base
      case StringT | UrlT | DateT | BooleanT | EnumT => Text(rows[a].str)
      case NumberT | IntegerT => if rows[a].num.Some? then Number(rows[a].num.value) else Blank
      case ListT | JsonT => if rows[a].json != "" then Text(rows[a].json) else Blank
  }

  /** The attribute values of one instance version under a schema; an attribute whose type
      cannot be resolved is shown as text. */
  method MapAttributeValues(schema: seq<Id>, baseOf: map<Id, BaseType>, rows: map<Id, Value>) returns (out: seq<Shown>)
    ensures |out| == |schema|
    ensures forall k :: 0 <= k < |schema| ==>
              out[k] == Show(if schema[k] in baseOf then baseOf[schema[k]] else StringT, rows, schema[k])
  {
    out := [];
    for k := 0 to |schema|
      invariant |out| == k
      invariant forall j :: 0 <= j < k ==>
                  out[j] == Show(if schema[j] in baseOf then baseOf[schema[j]] else StringT, rows, schema[j])
    {
      var base := if schema[k] in baseOf then baseOf[schema[k]] else StringT;
      var shown := Blank;
      if schema[k] in rows {
        var v := rows[schema[k]];
        shown := match base
          case StringT | UrlT | DateT | BooleanT | EnumT => Text(v.str)
          case NumberT | IntegerT => if v.num.Some? then Number(v.num.value) else Blank
          case ListT | JsonT => if v.json != "" then Text(v.json) else Blank;
      }
      out := out + [shown];
    }
  }

  lemma OthersKeepRows(values: Rows, insts: set<Id>, m: map<Id, Id>, i: Id, ver: nat)
    requires Injective(m) && i !in insts
    ensures RowsAt(Substituted(values, insts, m), i, ver) == RowsAt(values, i, ver)
  {
    hide RowsAt, Substituted, Inverse;
    var out := Substituted(values, insts, m);
    forall x
      ensures x in RowsAt(out, i, ver) <==> x in RowsAt(values, i, ver)
      ensures x in RowsAt(out, i, ver) ==> RowsAt(out, i, ver)[x] == RowsAt(values, i, ver)[x]
    {
      SubstitutedAt(values, insts, m, RowKey(i, ver, x));
    }
  }

  /** The column of a stored value that a base type reads. */
  datatype Column = TextColumn | NumberColumn | JsonColumn

  function ColumnOf(base: BaseType): Column {
    match base
    case StringT | UrlT | DateT | BooleanT | EnumT => TextColumn
    case NumberT | IntegerT => NumberColumn
    case ListT | JsonT => JsonColumn
  }

  /** The column read is empty and shown as nothing; an empty text is shown as a text. */
  predicate ReadsNothing(base: BaseType, v: Value) {
    match ColumnOf(base)
    case TextColumn => false
    case NumberColumn => v.num.None?
    case JsonColumn => v.json == ""
  }

  /** Two base types show one value alike: they read the same column, or find nothing in theirs,
      or one reads text and the other JSON, and both columns hold the same text. A number is never
      shown like a text. */
  predicate ReadAlike(oldBase: BaseType, newBase: BaseType, v: Value) {
    || ColumnOf(oldBase) == ColumnOf(newBase)
    || (ReadsNothing(oldBase, v) && ReadsNothing(newBase, v))
    || (!ColumnOf(oldBase).NumberColumn? && !ColumnOf(newBase).NumberColumn? && v.json != "" && v.str == v.json)
  }

  /** A migrated value is stored under the new attribute, at every version, and shows what it
      showed before exactly when the two attributes' types read it alike. */
  lemma MeaningIsKept(values: Rows, insts: set<Id>, m: map<Id, Id>, i: Id, ver: nat, a: Id, oldBase: BaseType, newBase: BaseType)
    requires BetweenVersions(m) && Roomy(values, insts, m)
    requires i in insts && a in m && a in RowsAt(values, i, ver)
    ensures var out := RowsAt(Substituted(values, insts, m), i, ver);
            && m[a] in out && out[m[a]] == RowsAt(values, i, ver)[a]
            && (Show(newBase, out, m[a]) == Show(oldBase, RowsAt(values, i, ver), a) <==>
                  ReadAlike(oldBase, newBase, RowsAt(values, i, ver)[a]))
  {
    hide RowsAt, Substituted;
    SubstitutedAt(values, insts, m, RowKey(i, ver, m[a]));
    assert Inverse(m)[m[a]] == a;
  }

  /** Other instances show what they showed; an attribute that nothing was moved to shows what had
      been left under its id; an old attribute shows nothing any more. */
  lemma RestIsKept(values: Rows, insts: set<Id>, m: map<Id, Id>, i: Id, ver: nat, base: BaseType, b: Id)
    requires BetweenVersions(m) && Roomy(values, insts, m)
    ensures var out := Substituted(values, insts, m);
            && (i !in insts ==> RowsAt(out, i, ver) == RowsAt(values, i, ver))
            && (i in insts && b !in m && (forall a :: a in m && m[a] == b ==> a !in RowsAt(values, i, ver)) ==>
                  Show(base, RowsAt(out, i, ver), b) == Show(base, RowsAt(values, i, ver), b))
            && (i in insts && b in m ==> Show(base, RowsAt(out, i, ver), b) == Blank)
  {
    hide RowsAt, Substituted;
    if i !in insts {
      OthersKeepRows(values, insts, m, i, ver);
    }
    SubstitutedAt(values, insts, m, RowKey(i, ver, b));
    forall a | a in m && m[a] == b
      ensures Inverse(m)[b] == a
    {
    }
  }

  /** A text that becomes a number is no longer shown: the mapping only warns. */
  lemma TypeChangeLosesMeaning()
    ensures var values := map[RowKey(1, 1, 10) := Value("x", None, "")];
            var m := map[10 := 20];
            && BetweenVersions(m) && Roomy(values, {1}, m)
            && Show(StringT, RowsAt(values, 1, 1), 10) == Text("x")
            && Show(IntegerT, RowsAt(Substituted(values, {1}, m), 1, 1), 20) == Blank
  {
    hide Substituted;
    var values := map[RowKey(1, 1, 10) := Value("x", None, "")];
    var m := map[10 := 20];
    assert m.Values == {20} by {
      assert m[10] == 20;
    }
    assert RowKey(1, 1, 10) in values;
    assert RowsAt(values, 1, 1)[10] == Value("x", None, "");
    MeaningIsKept(values, {1}, m, 1, 1, 10, StringT, IntegerT);
  }

  /** No row concerned is stored under a new id. */
  ghost predicate NoLeftovers(values: Rows, insts: set<Id>, m: map<Id, Id>) {
    forall k :: k in values && k.inst in insts ==> k.attr !in m.Values
  }

  /** Migrating back restores the table exactly when nothing had been left under a new id. */
  lemma MigratingBack(values: Rows, insts: set<Id>, m: map<Id, Id>)
    requires BetweenVersions(m) && Roomy(values, insts, m)
    ensures BetweenVersions(Inverse(m)) && Roomy(Substituted(values, insts, m), insts, Inverse(m))
    ensures Substituted(Substituted(values, insts, m), insts, Inverse(m)) == values
       <==> NoLeftovers(values, insts, m)
  {
    hide Substituted, Inverse;
    var w := Inverse(m);
    var out := Substituted(values, insts, m);
    InverseTwice(m);
    assert Roomy(out, insts, w) by {
      forall k | k in Affected(out, insts, w)
        ensures Renamed(insts, w, k) !in out
      {
        SubstitutedAt(values, insts, m, Renamed(insts, w, k));
      }
    }
    var back := Substituted(out, insts, w);
    forall k: RowKey
      ensures k.inst in insts && k.attr in w ==> k !in back
      ensures NoLeftovers(values, insts, m) ==> (k in back <==> k in values) && (k in back ==> back[k] == values[k])
    {
      BackAt(values, insts, m, k);
    }
  }

  lemma InverseTwice(m: map<Id, Id>)
    requires BetweenVersions(m)
    ensures BetweenVersions(Inverse(m)) && Inverse(Inverse(m)) == m
    ensures forall b :: b in Inverse(m) <==> b in m.Values
    ensures forall a :: a in m ==> a !in Inverse(m)
  {
    var w := Inverse(m);
    forall a | a in m
      ensures a !in w
    {
    }
  }

  lemma NoRoomNeeded(values: Rows, insts: set<Id>, m: map<Id, Id>, k: RowKey)
    requires Roomy(values, insts, m) && k.inst in insts && k.attr in m
    ensures k in values ==> k.(attr := m[k.attr]) !in values
  {
    assert k in values ==> k in Affected(values, insts, m);
  }

  lemma BackAt(values: Rows, insts: set<Id>, m: map<Id, Id>, k: RowKey)
    requires BetweenVersions(m) && BetweenVersions(Inverse(m)) && Inverse(Inverse(m)) == m
    requires Roomy(values, insts, m) && forall a :: a in m ==> a !in Inverse(m)
    ensures var back := Substituted(Substituted(values, insts, m), insts, Inverse(m));
            && (k.inst in insts && k.attr in Inverse(m) ==> k !in back)
            && (NoLeftovers(values, insts, m) ==>
                  (k in back <==> k in values) && (k in back ==> back[k] == values[k]))
  {
    hide Substituted, Inverse, Roomy, Injective;
    var w := Inverse(m);
    var out := Substituted(values, insts, m);
    SubstitutedAt(out, insts, w, k);
    SubstitutedAt(values, insts, m, k);
    if k.inst in insts && k.attr in m {
      var j := k.(attr := m[k.attr]);
      SubstitutedAt(values, insts, m, j);
      assert j.attr in w && w[j.attr] == k.attr && j.attr !in m;
      assert j.(attr := k.attr) == k;
      NoRoomNeeded(values, insts, m, k);
      assert j.attr in m.Values;
      assert Source(out, insts, m, k) == if j in out then j else k;
      assert k in values ==> Source(values, insts, w, j) == k;
    } else {
      assert Source(out, insts, m, k) == k;
      assert k.attr !in w ==> Source(values, insts, w, k) == k;
    }
  }

  lemma RemapOneRow(a: Id, b: Id, c: Id, v: Value)
    requires a != b
    ensures RemapOne(map[RowKey(1, 1, c) := v], {1}, a, b) == Some(map[RowKey(1, 1, if c == a then b else c) := v])
  {
    var values := map[RowKey(1, 1, c) := v];
    var k := RowKey(1, 1, if c == a then b else c);
    assert Moved({1}, a, b, RowKey(1, 1, c)) == k;
    var out := RemapOne(values, {1}, a, b).value;
    assert forall j :: j in out <==> j == k;
    assert out == map[k := v];
  }

  /** With an id on both sides the order of the pairs matters. */
  lemma OverlapDependsOnOrder(v: Value)
    ensures var values := map[RowKey(1, 1, 10) := v];
            var m := map[10 := 20, 20 := 30];
            && RemapInOrder(values, {1}, m, [10, 20]) == Some(map[RowKey(1, 1, 30) := v])
            && RemapInOrder(values, {1}, m, [20, 10]) == Some(map[RowKey(1, 1, 20) := v])
  {
    var m := map[10 := 20, 20 := 30];
    RemapTwo(m, 10, 20, v);
    RemapTwo(m, 20, 10, v);
  }

  lemma RemapTwo(m: map<Id, Id>, a: Id, b: Id, v: Value)
    requires a in m && b in m && m[a] != a && m[b] != b
    ensures var first := if a == 10 then m[a] else 10;
            RemapInOrder(map[RowKey(1, 1, 10) := v], {1}, m, [a, b])
            == Some(map[RowKey(1, 1, if b == first then m[b] else first) := v])
  {
    hide RemapOne, Total;
    var first := if a == 10 then m[a] else 10;
    var start := map[RowKey(1, 1, 10) := v];
    RemapOneRow(a, m[a], 10, v);
    RemapOneRow(b, m[b], first, v);
    assert [a, b] == [a] + [b] && [a] == [] + [a];
    OneMorePair(start, {1}, m, [], a, start);
    OneMorePair(start, {1}, m, [a], b, map[RowKey(1, 1, first) := v]);
  }
}
