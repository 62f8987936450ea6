/** Attribute rows over the versions of an instance: an edit never rewrites a stored
    version, it writes the next one. */
module Revisions {
  import opened Domain

  type Rows = map<RowKey, Value>

  /** The rows of one instance at one version, by attribute. */
  function RowsAt(values: Rows, i: Id, ver: nat): (rows: map<Id, Value>)
    ensures forall a :: a in rows <==> RowKey(i, ver, a) in values
    ensures forall a :: a in rows ==> rows[a] == values[RowKey(i, ver, a)]
  {
    map k | k in values && k.inst == i && k.ver == ver :: k.attr := values[k]
  }

  function Keyed(i: Id, ver: nat, rows: map<Id, Value>): (table: Rows)
    ensures forall k :: k in table <==> k.inst == i && k.ver == ver && k.attr in rows
    ensures forall k :: k in table ==> table[k] == rows[k.attr]
  {
    map a | a in rows :: RowKey(i, ver, a) := rows[a]
  }

  /** Inserting rows at keys that are free. */
  function WithRows(values: Rows, i: Id, ver: nat, rows: map<Id, Value>): Rows {
    values + Keyed(i, ver, rows)
  }

  function DropVersion(values: Rows, i: Id, ver: nat): Rows {
    map k | k in values && !(k.inst == i && k.ver == ver) :: values[k]
  }

  /** An update touches some attributes, each set or cleared; a structural change touches none. */
  datatype Edit = Update(touched: map<Id, Option<Value>>) | Structural

  /** Touched values override, cleared ones vanish, the rest carry forward. */
  function Revised(rows: map<Id, Value>, touched: map<Id, Option<Value>>): map<Id, Value> {
    map a | a in rows.Keys + touched.Keys && (a in touched ==> touched[a].Some?)
      :: if a in touched then touched[a].value else rows[a]
  }

  function ApplyEdit(rows: map<Id, Value>, e: Edit): map<Id, Value> {
    match e
    case Update(touched) => Revised(rows, touched)
    case Structural => rows
  }

  /** The table after one edit of an instance at version "ver". A structural change first
      clears whatever a failed attempt may have left at the next version. */
  function EditValues(values: Rows, i: Id, ver: nat, e: Edit): Rows {
    match e
    case Update(touched) => WithRows(values, i, ver + 1, Revised(RowsAt(values, i, ver), touched))
    case Structural => WithRows(DropVersion(values, i, ver + 1), i, ver + 1, RowsAt(values, i, ver))
  }

  ghost predicate NoRowsBeyond(values: Rows, i: Id, ver: nat) {
    forall k :: k in values && k.inst == i ==> k.ver <= ver
  }

  lemma RowsAfterWrite(values: Rows, i: Id, ver: nat, rows: map<Id, Value>, j: Id, w: nat)
    requires RowsAt(values, i, ver) == map[]
    ensures RowsAt(WithRows(values, i, ver, rows), j, w) ==
            if j == i && w == ver then rows else RowsAt(values, j, w)
  {
    hide RowsAt, Keyed;
    var left := RowsAt(WithRows(values, i, ver, rows), j, w);
    var right := if j == i && w == ver then rows else RowsAt(values, j, w);
    forall a
      ensures a in left <==> a in right
      ensures a in left && a in right ==> left[a] == right[a]
    {
      var k := RowKey(j, w, a);
      assert k in Keyed(i, ver, rows) <==> j == i && w == ver && a in rows;
      assert j == i && w == ver ==> k !in values by {
        assert a !in RowsAt(values, i, ver);
      }
    }
  }

  /** One edit writes exactly the next version of its instance and leaves every other
      version of every instance as it was. */
  lemma EditWritesNextVersion(values: Rows, i: Id, ver: nat, e: Edit, j: Id, w: nat)
    requires NoRowsBeyond(values, i, ver)
    ensures RowsAt(EditValues(values, i, ver, e), j, w) ==
            if j == i && w == ver + 1 then ApplyEdit(RowsAt(values, i, ver), e) else RowsAt(values, j, w)
    ensures NoRowsBeyond(EditValues(values, i, ver, e), i, ver + 1)
    ensures j != i && NoRowsBeyond(values, j, w) ==> NoRowsBeyond(EditValues(values, i, ver, e), j, w)
  {
    hide RowsAt, Keyed;
    assert RowsAt(values, i, ver + 1) == map[];
    match e
    case Update(touched) =>
      RowsAfterWrite(values, i, ver + 1, Revised(RowsAt(values, i, ver), touched), j, w);
    case Structural =>
      assert DropVersion(values, i, ver + 1) == values;
      RowsAfterWrite(values, i, ver + 1, RowsAt(values, i, ver), j, w);
  }

  // ---- whole runs ----

  /** The rows and the current version of every instance. */
  datatype Table = Table(values: Rows, versions: map<Id, nat>)

  /** A run creates, changes and forgets instances in any interleaving. Forgetting an instance
      leaves its rows. */
  datatype Write =
    | Begin(inst: Id, ver: nat, rows: map<Id, Value>)
    | Alter(inst: Id, edit: Edit)
    | Forget(gone: set<Id>)

  function Apply(t: Table, w: Write): Table {
    match w
    case Begin(i, ver, rows) => Table(WithRows(t.values, i, ver, rows), t.versions[i := ver])
    case Alter(i, e) =>
      if i !in t.versions then t
      else Table(EditValues(t.values, i, t.versions[i], e), t.versions[i := t.versions[i] + 1])
    case Forget(gone) => Table(t.values, t.versions - gone)
  }

  function After(t: Table, run: seq<Write>): Table {
    if run == [] then t else Apply(After(t, run[..|run| - 1]), run[|run| - 1])
  }

  ghost predicate NoRowsOf(values: Rows, i: Id) {
    forall k :: k in values ==> k.inst != i
  }

  /** New instances are new to the table, changed ones are in it. */
  ghost predicate LegalWrite(t: Table, w: Write) {
    match w
    case Begin(i, _, _) => i !in t.versions && NoRowsOf(t.values, i)
    case Alter(i, _) => i in t.versions
    case Forget(_) => true
  }

  ghost predicate Legal(t: Table, run: seq<Write>) {
    forall k :: 0 <= k < |run| ==> LegalWrite(After(t, run[..k]), run[k])
  }

  ghost predicate Sound(t: Table) {
    forall i :: i in t.versions ==> NoRowsBeyond(t.values, i, t.versions[i])
  }

  /** The edits of an instance since it was created, or since the run began. */
  function EditsOf(run: seq<Write>, i: Id): seq<Edit> {
    if run == [] then []
    else
      var rest := EditsOf(run[..|run| - 1], i);
      match run[|run| - 1]
      case Begin(j, _, _) => if j == i then [] else rest
      case Alter(j, e) => if j == i then rest + [e] else rest
      case Forget(_) => rest
  }

  /** The table the edits of an instance start from: right after its creation, or where the run began. */
  function OriginOf(t: Table, run: seq<Write>, i: Id): Table {
    if run == [] then t
    else if run[|run| - 1].Begin? && run[|run| - 1].inst == i then After(t, run)
    else OriginOf(t, run[..|run| - 1], i)
  }

  function Fold(rows: map<Id, Value>, edits: seq<Edit>): map<Id, Value> {
    if edits == [] then rows else ApplyEdit(Fold(rows, edits[..|edits| - 1]), edits[|edits| - 1])
  }

  lemma BeginFacts(t: Table, j: Id, ver: nat, rows: map<Id, Value>, i: Id, w: nat)
    requires NoRowsOf(t.values, j)
    ensures RowsAt(WithRows(t.values, j, ver, rows), i, w) ==
            if i != j then RowsAt(t.values, i, w) else if w == ver then rows else map[]
    ensures i != j && NoRowsBeyond(t.values, i, w) ==> NoRowsBeyond(WithRows(t.values, j, ver, rows), i, w)
    ensures NoRowsBeyond(WithRows(t.values, j, ver, rows), j, ver)
  {
    hide RowsAt, Keyed;
    assert RowsAt(t.values, j, ver) == map[] && RowsAt(t.values, j, w) == map[];
    RowsAfterWrite(t.values, j, ver, rows, i, w);
  }

  lemma ApplyKeepsSound(t: Table, w: Write)
    requires Sound(t) && LegalWrite(t, w)
    ensures Sound(Apply(t, w))
  {
    hide RowsAt, EditValues, ApplyEdit, WithRows, NoRowsBeyond;
    var u := Apply(t, w);
    forall i | i in u.versions
      ensures NoRowsBeyond(u.values, i, u.versions[i])
    {
      match w
      case Begin(j, ver, rows) => BeginFacts(t, j, ver, rows, i, u.versions[i]);
      case Alter(j, e) => EditWritesNextVersion(t.values, j, t.versions[j], e, i, if i == j then 0 else t.versions[i]);
      case Forget(_) =>
    }
  }

  /** What a write does to the rows of an instance it does not create. */
  lemma ApplyRows(t: Table, w: Write, i: Id, ver: nat)
    requires Sound(t) && LegalWrite(t, w) && i in t.versions && !(w.Begin? && w.inst == i)
    ensures RowsAt(Apply(t, w).values, i, ver) ==
            if w.Alter? && w.inst == i && ver == t.versions[i] + 1 then ApplyEdit(RowsAt(t.values, i, t.versions[i]), w.edit)
            else RowsAt(t.values, i, ver)
  {
    hide RowsAt, EditValues, ApplyEdit, WithRows;
    match w
    case Begin(j, v, rows) => BeginFacts(t, j, v, rows, i, ver);
    case Alter(j, e) => EditWritesNextVersion(t.values, j, t.versions[j], e, i, ver);
    case Forget(_) =>
  }

  /** Table "u" is what the edits of instance "i" make of table "t": its version counts the
      edits, the rows k versions on are the fold of the first k, and every version it
      already had still holds the rows it held. */
  ghost predicate Tracks(t: Table, u: Table, i: Id, edits: seq<Edit>)
    requires i in t.versions && i in u.versions
  {
    && u.versions[i] == t.versions[i] + |edits|
    && (forall k: nat :: k <= |edits| ==>
          RowsAt(u.values, i, t.versions[i] + k) == Fold(RowsAt(t.values, i, t.versions[i]), edits[..k]))
    && (forall w: nat :: w <= t.versions[i] ==> RowsAt(u.values, i, w) == RowsAt(t.values, i, w))
  }

  lemma TracksStep(t: Table, u: Table, i: Id, edits: seq<Edit>, w: Write)
    requires i in t.versions && i in u.versions && Sound(u) && LegalWrite(u, w) && !(w.Begin? && w.inst == i)
    requires Tracks(t, u, i, edits) && i in Apply(u, w).versions
    ensures Tracks(t, Apply(u, w), i, if w.Alter? && w.inst == i then edits + [w.edit] else edits)
  {
    hide RowsAt, EditValues, ApplyEdit, Fold, WithRows;
    var after := Apply(u, w);
    forall ver: nat
      ensures RowsAt(after.values, i, ver) ==
              if w.Alter? && w.inst == i && ver == u.versions[i] + 1 then ApplyEdit(RowsAt(u.values, i, u.versions[i]), w.edit)
              else RowsAt(u.values, i, ver)
    {
      ApplyRows(u, w, i, ver);
    }
    if w.Alter? && w.inst == i {
      var base := RowsAt(t.values, i, t.versions[i]);
      var more := edits + [w.edit];
      forall k: nat | k <= |more|
        ensures RowsAt(after.values, i, t.versions[i] + k) == Fold(base, more[..k])
      {
        if k <= |edits| {
          assert more[..k] == edits[..k];
        } else {
          assert more[..k] == more && edits[..|edits|] == edits;
          FoldSnoc(base, edits, w.edit);
        }
      }
    }
  }

  lemma FoldSnoc(rows: map<Id, Value>, edits: seq<Edit>, e: Edit)
    ensures Fold(rows, edits + [e]) == ApplyEdit(Fold(rows, edits), e)
  {
    assert (edits + [e])[..|edits|] == edits;
  }

  lemma TracksItself(t: Table, i: Id)
    requires i in t.versions
    ensures Tracks(t, t, i, [])
  {
    hide RowsAt;
    assert forall edits: seq<Edit> :: edits == [] ==> edits[..0] == [];
  }

  lemma LegalPrefix(t: Table, run: seq<Write>)
    requires Legal(t, run) && run != []
    ensures Legal(t, run[..|run| - 1]) && LegalWrite(After(t, run[..|run| - 1]), run[|run| - 1])
  {
    hide LegalWrite, After;
    var rest := run[..|run| - 1];
    forall k | 0 <= k < |rest|
      ensures LegalWrite(After(t, rest[..k]), rest[k])
    {
      assert rest[..k] == run[..k];
    }
  }

  /** Over any run, no row lies beyond a current version, and every instance is tracked from its
      origin by its own edits. */
  lemma {:induction false} RunIsFold(t: Table, run: seq<Write>, i: Id)
    requires Sound(t) && Legal(t, run)
    ensures Sound(After(t, run))
    ensures i in After(t, run).versions ==>
              i in OriginOf(t, run, i).versions && Tracks(OriginOf(t, run, i), After(t, run), i, EditsOf(run, i))
  {
    hide RowsAt, Apply, Tracks, LegalWrite, Sound, Legal;
    if run == [] {
      if i in t.versions {
        TracksItself(t, i);
      }
    } else {
      var last := run[|run| - 1];
      var before := After(t, run[..|run| - 1]);
      LegalPrefix(t, run);
      RunIsFold(t, run[..|run| - 1], i);
      ApplyKeepsSound(before, last);
      if i in After(t, run).versions {
        if last.Begin? && last.inst == i {
          TracksItself(After(t, run), i);
        } else {
          StillThere(before, last, i);
          TracksStep(OriginOf(t, run, i), before, i, EditsOf(run[..|run| - 1], i), last);
        }
      }
    }
  }

  lemma StillThere(t: Table, w: Write, i: Id)
    requires i in Apply(t, w).versions && !(w.Begin? && w.inst == i)
    ensures i in t.versions
  {
    hide EditValues, WithRows;
  }

  /** An origin inside the run holds what the instance was created with, and nothing else of it. */
  lemma {:induction false} OriginIsStartOrCreation(t: Table, run: seq<Write>, i: Id) returns (k: nat)
    requires Legal(t, run)
    ensures k <= |run| && OriginOf(t, run, i) == After(t, run[..k])
    ensures k > 0 ==> && run[k - 1].Begin? && run[k - 1].inst == i && i in After(t, run[..k]).versions
                      && After(t, run[..k]).versions[i] == run[k - 1].ver
                      && forall w: nat :: RowsAt(After(t, run[..k]).values, i, w) == if w == run[k - 1].ver then run[k - 1].rows else map[]
    ensures k == 0 ==> OriginOf(t, run, i) == t
    ensures forall j :: k <= j < |run| ==> !(run[j].Begin? && run[j].inst == i)
  {
    hide RowsAt, WithRows, EditValues, Legal;
    if run == [] {
      k := 0;
    } else if run[|run| - 1].Begin? && run[|run| - 1].inst == i {
      k := |run|;
      assert run[..k] == run;
      LegalPrefix(t, run);
      var before, last := After(t, run[..|run| - 1]), run[|run| - 1];
      forall w: nat
        ensures RowsAt(After(t, run).values, i, w) == if w == last.ver then last.rows else map[]
      {
        BeginFacts(before, i, last.ver, last.rows, i, w);
      }
    } else {
      LegalPrefix(t, run);
      k := OriginIsStartOrCreation(t, run[..|run| - 1], i);
      assert run[..|run| - 1][..k] == run[..k];
    }
  }

  // ---- joining runs ----

  lemma {:induction false} AfterJoined(t: Table, run: seq<Write>, more: seq<Write>)
    ensures After(t, run + more) == After(After(t, run), more)
  {
    hide Apply;
    if more == [] {
      assert run + more == run;
    } else {
      assert (run + more)[..|run + more| - 1] == run + more[..|more| - 1];
      AfterJoined(t, run, more[..|more| - 1]);
    }
  }

  lemma LegalJoined(t: Table, run: seq<Write>, more: seq<Write>)
    requires Legal(t, run) && Legal(After(t, run), more)
    ensures Legal(t, run + more)
  {
    hide LegalWrite, After;
    var all := run + more;
    forall k | 0 <= k < |all|
      ensures LegalWrite(After(t, all[..k]), all[k])
    {
      if k < |run| {
        assert all[..k] == run[..k];
      } else {
        assert all[..k] == run + more[..k - |run|];
        AfterJoined(t, run, more[..k - |run|]);
      }
    }
  }
}
