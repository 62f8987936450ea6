/** The attribute rows of the store over whole runs of instance calls: whatever the calls were,
    the rows of an instance are the fold of its own edits. */
module RowHistory {
  import opened Domain
  import opened Database
  import opened Conformance
  import opened Revisions
  import opened DataSteps
  import opened Staleness

  function TableOf(d: Db): Table {
    Table(d.values, map i | i in d.instances :: d.instances[i].version)
  }

  /** What a step does to rows and versions. */
  function WriteOf(d: Db, s: DataStep): Write {
    match s
    case Insert(row, rows) => Begin(d.nextId, row.version, rows)
    case Revise(i, _, edit) => Alter(i, edit)
    case AddLink(_) => Forget({})
    case DropLink(_) => Forget({})
    case Remove(gone) => Forget(gone)
  }

  lemma StepIsWrite(d: Db, c: Id, s: DataStep)
    requires DataInv(d) && StepAllowed(d, c, s)
    ensures TableOf(ApplyStep(d, s)) == Revisions.Apply(TableOf(d), WriteOf(d, s)) && LegalWrite(TableOf(d), WriteOf(d, s))
  {
    hide EditValues, WithRows, FreshSchema, RowsWithin, LinksInside, ParentsInside, UniqueScopes, SameScope;
    var e := ApplyStep(d, s);
    assert TableOf(e).versions == Revisions.Apply(TableOf(d), WriteOf(d, s)).versions;
  }

  /** The writes of a call, one step after the other. */
  function WritesOf(d: Db, steps: seq<DataStep>): seq<Write>
    decreases |steps|
  {
    if steps == [] then [] else [WriteOf(d, steps[0])] + WritesOf(ApplyStep(d, steps[0]), steps[1..])
  }

  lemma OneWrite(t: Table, w: Write)
    ensures After(t, [w]) == Revisions.Apply(t, w)
    ensures LegalWrite(t, w) ==> Legal(t, [w])
  {
    hide Revisions.Apply, LegalWrite;
    assert [w][..0] == [];
    assert After(t, []) == t;
  }

  lemma {:induction false} StepsAreWrites(d: Db, c: Id, steps: seq<DataStep>)
    requires DataInv(d) && StepsAllowed(d, c, steps)
    ensures TableOf(ApplySteps(d, steps)) == After(TableOf(d), WritesOf(d, steps)) && Legal(TableOf(d), WritesOf(d, steps))
    decreases |steps|
  {
    hide DataInv, StepAllowed, ApplyStep, TableOf, WriteOf, Legal, LegalWrite, Revisions.Apply;
    if steps == [] {
      NoWrites(TableOf(d));
    } else {
      var w := WriteOf(d, steps[0]);
      StepIsWrite(d, c, steps[0]);
      StepKeeps(d, c, steps[0]);
      StepsAreWrites(ApplyStep(d, steps[0]), c, steps[1..]);
      OneWrite(TableOf(d), w);
      AfterJoined(TableOf(d), [w], WritesOf(ApplyStep(d, steps[0]), steps[1..]));
      LegalJoined(TableOf(d), [w], WritesOf(ApplyStep(d, steps[0]), steps[1..]));
    }
  }

  lemma NoWrites(t: Table)
    ensures After(t, []) == t && Legal(t, [])
  {
  }

  // ---- runs of calls ----

  /** An instance call: a catalog and the steps taken on it. */
  datatype Call = Call(c: Id, steps: seq<DataStep>)

  ghost predicate CallRun(states: seq<Db>, calls: seq<Call>) {
    && |states| == |calls| + 1
    && forall k :: 0 <= k < |calls| ==> CallMade(states[k], calls[k], states[k + 1])
  }

  ghost predicate CallMade(d: Db, x: Call, e: Db) {
    x.c in d.catalogs && StepsAllowed(d, x.c, x.steps) && e == DataCall(d, x.c, x.steps)
  }

  /** All writes of a run. */
  function History(states: seq<Db>, calls: seq<Call>): seq<Write>
    requires |states| == |calls| + 1
  {
    if calls == [] then []
    else
      var n := |calls| - 1;
      History(states[..n + 1], calls[..n]) + WritesOf(states[n], calls[n].steps)
  }

  lemma CallIsWrites(d: Db, x: Call, e: Db)
    requires DataInv(d) && CallMade(d, x, e)
    ensures TableOf(e) == After(TableOf(d), WritesOf(d, x.steps)) && Legal(TableOf(d), WritesOf(d, x.steps)) && DataInv(e)
  {
    hide DataInv, ApplySteps, StepsAllowed, After, Legal, WritesOf;
    StepsAreWrites(d, x.c, x.steps);
    StepsKeep(d, x.c, x.steps);
    var f := ApplySteps(d, x.steps);
    if x.c in f.catalogs {
      StatusKeepsDataInv(f, x.c, Draft);
    }
  }

  lemma {:induction false} RunIsWrites(states: seq<Db>, calls: seq<Call>)
    requires CallRun(states, calls) && DataInv(states[0])
    ensures TableOf(states[|calls|]) == After(TableOf(states[0]), History(states, calls))
    ensures Legal(TableOf(states[0]), History(states, calls)) && DataInv(states[|calls|])
    decreases |calls|
  {
    hide DataInv, CallMade, After, Legal, WritesOf, TableOf;
    if calls == [] {
      NoWrites(TableOf(states[0]));
    } else {
      var n := |calls| - 1;
      var t, run, more := TableOf(states[0]), History(states[..n + 1], calls[..n]), WritesOf(states[n], calls[n].steps);
      RunIsWrites(states[..n + 1], calls[..n]);
      CallIsWrites(states[n], calls[n], states[n + 1]);
      AfterJoined(t, run, more);
      LegalJoined(t, run, more);
    }
  }

  lemma StoreIsSound(d: Db)
    requires DataInv(d)
    ensures Sound(TableOf(d))
  {
    hide FreshData, FreshSchema, LinksInside, ParentsInside, UniqueScopes;
  }

  /** After any run of instance calls, no row lies beyond a current version, and the rows of every
      instance are the fold of its edits over what it held at the start or was created with. */
  lemma CallsAreFolds(states: seq<Db>, calls: seq<Call>, i: Id) returns (k: nat)
    requires CallRun(states, calls) && DataInv(states[0]) && i in states[|calls|].instances
    ensures var t, run := TableOf(states[0]), History(states, calls);
            && k <= |run| && i in After(t, run[..k]).versions && i in TableOf(states[|calls|]).versions
            && Tracks(After(t, run[..k]), TableOf(states[|calls|]), i, EditsOf(run, i))
            && (k > 0 ==> run[k - 1].Begin? && run[k - 1].inst == i && After(t, run[..k]).versions[i] == run[k - 1].ver
                          && RowsAt(After(t, run[..k]).values, i, run[k - 1].ver) == run[k - 1].rows)
            && (k == 0 ==> After(t, run[..k]) == t)
            && forall j :: k <= j < |run| ==> !(run[j].Begin? && run[j].inst == i)
    ensures Sound(TableOf(states[|calls|]))
  {
    hide DataInv, CallMade, After, Legal, Tracks, RowsAt, Sound, OriginOf;
    var t, run := TableOf(states[0]), History(states, calls);
    RunIsWrites(states, calls);
    StoreIsSound(states[0]);
    RunIsFold(t, run, i);
    k := OriginIsStartOrCreation(t, run, i);
    assert run[..0] == [];
    NoWrites(t);
  }
}
