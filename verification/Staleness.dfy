/** A stored "valid" is never stale: the status is reset by every call that could break it. */
module Staleness {
  import opened Domain
  import opened Database
  import opened Conformance
  import opened DataSteps

  /** Every catalog marked valid conforms, now. */
  ghost predicate NeverStale(d: Db, rules: Rules) {
    forall c :: c in d.catalogs && d.catalogs[c].status.Valid? ==> Conforms(ViewOf(d, c), rules)
  }

  /** The catalogs of "e" that are marked valid were so in "d" and look the same. */
  ghost predicate ValidOnesUnchanged(d: Db, e: Db) {
    forall c :: c in e.catalogs && e.catalogs[c].status.Valid? ==>
      c in d.catalogs && d.catalogs[c].status.Valid? && ViewOf(d, c) == ViewOf(e, c)
  }

  lemma UnchangedStaysFresh(d: Db, e: Db, rules: Rules)
    requires NeverStale(d, rules) && ValidOnesUnchanged(d, e)
    ensures NeverStale(e, rules)
  {
    hide Conforms, ViewOf;
  }

  lemma StatusIsNotInTheView(d: Db, c: Id, s: Status, k: Id)
    requires c in d.catalogs && k in d.catalogs
    ensures ViewOf(WithStatus(d, c, s), k) == ViewOf(d, k)
  {
    var e := WithStatus(d, c, s);
    assert MembersOf(d, k) == MembersOf(e, k) && CurrentRows(d, k) == CurrentRows(e, k)
        && LinksTouching(d, k) == LinksTouching(e, k);
    assert PinnedTypes(d, d.catalogs[k].cvId) == PinnedTypes(e, d.catalogs[k].cvId);
  }

  lemma StatusKeepsDataInv(d: Db, c: Id, s: Status)
    requires c in d.catalogs && DataInv(d)
    ensures DataInv(WithStatus(d, c, s))
  {
    hide SameScope;
    var e := WithStatus(d, c, s);
    forall i | i in e.instances
      ensures ParentInside(e, i)
    {
      assert ParentInside(d, i);
    }
  }

  /** An instance call: allowed steps on one catalog, then the reset to draft. */
  function DataCall(d: Db, c: Id, steps: seq<DataStep>): Db {
    var e := ApplySteps(d, steps);
    if c in e.catalogs then WithStatus(e, c, Draft) else e
  }

  /** Instance calls keep the data invariants and leave no stale "valid" behind. */
  lemma DataCallKeeps(d: Db, c: Id, steps: seq<DataStep>, rules: Rules)
    requires DataInv(d) && c in d.catalogs && StepsAllowed(d, c, steps)
    ensures DataInv(DataCall(d, c, steps))
    ensures NeverStale(d, rules) ==> NeverStale(DataCall(d, c, steps), rules)
  {
    hide DataInv, ViewOf, StepsAllowed, Conforms;
    var e := ApplySteps(d, steps);
    StepsKeep(d, c, steps);
    StatusKeepsDataInv(e, c, Draft);
    var f := WithStatus(e, c, Draft);
    if NeverStale(d, rules) {
      forall k | k in f.catalogs && f.catalogs[k].status.Valid?
        ensures k in d.catalogs && d.catalogs[k].status.Valid? && ViewOf(d, k) == ViewOf(f, k)
      {
        ElsewhereKeepsViews(d, e, c, k);
        StatusIsNotInTheView(e, c, Draft, k);
      }
      UnchangedStaysFresh(d, f, rules);
    }
  }
}
