/** Loops over a set of ids: what has been handled and what is left. */
module Partition {
  import opened Domain

  ghost predicate Split(done: set<Id>, todo: set<Id>, all: set<Id>) {
    done !! todo && done + todo == all
  }

  lemma SplitMoves(done: set<Id>, todo: set<Id>, all: set<Id>, x: Id)
    requires Split(done, todo, all) && x in todo
    ensures x in all && x !in done && Split(done + {x}, todo - {x}, all)
  {
  }

  lemma SplitEnds(done: set<Id>, all: set<Id>)
    ensures Split({}, all, all) && (Split(done, {}, all) ==> done == all)
  {
  }
}
