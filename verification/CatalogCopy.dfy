/** Deep copies of catalogs: new ids throughout, everything else the same. */
module CatalogCopy {
  import opened Domain
  import opened Database
  import opened Conformance
  import opened DataSteps
  import opened Revisions
  import opened Isomorphism
  import opened Partition
  import opened Instances

  // ---- what a copy is ----

  /** The rows a copy adds, and the id maps it was made by. */
  datatype Copy = Copy(
    c: Id, row: Catalog,
    idMap: IdMap, linkMap: IdMap,
    made: map<Id, Instance>, rows: Rows, links: map<Id, Link>,
    next: Id)

  /** A parent outside the map is dropped. */
  function CopyOf(row: Instance, c: Id, idMap: IdMap): Instance {
    var parent := if row.parent.Some? && row.parent.value in idMap then Some(idMap[row.parent.value]) else None;
    Instance(row.typeId, c, parent, row.name, row.description, 1)
  }

  ghost predicate CopiesInstances(instances: map<Id, Instance>, c: Id, idMap: IdMap, made: map<Id, Instance>) {
    && idMap.Keys <= instances.Keys && Injective(idMap) && made.Keys == idMap.Values
    && forall i :: i in idMap ==> idMap[i] in made && made[idMap[i]] == CopyOf(instances[i], c, idMap)
  }

  ghost predicate CopiesRows(instances: map<Id, Instance>, values: Rows, idMap: IdMap, rows: Rows) {
    && idMap.Keys <= instances.Keys
    && (forall k :: k in rows ==> k.inst in idMap.Values && k.ver == 1)
    && (forall i :: i in idMap ==> RowsAt(rows, idMap[i], 1) == RowsAt(values, i, instances[i].version))
  }

  predicate Inside(idMap: IdMap, link: Link) {
    link.source in idMap && link.target in idMap
  }

  ghost predicate CopiesLinks(old_: map<Id, Link>, idMap: IdMap, linkMap: IdMap, links: map<Id, Link>) {
    && Injective(linkMap) && links.Keys == linkMap.Values
    && (forall l :: l in linkMap <==> l in old_ && Inside(idMap, old_[l]))
    && (forall l :: l in linkMap && l in old_ && Inside(idMap, old_[l]) ==>
          linkMap[l] in links && links[linkMap[l]] == Link(old_[l].assoc, idMap[old_[l].source], idMap[old_[l].target]))
  }

  ghost predicate Between(ids: set<Id>, low: Id, high: Id) {
    forall x :: x in ids ==> low <= x < high
  }

  ghost predicate IsCopyOf(d: Db, src: Id, k: Copy) {
    && src in d.catalogs && k.c == d.nextId && k.c < k.next
    && k.row.cvId == d.catalogs[src].cvId && k.row.status.Draft? && !k.row.published
    && k.idMap.Keys == MembersOf(d, src).Keys
    && CopiesInstances(d.instances, k.c, k.idMap, k.made)
    && CopiesRows(d.instances, d.values, k.idMap, k.rows)
    && CopiesLinks(d.links, k.idMap, k.linkMap, k.links)
    && Between(k.made.Keys, d.nextId + 1, k.next) && Between(k.links.Keys, d.nextId + 1, k.next)
  }

  function WithCopy(d: Db, k: Copy): Db {
    d.(catalogs := d.catalogs[k.c := k.row], instances := d.instances + k.made, values := d.values + k.rows,
       links := d.links + k.links, nextId := k.next)
  }

  /** Two rows, at least one of them new, share a scope. */
  ghost predicate ScopesClash(instances: map<Id, Instance>, made: map<Id, Instance>) {
    exists x, y :: x in made && y in instances + made && x != y && SameScope(made[x], (instances + made)[y])
  }

  /** New ids are not old ones. */
  ghost predicate Apart(idMap: IdMap) {
    idMap.Keys !! idMap.Values
  }

  // ---- the copying ----

  /** The first pass: rows without parents. */
  ghost predicate FreshlyNumbered(instances: map<Id, Instance>, c: Id, idMap: IdMap, made: map<Id, Instance>) {
    && idMap.Keys <= instances.Keys && Injective(idMap) && made.Keys == idMap.Values
    && forall i :: i in idMap ==> idMap[i] in made && made[idMap[i]] == CopyOf(instances[i], c, map[])
  }

  lemma NumberMore(instances: map<Id, Instance>, c: Id, idMap: IdMap, made: map<Id, Instance>, i: Id, x: Id)
    requires FreshlyNumbered(instances, c, idMap, made) && i in instances && i !in idMap && x !in made
    ensures FreshlyNumbered(instances, c, idMap[i := x], made[x := CopyOf(instances[i], c, map[])])
  {
    hide CopyOf;
    MapGrows(idMap, i, x);
    forall j | j in idMap
      ensures idMap[j] in made
    {
    }
  }

  /** The second pass: parents filled in outside "todo". */
  ghost predicate Parented(instances: map<Id, Instance>, c: Id, idMap: IdMap, made: map<Id, Instance>, todo: set<Id>) {
    && idMap.Keys <= instances.Keys && Injective(idMap) && made.Keys == idMap.Values
    && forall i :: i in idMap ==>
         idMap[i] in made && made[idMap[i]] == CopyOf(instances[i], c, if i in todo then map[] else idMap)
  }

  lemma ParentMore(instances: map<Id, Instance>, c: Id, idMap: IdMap, made: map<Id, Instance>, todo: set<Id>, i: Id)
    requires Parented(instances, c, idMap, made, todo) && i in idMap && i in todo
    ensures Parented(instances, c, idMap, made[idMap[i] := CopyOf(instances[i], c, idMap)], todo - {i})
    ensures CopyOf(instances[i], c, idMap) == CopyOf(instances[i], c, map[]) ==>
              Parented(instances, c, idMap, made, todo - {i})
  {
    hide CopyOf;
    assert idMap[i] in idMap.Values;
  }

  method PlanInstances(db: Store, members: set<Id>, c: Id) returns (idMap: IdMap, made: map<Id, Instance>)
    requires members <= db.instances.Keys
    requires Between(db.instances.Keys, 0, db.nextId)
    modifies db`nextId
    ensures idMap.Keys == members && CopiesInstances(db.instances, c, idMap, made)
    ensures Between(made.Keys, old(db.nextId), db.nextId) && old(db.nextId) <= db.nextId
  {
    hide Injective, FreshlyNumbered, Parented, CopiesInstances;
    idMap, made := map[], map[];
    NothingNumbered(db.instances, c);
    var todo := members;
    while todo != {}
      invariant todo <= members
      invariant idMap.Keys == members - todo && FreshlyNumbered(db.instances, c, idMap, made)
      invariant Between(made.Keys, old(db.nextId), db.nextId) && old(db.nextId) <= db.nextId
      decreases todo
    {
      var i :| i in todo;
      var inst := db.instances[i];
      NumberMore(db.instances, c, idMap, made, i, db.nextId);
      idMap := idMap[i := db.nextId];
      made := made[db.nextId := Instance(inst.typeId, c, None, inst.name, inst.description, 1)];
      db.nextId := db.nextId + 1;
      todo := todo - {i};
    }
    made := PlanParents(db, c, idMap, made);
  }

  lemma NothingNumbered(instances: map<Id, Instance>, c: Id)
    ensures FreshlyNumbered(instances, c, map[], map[])
  {
  }

  method PlanParents(db: Store, c: Id, idMap: IdMap, start: map<Id, Instance>) returns (made: map<Id, Instance>)
    requires FreshlyNumbered(db.instances, c, idMap, start)
    ensures CopiesInstances(db.instances, c, idMap, made) && made.Keys == start.Keys
  {
    made := start;
    assert Parented(db.instances, c, idMap, made, idMap.Keys);
    hide Injective, FreshlyNumbered, Parented, CopiesInstances;
    var todo := idMap.Keys;
    while todo != {}
      invariant todo <= idMap.Keys
      invariant Parented(db.instances, c, idMap, made, todo) && made.Keys == start.Keys
      decreases todo
    {
      var i :| i in todo;
      ParentedAt(db.instances, c, idMap, made, todo, i);
      var inst := db.instances[i];
      ParentMore(db.instances, c, idMap, made, todo, i);
      if inst.parent.Some? && inst.parent.value in idMap {
        made := made[idMap[i] := made[idMap[i]].(parent := Some(idMap[inst.parent.value]))];
      }
      todo := todo - {i};
    }
    AllParented(db.instances, c, idMap, made);
  }

  lemma ParentedAt(instances: map<Id, Instance>, c: Id, idMap: IdMap, made: map<Id, Instance>, todo: set<Id>, i: Id)
    requires Parented(instances, c, idMap, made, todo) && i in idMap && i in todo
    ensures i in instances && idMap[i] in made && made[idMap[i]] == CopyOf(instances[i], c, map[])
  {
  }

  lemma AllParented(instances: map<Id, Instance>, c: Id, idMap: IdMap, made: map<Id, Instance>)
    requires Parented(instances, c, idMap, made, {})
    ensures CopiesInstances(instances, c, idMap, made)
  {
    hide CopyOf;
  }

  /** Inserts row by row; each must find its scope free. */
  method InsertCopies(db: Store, made: map<Id, Instance>) returns (out: Outcome)
    requires made.Keys !! db.instances.Keys
    modifies db`instances
    ensures out.Fail? <==> ScopesClash(old(db.instances), made)
    ensures out.Pass? ==> db.instances == old(db.instances) + made
  {
    hide SameScope, ScopesClash, Inserted, NoClashYet;
    ghost var before := db.instances;
    var todo := made.Keys;
    NoneInserted(before, made);
    while todo != {}
      invariant todo <= made.Keys
      invariant db.instances == Inserted(before, made, todo)
      invariant NoClashYet(before, made, todo)
      decreases todo
    {
      var x :| x in todo;
      if y :| y in db.instances && SameScope(db.instances[y], made[x]) {
        ClashFound(before, made, todo, x, y);
        return Fail(Conflict);
      }
      OneMoreInserted(before, made, todo, x);
      db.instances := db.instances[x := made[x]];
      todo := todo - {x};
    }
    AllInserted(before, made);
    return Pass;
  }

  /** The table with the rows outside "todo" inserted. */
  ghost function Inserted(before: map<Id, Instance>, made: map<Id, Instance>, todo: set<Id>): map<Id, Instance> {
    before + (made - todo)
  }

  /** The rows inserted so far are apart from each other and from the old ones. */
  ghost predicate NoClashYet(before: map<Id, Instance>, made: map<Id, Instance>, todo: set<Id>) {
    forall x, y :: x in made && x !in todo && y in Inserted(before, made, todo) && x != y ==>
      !SameScope(made[x], Inserted(before, made, todo)[y])
  }

  lemma NoneInserted(before: map<Id, Instance>, made: map<Id, Instance>)
    ensures NoClashYet(before, made, made.Keys) && Inserted(before, made, made.Keys) == before
  {
    assert made - made.Keys == map[];
  }

  lemma ClashFound(before: map<Id, Instance>, made: map<Id, Instance>, todo: set<Id>, x: Id, y: Id)
    requires made.Keys !! before.Keys && x in todo && todo <= made.Keys
    requires y in Inserted(before, made, todo) && SameScope(Inserted(before, made, todo)[y], made[x])
    ensures ScopesClash(before, made)
  {
    hide SameScope;
    ScopeIsSymmetric(Inserted(before, made, todo)[y], made[x]);
    assert y in before + made && (before + made)[y] == Inserted(before, made, todo)[y] && x != y;
  }

  lemma OneMoreInserted(before: map<Id, Instance>, made: map<Id, Instance>, todo: set<Id>, x: Id)
    requires made.Keys !! before.Keys && x in todo && todo <= made.Keys && NoClashYet(before, made, todo)
    requires forall y :: y in Inserted(before, made, todo) ==> !SameScope(Inserted(before, made, todo)[y], made[x])
    ensures NoClashYet(before, made, todo - {x})
    ensures Inserted(before, made, todo)[x := made[x]] == Inserted(before, made, todo - {x})
  {
    hide SameScope, Inserted, NoClashYet;
    InsertedGrows(before, made, todo, x);
    NoClashGrows(before, made, todo, x);
  }

  lemma InsertedGrows(before: map<Id, Instance>, made: map<Id, Instance>, todo: set<Id>, x: Id)
    requires x in todo && todo <= made.Keys
    ensures Inserted(before, made, todo)[x := made[x]] == Inserted(before, made, todo - {x})
  {
    assert made - (todo - {x}) == (made - todo)[x := made[x]];
  }

  lemma NoClashGrows(before: map<Id, Instance>, made: map<Id, Instance>, todo: set<Id>, x: Id)
    requires x in todo && todo <= made.Keys && NoClashYet(before, made, todo)
    requires forall y :: y in Inserted(before, made, todo) ==> !SameScope(Inserted(before, made, todo)[y], made[x])
    requires Inserted(before, made, todo)[x := made[x]] == Inserted(before, made, todo - {x})
    ensures NoClashYet(before, made, todo - {x})
  {
    hide SameScope, Inserted;
    var was, now := Inserted(before, made, todo), Inserted(before, made, todo - {x});
    forall a, b | a in made && a !in todo - {x} && b in now && a != b
      ensures !SameScope(made[a], now[b])
    {
      if a == x {
        ScopeIsSymmetric(was[b], made[x]);
      } else if b == x {
        InsertedRow(before, made, todo, a);
        ScopeIsSymmetric(was[a], made[x]);
      }
    }
  }

  lemma InsertedRow(before: map<Id, Instance>, made: map<Id, Instance>, todo: set<Id>, a: Id)
    requires a in made && a !in todo
    ensures a in Inserted(before, made, todo) && Inserted(before, made, todo)[a] == made[a]
  {
  }

  lemma AllInserted(before: map<Id, Instance>, made: map<Id, Instance>)
    requires NoClashYet(before, made, {})
    ensures !ScopesClash(before, made) && Inserted(before, made, {}) == before + made
  {
    hide SameScope;
    assert made - {} == made;
    assert Inserted(before, made, {}) == before + made;
  }

  lemma ScopeIsSymmetric(x: Instance, y: Instance)
    ensures SameScope(x, y) == SameScope(y, x)
  {
  }

  /** The rows of the instances outside "todo" are copied. */
  ghost predicate RowsSoFar(instances: map<Id, Instance>, before: Rows, idMap: IdMap, rows: Rows, todo: set<Id>)
    requires idMap.Keys <= instances.Keys
  {
    && (forall k :: k in rows ==> k.ver == 1 && k.inst in idMap.Values)
    && (forall i :: i in idMap && i in todo ==> RowsAt(rows, idMap[i], 1) == map[])
    && (forall i :: i in idMap && i !in todo ==> RowsAt(rows, idMap[i], 1) == RowsAt(before, i, instances[i].version))
  }

  method CopyValues(db: Store, instances: map<Id, Instance>, idMap: IdMap) returns (ghost rows: Rows)
    requires idMap.Keys <= instances.Keys && Injective(idMap) && Apart(idMap)
    requires forall k :: k in db.values ==> k.inst !in idMap.Values
    modifies db`values
    ensures db.values == old(db.values) + rows
    ensures CopiesRows(instances, old(db.values), idMap, rows)
  {
    hide RowsAt, RowsSoFar, Injective, CopiesRows, Apart;
    rows := map[];
    ghost var before := db.values;
    var todo := idMap.Keys;
    NoRowsYet(instances, before, idMap);
    while todo != {}
      invariant todo <= idMap.Keys
      invariant db.values == before + rows
      invariant RowsSoFar(instances, before, idMap, rows, todo)
      decreases todo
    {
      var i :| i in todo;
      OldRowsStay(instances, before, idMap, rows, todo, i);
      var values := RowsAt(db.values, i, instances[i].version);
      FreeKeys(instances, before, idMap, rows, todo, i, values);
      if |values| > 0 {
        var out := SetValues(db, Keyed(idMap[i], 1, values));
        assert out.Pass?;
      }
      MoreRows(instances, before, idMap, rows, todo, i, values);
      rows := rows + Keyed(idMap[i], 1, values);
      todo := todo - {i};
    }
    AllRows(instances, before, idMap, rows);
  }

  lemma NoRowsYet(instances: map<Id, Instance>, before: Rows, idMap: IdMap)
    requires idMap.Keys <= instances.Keys
    ensures RowsSoFar(instances, before, idMap, map[], idMap.Keys)
  {
  }

  lemma AllRows(instances: map<Id, Instance>, before: Rows, idMap: IdMap, rows: Rows)
    requires idMap.Keys <= instances.Keys && RowsSoFar(instances, before, idMap, rows, {})
    ensures CopiesRows(instances, before, idMap, rows)
  {
    hide RowsAt;
  }

  lemma OldRowsStay(instances: map<Id, Instance>, before: Rows, idMap: IdMap, rows: Rows, todo: set<Id>, i: Id)
    requires idMap.Keys <= instances.Keys && RowsSoFar(instances, before, idMap, rows, todo) && Apart(idMap)
    requires i in idMap
    ensures RowsAt(before + rows, i, instances[i].version) == RowsAt(before, i, instances[i].version)
  {
    var ver := instances[i].version;
    forall a
      ensures RowKey(i, ver, a) !in rows
    {
      assert i !in idMap.Values;
    }
    hide RowsAt;
  }

  lemma FreeKeys(instances: map<Id, Instance>, before: Rows, idMap: IdMap, rows: Rows, todo: set<Id>, i: Id,
                 values: map<Id, Value>)
    requires idMap.Keys <= instances.Keys && RowsSoFar(instances, before, idMap, rows, todo)
    requires i in idMap && i in todo && forall k :: k in before ==> k.inst !in idMap.Values
    ensures forall k :: k in Keyed(idMap[i], 1, values) ==> k !in before + rows
    ensures (before + rows) + Keyed(idMap[i], 1, values) == before + (rows + Keyed(idMap[i], 1, values))
    ensures |values| == 0 ==> rows + Keyed(idMap[i], 1, values) == rows
  {
    hide RowsAt, Keyed;
    assert idMap[i] in idMap.Values;
    var x := idMap[i];
    assert RowsAt(rows, x, 1) == map[];
    KeyedIsFree(before, rows, x, values);
    SumAssociates(before, rows, Keyed(x, 1, values));
    if |values| == 0 {
      assert Keyed(x, 1, values) == map[];
    }
  }

  lemma KeyedIsFree(before: Rows, rows: Rows, x: Id, values: map<Id, Value>)
    requires RowsAt(rows, x, 1) == map[] && forall k :: k in before ==> k.inst != x
    ensures forall k :: k in Keyed(x, 1, values) ==> k !in before + rows
  {
    hide RowsAt, Keyed;
    forall k | k in Keyed(x, 1, values)
      ensures k !in rows
    {
      assert k == RowKey(x, 1, k.attr);
      assert k.attr !in RowsAt(rows, x, 1);
    }
  }

  lemma SumAssociates(a: Rows, b: Rows, c: Rows)
    ensures (a + b) + c == a + (b + c)
  {
  }

  lemma MoreRows(instances: map<Id, Instance>, before: Rows, idMap: IdMap, rows: Rows, todo: set<Id>, i: Id,
                 values: map<Id, Value>)
    requires idMap.Keys <= instances.Keys && RowsSoFar(instances, before, idMap, rows, todo) && Injective(idMap)
    requires i in idMap && i in todo && values == RowsAt(before, i, instances[i].version)
    ensures RowsSoFar(instances, before, idMap, rows + Keyed(idMap[i], 1, values), todo - {i})
  {
    hide RowsAt, Keyed, WithRows;
    var more := rows + Keyed(idMap[i], 1, values);
    assert idMap[i] in idMap.Values;
    forall j | j in idMap
      ensures RowsAt(more, idMap[j], 1) == if j == i then values else RowsAt(rows, idMap[j], 1)
    {
      WriteOneMore(rows, idMap[i], values, idMap[j]);
    }
  }

  lemma WriteOneMore(rows: Rows, x: Id, values: map<Id, Value>, y: Id)
    requires RowsAt(rows, x, 1) == map[]
    ensures RowsAt(rows + Keyed(x, 1, values), y, 1) == if y == x then values else RowsAt(rows, y, 1)
  {
    hide RowsAt, Keyed;
    RowsAfterWrite(rows, x, 1, values, y, 1);
  }

  // ---- links ----

  /** The link maps after the links from "done" and those listed. */
  ghost predicate LinksSoFar(before: map<Id, Link>, idMap: IdMap, linkMap: IdMap, links: map<Id, Link>,
                             done: set<Id>, some: set<Id>) {
    && Injective(linkMap) && links.Keys == linkMap.Values
    && (forall l :: l in linkMap <==> l in before && Inside(idMap, before[l]) && (before[l].source in done || l in some))
    && (forall l :: l in linkMap && l in before && Inside(idMap, before[l]) ==>
          linkMap[l] in links
          && links[linkMap[l]] == Link(before[l].assoc, idMap[before[l].source], idMap[before[l].target]))
  }

  /** The table and the counter meanwhile. */
  ghost predicate Added(before: map<Id, Link>, first: Id, now: map<Id, Link>, next: Id, links: map<Id, Link>) {
    && first <= next && Between(before.Keys, 0, first) && Between(links.Keys, first, next)
    && now == before + links
  }

  /** Every forward link of a copied instance whose other end was copied too. */
  method CopyLinks(db: Store, idMap: IdMap) returns (ghost linkMap: IdMap, ghost links: map<Id, Link>)
    requires Between(db.links.Keys, 0, db.nextId) && Apart(idMap)
    modifies db`links, db`nextId
    ensures db.links == old(db.links) + links
    ensures CopiesLinks(old(db.links), idMap, linkMap, links)
    ensures Between(links.Keys, old(db.nextId), db.nextId) && old(db.nextId) <= db.nextId
  {
    hide LinksSoFar, CopiesLinks, Injective, Added, Apart, Split;
    linkMap, links := map[], map[];
    ghost var before, first := db.links, db.nextId;
    var todo := idMap.Keys;
    ghost var done: set<Id> := {};
    NoLinksYet(before, first, idMap);
    SplitEnds(done, idMap.Keys);
    while todo != {}
      invariant Split(done, todo, idMap.Keys)
      invariant Added(before, first, db.links, db.nextId, links)
      invariant LinksSoFar(before, idMap, linkMap, links, done, {})
      decreases todo
    {
      var i :| i in todo;
      SplitMoves(done, todo, idMap.Keys, i);
      linkMap, links := CopyForward(db, idMap, i, before, first, linkMap, links, done);
      todo, done := todo - {i}, done + {i};
    }
    SplitEnds(done, idMap.Keys);
    AllLinks(before, first, db.links, db.nextId, idMap, linkMap, links, done);
  }

  lemma NoLinksYet(before: map<Id, Link>, first: Id, idMap: IdMap)
    requires Between(before.Keys, 0, first)
    ensures LinksSoFar(before, idMap, map[], map[], {}, {}) && Added(before, first, before, first, map[])
  {
  }

  lemma AllLinks(before: map<Id, Link>, first: Id, now: map<Id, Link>, next: Id, idMap: IdMap, linkMap: IdMap,
                 links: map<Id, Link>, done: set<Id>)
    requires Added(before, first, now, next, links)
    requires LinksSoFar(before, idMap, linkMap, links, done, {}) && done == idMap.Keys
    ensures CopiesLinks(before, idMap, linkMap, links)
    ensures now == before + links && Between(links.Keys, first, next) && first <= next
  {
  }

  ghost function LinksFrom(links: map<Id, Link>, i: Id): set<Id> {
    set l | l in links && links[l].source == i
  }

  /** Copies of links start elsewhere, and old ones are still there. */
  lemma ForwardRefs(before: map<Id, Link>, first: Id, now: map<Id, Link>, next: Id, idMap: IdMap, linkMap: IdMap,
                    links: map<Id, Link>, done: set<Id>, i: Id)
    requires Added(before, first, now, next, links)
    requires LinksSoFar(before, idMap, linkMap, links, done, {}) && i in idMap && Apart(idMap)
    ensures LinksFrom(now, i) == LinksFrom(before, i)
  {
    forall l | l in links
      ensures links[l].source in idMap.Values
    {
      var x := Preimage(linkMap, l);
      assert links[linkMap[x]].source == idMap[before[x].source];
    }
  }

  lemma LinkStill(before: map<Id, Link>, first: Id, now: map<Id, Link>, next: Id, links: map<Id, Link>, l: Id)
    requires Added(before, first, now, next, links) && l in before
    ensures l in now && now[l] == before[l] && next !in links
  {
  }

  method CopyForward(db: Store, idMap: IdMap, i: Id, ghost before: map<Id, Link>, ghost first: Id, ghost was: IdMap,
                     ghost wasLinks: map<Id, Link>, ghost done: set<Id>)
    returns (ghost linkMap: IdMap, ghost links: map<Id, Link>)
    requires i in idMap && i !in done && Apart(idMap)
    requires Added(before, first, db.links, db.nextId, wasLinks)
    requires LinksSoFar(before, idMap, was, wasLinks, done, {})
    modifies db`links, db`nextId
    ensures Added(before, first, db.links, db.nextId, links)
    ensures LinksSoFar(before, idMap, linkMap, links, done + {i}, {})
  {
    hide LinksSoFar, Added, Injective, Apart, Split;
    var refs := set l | l in db.links && db.links[l].source == i;
    ForwardRefs(before, first, db.links, db.nextId, idMap, was, wasLinks, done, i);
    assert refs == LinksFrom(before, i);
    linkMap, links := was, wasLinks;
    var todo := refs;
    ghost var some: set<Id> := {};
    SplitEnds(some, refs);
    while todo != {}
      invariant Split(some, todo, refs)
      invariant Added(before, first, db.links, db.nextId, links)
      invariant LinksSoFar(before, idMap, linkMap, links, done, some)
      decreases todo
    {
      var l :| l in todo;
      SplitMoves(some, todo, refs, l);
      LinkStill(before, first, db.links, db.nextId, links, l);
      var link := db.links[l];
      if link.source in idMap && link.target in idMap {
        var made := Link(link.assoc, idMap[link.source], idMap[link.target]);
        OneMoreLink(before, first, db.links, db.nextId, idMap, linkMap, links, done, some, l);
        linkMap, links := linkMap[l := db.nextId], links[db.nextId := made];
        db.links := db.links[db.nextId := made];
        db.nextId := db.nextId + 1;
      } else {
        NoNewLink(before, idMap, linkMap, links, done, some, l);
      }
      todo, some := todo - {l}, some + {l};
    }
    SplitEnds(some, refs);
    LinksOfOne(before, idMap, linkMap, links, done, some, i);
  }

  lemma LinksOfOne(before: map<Id, Link>, idMap: IdMap, linkMap: IdMap, links: map<Id, Link>, done: set<Id>,
                   some: set<Id>, i: Id)
    requires some == LinksFrom(before, i) && LinksSoFar(before, idMap, linkMap, links, done, some)
    ensures LinksSoFar(before, idMap, linkMap, links, done + {i}, {})
  {
  }

  lemma NoNewLink(before: map<Id, Link>, idMap: IdMap, linkMap: IdMap, links: map<Id, Link>, done: set<Id>,
                  some: set<Id>, l: Id)
    requires LinksSoFar(before, idMap, linkMap, links, done, some) && l in before && !Inside(idMap, before[l])
    ensures LinksSoFar(before, idMap, linkMap, links, done, some + {l})
  {
  }

  lemma OneMoreLink(before: map<Id, Link>, first: Id, now: map<Id, Link>, next: Id, idMap: IdMap, linkMap: IdMap,
                    links: map<Id, Link>, done: set<Id>, some: set<Id>, l: Id)
    requires LinksSoFar(before, idMap, linkMap, links, done, some) && Added(before, first, now, next, links)
    requires l in before && Inside(idMap, before[l]) && before[l].source !in done && l !in some
    ensures var made := Link(before[l].assoc, idMap[before[l].source], idMap[before[l].target]);
            && LinksSoFar(before, idMap, linkMap[l := next], links[next := made], done, some + {l})
            && Added(before, first, now[next := made], next + 1, links[next := made])
  {
    assert next !in links;
    MapGrows(linkMap, l, next);
    forall y | y in linkMap
      ensures linkMap[y] in links
    {
    }
  }

  // ---- the call ----

  ghost predicate NameTaken(catalogs: map<Id, Catalog>, name: string) {
    exists c :: c in catalogs && catalogs[c].name == name
  }

  predicate InCatalog(d: Db, src: Id, i: Id) {
    i in d.instances && d.instances[i].catalogId == src
  }

  /** The copied rows of the source cannot be told apart by the unique index. */
  ghost predicate CopyClashes(d: Db, src: Id) {
    exists i, j :: InCatalog(d, src, i) && InCatalog(d, src, j) && i != j && SameCopyScope(d, src, i, j)
  }

  /** A parent that is not a member is forgotten. */
  function KeptParent(d: Db, src: Id, i: Id): Option<Id>
    requires i in d.instances
  {
    var p := d.instances[i].parent;
    if p.Some? && InCatalog(d, src, p.value) then p else None
  }

  predicate SameCopyScope(d: Db, src: Id, i: Id, j: Id)
    requires i in d.instances && j in d.instances
  {
    && d.instances[i].typeId == d.instances[j].typeId && d.instances[i].name == d.instances[j].name
    && KeptParent(d, src, i) == KeptParent(d, src, j)
  }

  /** Either the whole copy is stored, or nothing is. */
  // ---- what the copy holds, record by record ----

  /** Every member of the source has a record of its own in the new catalog: its type, name and
      description, at version 1, under the record of its parent when that is a member. */
  ghost predicate RecordsCopied(d: Db, e: Db, src: Id, c: Id, idMap: IdMap) {
    && (forall i :: i in idMap <==> i in d.instances && d.instances[i].catalogId == src)
    && (forall i :: i in idMap && i in d.instances ==>
          idMap[i] !in d.instances && idMap[i] in e.instances && RecordCopied(d.instances[i], e.instances[idMap[i]], c, idMap))
    && (forall i, j :: i in idMap && j in idMap && idMap[i] == idMap[j] ==> i == j)
    && (forall x :: x in e.instances <==> x in d.instances || x in idMap.Values)
    && forall x :: x in d.instances && x in e.instances ==> e.instances[x] == d.instances[x]
  }

  ghost predicate RecordCopied(x: Instance, y: Instance, c: Id, idMap: IdMap) {
    && y.typeId == x.typeId && y.name == x.name && y.description == x.description && y.catalogId == c && y.version == 1
    && (x.parent.Some? && x.parent.value in idMap ==> y.parent == Some(idMap[x.parent.value]))
    && (x.parent.None? || x.parent.value !in idMap ==> y.parent == None)
  }

  /** Its current values, as values of version 1. */
  ghost predicate ValuesCopied(d: Db, e: Db, idMap: IdMap) {
    forall i, a :: i in idMap && i in d.instances ==>
      var (old_, new_) := (RowKey(i, d.instances[i].version, a), RowKey(idMap[i], 1, a));
      (new_ in e.values <==> old_ in d.values) && (new_ in e.values && old_ in d.values ==> e.values[new_] == d.values[old_])
  }

  /** And every link between two members, between their records. */
  ghost predicate LinksCopied(d: Db, e: Db, idMap: IdMap, linkMap: IdMap) {
    && (forall l :: l in linkMap <==> l in d.links && d.links[l].source in idMap && d.links[l].target in idMap)
    && (forall l :: l in linkMap && l in d.links && d.links[l].source in idMap && d.links[l].target in idMap ==>
          && linkMap[l] !in d.links && linkMap[l] in e.links
          && e.links[linkMap[l]].assoc == d.links[l].assoc
          && e.links[linkMap[l]].source == idMap[d.links[l].source] && e.links[linkMap[l]].target == idMap[d.links[l].target])
    && (forall x :: x in e.links <==> x in d.links || x in linkMap.Values)
    && forall x :: x in d.links && x in e.links ==> e.links[x] == d.links[x]
  }

  lemma CopyHoldsRecords(d: Db, src: Id, k: Copy)
    requires FreshData(d) && IsCopyOf(d, src, k)
    ensures RecordsCopied(d, WithCopy(d, k), src, k.c, k.idMap)
  {
    hide CopiesRows, CopiesLinks, CopyOf, RecordCopied;
    var e := WithCopy(d, k);
    assert e.instances == d.instances + k.made;
    forall x | x in k.made
      ensures x !in d.instances
    {
      assert x in k.made.Keys;
    }
    forall i | i in k.idMap
      ensures k.idMap[i] in e.instances && k.idMap[i] !in d.instances
      ensures RecordCopied(d.instances[i], e.instances[k.idMap[i]], k.c, k.idMap)
    {
      CopyIsCopied(d.instances[i], k.c, k.idMap);
    }
  }

  lemma CopyIsCopied(x: Instance, c: Id, idMap: IdMap)
    ensures RecordCopied(x, CopyOf(x, c, idMap), c, idMap)
  {
  }

  lemma CopyHoldsValues(d: Db, src: Id, k: Copy)
    requires FreshData(d) && IsCopyOf(d, src, k)
    ensures ValuesCopied(d, WithCopy(d, k), k.idMap)
  {
    hide CopiesLinks, MembersOf, CopyOf;
    var e := WithCopy(d, k);
    forall i, a | i in k.idMap
      ensures var (old_, new_) := (RowKey(i, d.instances[i].version, a), RowKey(k.idMap[i], 1, a));
              (new_ in e.values <==> old_ in d.values) && (new_ in e.values && old_ in d.values ==> e.values[new_] == d.values[old_])
    {
      assert k.idMap[i] in k.made.Keys;
      assert a in RowsAt(k.rows, k.idMap[i], 1) <==> a in RowsAt(d.values, i, d.instances[i].version);
      assert RowKey(k.idMap[i], 1, a) !in d.values;
    }
  }

  lemma CopyHoldsLinks(d: Db, src: Id, k: Copy)
    requires FreshData(d) && IsCopyOf(d, src, k)
    ensures LinksCopied(d, WithCopy(d, k), k.idMap, k.linkMap)
  {
    hide CopiesRows, CopiesInstances, MembersOf;
    forall l | l in k.linkMap
      ensures k.linkMap[l] in k.links && k.linkMap[l] !in d.links
    {
      assert k.linkMap[l] in k.linkMap.Values;
    }
  }

  method CopyCatalog(db: Store, sourceName: string, targetName: string, description: string)
    returns (res: Result<Id>, ghost k: Copy, ghost src: Id)
    requires FreshData(db.State()) && UniqueNames(db.catalogs)
    modifies db`catalogs, db`instances, db`values, db`links, db`nextId
    ensures res.Ok? ==>
              && src in old(db.catalogs) && old(db.catalogs)[src].name == sourceName
              && k.row.name == targetName
              && k.row.description == (if description == "" then old(db.catalogs)[src].description else description)
              && IsDnsLabel(targetName) && !NameTaken(old(db.catalogs), targetName)
              && res.value == k.c && IsCopyOf(old(db.State()), src, k) && !CopyClashes(old(db.State()), src)
              && db.State() == WithCopy(old(db.State()), k)
    ensures res.Ok? ==>
              && src in old(db.catalogs)
              && db.catalogs == old(db.catalogs)[res.value := Catalog(
                   targetName, if description == "" then old(db.catalogs)[src].description else description,
                   old(db.catalogs)[src].cvId, Draft, false)]
              && RecordsCopied(old(db.State()), db.State(), src, res.value, k.idMap)
              && ValuesCopied(old(db.State()), db.State(), k.idMap)
              && LinksCopied(old(db.State()), db.State(), k.idMap, k.linkMap)
    ensures res.Err? ==> db.State() == old(db.State())
    ensures res.Err? ==>
              || !IsDnsLabel(targetName) || NameTaken(old(db.catalogs), targetName)
              || !NameTaken(old(db.catalogs), sourceName)
              || exists s :: s in old(db.catalogs) && old(db.catalogs)[s].name == sourceName && CopyClashes(old(db.State()), s)
  {
    hide CopiesInstances, CopiesRows, CopiesLinks, FreshData, UniqueNames, CopyClashes, ScopesClash, MembersOf, IsCopyOf, WithCopy,
         RecordsCopied, ValuesCopied, LinksCopied;
    ghost var d := db.State();
    k, src := Copy(0, Catalog("", "", 0, Draft, false), map[], map[], map[], map[], map[], 0), 0;
    if !IsDnsLabel(targetName) {
      return Err(Rejected), k, src;
    }
    var found := FindCatalog(db.catalogs, sourceName);
    if found.None? {
      return Err(NotFound), k, src;
    }
    src := found.value;
    var source := db.catalogs[found.value];
    var desc := if description == "" then source.description else description;
    res, k := StoreCopy(db, found.value, Catalog(targetName, desc, source.cvId, Draft, false));
    if res.Ok? {
      CopyHoldsRecords(d, src, k);
      CopyHoldsValues(d, src, k);
      CopyHoldsLinks(d, src, k);
      CopyAddsCatalog(d, src, k);
    }
  }

  lemma CopyAddsCatalog(d: Db, src: Id, k: Copy)
    ensures WithCopy(d, k).catalogs == d.catalogs[k.c := k.row]
  {
  }

  /** Fresh ids for the members of the source, and their rows. */
  ghost predicate Plan(d: Db, src: Id, idMap: IdMap, made: map<Id, Instance>, next: Id) {
    && FreshData(d) && src in d.catalogs && d.nextId < next
    && idMap.Keys == MembersOf(d, src).Keys && CopiesInstances(d.instances, d.nextId, idMap, made)
    && Between(made.Keys, d.nextId + 1, next)
  }

  method PlanCopy(db: Store, src: Id) returns (idMap: IdMap, made: map<Id, Instance>)
    requires FreshData(db.State()) && src in db.catalogs
    modifies db`nextId
    ensures Plan(old(db.State()), src, idMap, made, db.nextId)
  {
    hide CopiesInstances, FreshData;
    ghost var d := db.State();
    FreshFacts(d, src);
    var c := db.nextId;
    db.nextId := c + 1;
    var members := set i | i in db.instances && db.instances[i].catalogId == src;
    idMap, made := PlanInstances(db, members, c);
  }

  /** What a plan tells each of the writes. */
  lemma PlanFacts(d: Db, src: Id, idMap: IdMap, made: map<Id, Instance>, next: Id)
    requires Plan(d, src, idMap, made, next)
    ensures made.Keys !! d.instances.Keys && idMap.Keys <= d.instances.Keys && Injective(idMap) && Apart(idMap)
    ensures forall k :: k in d.values ==> k.inst !in idMap.Values
    ensures Between(d.links.Keys, 0, next) && d.nextId !in d.catalogs
    ensures ScopesClash(d.instances, made) <==> CopyClashes(d, src)
  {
    hide ScopesClash, CopyClashes;
    FreshFacts(d, src);
    PlanApart(d, d.nextId, idMap, made);
    ClashMeans(d, src, d.nextId, idMap, made);
  }

  /** Plans the copy and stores it in one transaction. */
  method StoreCopy(db: Store, src: Id, row: Catalog) returns (res: Result<Id>, ghost k: Copy)
    requires FreshData(db.State()) && src in db.catalogs
    requires row.cvId == db.catalogs[src].cvId && row.status.Draft? && !row.published
    modifies db`catalogs, db`instances, db`values, db`links, db`nextId
    ensures res.Ok? <==> !NameTaken(old(db.catalogs), row.name) && !CopyClashes(old(db.State()), src)
    ensures res.Ok? ==> res.value == k.c && k.row == row && IsCopyOf(old(db.State()), src, k)
                        && db.State() == WithCopy(old(db.State()), k)
    ensures res.Err? ==> db.State() == old(db.State())
  {
    hide Plan, CopiesInstances, CopiesRows, CopiesLinks, FreshData, CopyClashes, ScopesClash, MembersOf, IsCopyOf, WithCopy,
         Between, Injective, Apart;
    ghost var d := db.State();
    var c, catalogs, instances := db.nextId, db.catalogs, db.instances;
    k := Copy(c, row, map[], map[], map[], map[], map[], c);
    var idMap, made := PlanCopy(db, src);
    ghost var planned := db.nextId;
    PlanFacts(d, src, idMap, made, planned);
    var taken := FindCatalog(db.catalogs, row.name);
    if taken.Some? {
      db.nextId := c;
      return Err(Conflict), k;
    }
    db.catalogs := db.catalogs[c := row];
    var out := InsertCopies(db, made);
    if out.Fail? {
      db.catalogs, db.instances, db.nextId := catalogs, instances, c;
      return Err(Conflict), k;
    }
    k := FillCopy(db, src, row, instances, idMap, made, d);
    return Ok(c), k;
  }

  /** The rows and links of a copy whose instances are stored. */
  method FillCopy(db: Store, ghost src: Id, ghost row: Catalog, instances: map<Id, Instance>, idMap: IdMap,
                  ghost made: map<Id, Instance>, ghost d: Db) returns (ghost k: Copy)
    requires Plan(d, src, idMap, made, db.nextId) && instances == d.instances
    requires row.cvId == d.catalogs[src].cvId && row.status.Draft? && !row.published
    requires SchemaSame(d, db.State()) && db.resources == d.resources && db.values == d.values && db.links == d.links
    requires db.catalogs == d.catalogs[d.nextId := row] && db.instances == d.instances + made
    modifies db`values, db`links, db`nextId
    ensures k.c == d.nextId && k.row == row && IsCopyOf(d, src, k) && db.State() == WithCopy(d, k)
  {
    hide Plan, CopiesInstances, CopiesRows, CopiesLinks, CopyClashes, ScopesClash, IsCopyOf, WithCopy, Between, Injective, Apart;
    ghost var planned := db.nextId;
    PlanFacts(d, src, idMap, made, planned);
    ghost var rows := CopyValues(db, instances, idMap);
    ghost var linkMap, links := CopyLinks(db, idMap);
    k := Copy(d.nextId, row, idMap, linkMap, made, rows, links, db.nextId);
    CopyMade(d, src, k, planned, db.State());
  }

  lemma FreshFacts(d: Db, src: Id)
    requires FreshData(d) && src in d.catalogs
    ensures MembersOf(d, src).Keys <= d.instances.Keys && Between(d.instances.Keys, 0, d.nextId)
    ensures d.nextId !in d.catalogs && Between(d.links.Keys, 0, d.nextId)
    ensures forall key :: key in d.values ==> key.inst < d.nextId
  {
  }

  lemma PlanApart(d: Db, c: Id, idMap: IdMap, made: map<Id, Instance>)
    requires CopiesInstances(d.instances, c, idMap, made)
    requires Between(d.instances.Keys, 0, d.nextId) && forall x :: x in made ==> d.nextId < x
    ensures made.Keys !! d.instances.Keys && Apart(idMap) && Injective(idMap)
    ensures forall key :: key in d.values && key.inst < d.nextId ==> key.inst !in idMap.Values
  {
  }

  /** The scope check on the copies is one on the source. */
  lemma ClashMeans(d: Db, src: Id, c: Id, idMap: IdMap, made: map<Id, Instance>)
    requires FreshData(d) && c == d.nextId && idMap.Keys == MembersOf(d, src).Keys && made.Keys !! d.instances.Keys
    requires CopiesInstances(d.instances, c, idMap, made)
    ensures ScopesClash(d.instances, made) <==> CopyClashes(d, src)
  {
    hide MembersOf, SameScope, SameCopyScope, CopyOf, FreshData, CopiesInstances, Injective;
    MembersInCatalog(d, src);
    if ScopesClash(d.instances, made) {
      var x, y :| x in made && y in d.instances + made && x != y && SameScope(made[x], (d.instances + made)[y]);
      var i := CopySource(d.instances, c, idMap, made, x);
      OldRowsElsewhere(d, c, made[x], y);
      var j := CopySource(d.instances, c, idMap, made, y);
      ScopeOfCopies(d, src, c, idMap, i, j);
      assert SameCopyScope(d, src, i, j);
    }
    if CopyClashes(d, src) {
      var i, j :| InCatalog(d, src, i) && InCatalog(d, src, j) && i != j && SameCopyScope(d, src, i, j);
      CopyTarget(d.instances, c, idMap, made, i, j);
      ScopeOfCopies(d, src, c, idMap, i, j);
      assert idMap[j] in d.instances + made && (d.instances + made)[idMap[j]] == made[idMap[j]];
    }
  }

  lemma CopySource(instances: map<Id, Instance>, c: Id, idMap: IdMap, made: map<Id, Instance>, x: Id) returns (i: Id)
    requires CopiesInstances(instances, c, idMap, made) && x in made
    ensures i in idMap && i in instances && idMap[i] == x && made[x] == CopyOf(instances[i], c, idMap)
    ensures made[x].catalogId == c && Injective(idMap)
  {
    i := Preimage(idMap, x);
  }

  lemma CopyTarget(instances: map<Id, Instance>, c: Id, idMap: IdMap, made: map<Id, Instance>, i: Id, j: Id)
    requires CopiesInstances(instances, c, idMap, made) && i in idMap && j in idMap
    ensures i in instances && idMap[i] in made && made[idMap[i]] == CopyOf(instances[i], c, idMap)
    ensures j in instances && idMap[j] in made && made[idMap[j]] == CopyOf(instances[j], c, idMap)
    ensures idMap[i] == idMap[j] ==> i == j
    ensures Injective(idMap)
  {
  }

  lemma OldRowsElsewhere(d: Db, c: Id, row: Instance, y: Id)
    requires FreshData(d) && c == d.nextId
    ensures y in d.instances && row.catalogId == c ==> !SameScope(row, d.instances[y])
  {
  }

  lemma ScopeOfCopies(d: Db, src: Id, c: Id, idMap: IdMap, i: Id, j: Id)
    requires idMap.Keys == MembersOf(d, src).Keys && Injective(idMap) && i in d.instances && j in d.instances
    ensures SameScope(CopyOf(d.instances[i], c, idMap), CopyOf(d.instances[j], c, idMap)) <==> SameCopyScope(d, src, i, j)
  {
    hide MembersOf;
    MembersInCatalog(d, src);
  }

  lemma MembersInCatalog(d: Db, src: Id)
    ensures forall i :: i in MembersOf(d, src) <==> InCatalog(d, src, i)
  {
  }

  lemma CopyMade(d: Db, src: Id, k: Copy, planned: Id, e: Db)
    requires Plan(d, src, k.idMap, k.made, planned) && k.c == d.nextId && planned <= k.next
    requires k.row.cvId == d.catalogs[src].cvId && k.row.status.Draft? && !k.row.published
    requires CopiesRows(d.instances, d.values, k.idMap, k.rows)
    requires CopiesLinks(d.links, k.idMap, k.linkMap, k.links) && Between(k.links.Keys, planned, k.next)
    requires SchemaSame(d, e) && e.resources == d.resources
    requires e.catalogs == d.catalogs[k.c := k.row] && e.instances == d.instances + k.made
    requires e.values == d.values + k.rows && e.links == d.links + k.links && e.nextId == k.next
    ensures IsCopyOf(d, src, k) && e == WithCopy(d, k)
  {
    hide CopiesInstances, CopiesRows, CopiesLinks, FreshData, MembersOf;
  }
}
