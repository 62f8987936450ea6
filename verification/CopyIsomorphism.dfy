/** What copying a catalog keeps: the copy is the source up to ids, and nothing else moves. */
module CopyIsomorphism {
  import opened Domain
  import opened Database
  import opened Conformance
  import opened DataSteps
  import opened Revisions
  import opened Isomorphism
  import opened CatalogCopy
  import opened Staleness
  import opened Cardinality

  /** Every parent of a member is a member. */
  ghost predicate ParentsClosed(d: Db, src: Id) {
    forall i :: InCatalog(d, src, i) && d.instances[i].parent.Some? ==> InCatalog(d, src, d.instances[i].parent.value)
  }

  lemma MadeRow(d: Db, src: Id, k: Copy, x: Id)
    requires FreshData(d) && IsCopyOf(d, src, k) && x in k.made
    ensures x !in d.instances && k.made[x].catalogId == k.c && x in WithCopy(d, k).instances
    ensures WithCopy(d, k).instances[x] == k.made[x]
  {
    hide CopiesRows, CopiesLinks, MembersOf, CopyOf;
    var i := CopySource(d.instances, k.c, k.idMap, k.made, x);
  }

  lemma MadeLink(d: Db, src: Id, k: Copy, l: Id) returns (x: Id)
    requires FreshData(d) && IsCopyOf(d, src, k) && l in k.links
    ensures l !in d.links && x in k.linkMap && k.linkMap[x] == l && x in d.links && Inside(k.idMap, d.links[x])
    ensures k.links[l].source in k.made && k.links[l].target in k.made
  {
    hide CopiesRows, MembersOf, CopyOf;
    x := Preimage(k.linkMap, l);
    CopyTarget(d.instances, k.c, k.idMap, k.made, d.links[x].source, d.links[x].target);
  }

  lemma OldLink(d: Db, src: Id, k: Copy, l: Id)
    requires FreshData(d) && LinksInside(d) && IsCopyOf(d, src, k) && l in d.links
    ensures l !in k.links && l in WithCopy(d, k).links && WithCopy(d, k).links[l] == d.links[l]
    ensures forall c :: TouchesCatalog(WithCopy(d, k), c, d.links[l]) <==> TouchesCatalog(d, c, d.links[l])
    ensures !TouchesCatalog(d, k.c, d.links[l])
    ensures TouchesCatalog(d, src, d.links[l]) <==> l in k.linkMap
  {
    hide IsCopyOf, FreshData, TouchesCatalog;
    if l in k.links {
      var x := MadeLink(d, src, k, l);
    }
    OldEnd(d, src, k, d.links[l].source);
    OldEnd(d, src, k, d.links[l].target);
    forall c
      ensures TouchesCatalog(WithCopy(d, k), c, d.links[l]) <==> TouchesCatalog(d, c, d.links[l])
    {
      SameTouch(d, WithCopy(d, k), c, d.links[l]);
    }
    SameTouch(d, d, k.c, d.links[l]);
    InLinkMap(d, src, k, l);
  }

  lemma OldEnd(d: Db, src: Id, k: Copy, x: Id)
    requires FreshData(d) && IsCopyOf(d, src, k) && x in d.instances
    ensures x in WithCopy(d, k).instances && WithCopy(d, k).instances[x] == d.instances[x]
    ensures d.instances[x].catalogId != k.c
  {
    hide CopiesRows, CopiesLinks, MembersOf, CopyOf, CopiesInstances;
    if x in k.made {
      MadeRow(d, src, k, x);
    }
  }

  lemma SameTouch(d: Db, e: Db, c: Id, link: Link)
    requires link.source in d.instances && link.source in e.instances && d.instances[link.source] == e.instances[link.source]
    requires link.target in d.instances && link.target in e.instances && d.instances[link.target] == e.instances[link.target]
    ensures TouchesCatalog(e, c, link) <==> TouchesCatalog(d, c, link)
    ensures TouchesCatalog(d, c, link) <==>
              d.instances[link.source].catalogId == c || d.instances[link.target].catalogId == c
  {
  }

  lemma InLinkMap(d: Db, src: Id, k: Copy, l: Id)
    requires LinksInside(d) && IsCopyOf(d, src, k) && l in d.links
    ensures TouchesCatalog(d, src, d.links[l]) <==> l in k.linkMap
  {
    hide CopiesRows, CopiesInstances, MembersOf;
    MembersInCatalog(d, src);
    assert d.links[l].source in d.instances && d.links[l].target in d.instances;
  }

  lemma CopyMembers(d: Db, src: Id, k: Copy)
    requires FreshData(d) && IsCopyOf(d, src, k)
    ensures MembersOf(WithCopy(d, k), k.c) == k.made
  {
    hide CopiesRows, CopiesLinks, MembersOf, CopyOf;
    var e := WithCopy(d, k);
    forall i | i in k.made
      ensures k.made[i].catalogId == k.c
    {
      var x := CopySource(d.instances, k.c, k.idMap, k.made, i);
    }
    MembersInCatalog(e, k.c);
    forall i
      ensures InCatalog(e, k.c, i) <==> i in k.made
    {
    }
    MembersAreRows(e, k.c);
  }

  lemma MembersAreRows(d: Db, c: Id)
    ensures forall i :: i in MembersOf(d, c) ==> MembersOf(d, c)[i] == d.instances[i]
  {
  }

  lemma CopyRows(d: Db, src: Id, k: Copy, i: Id, a: Id)
    requires FreshData(d) && IsCopyOf(d, src, k) && i in k.idMap && i in d.instances
    ensures var e := WithCopy(d, k);
            var old_, new_ := RowKey(i, d.instances[i].version, a), RowKey(k.idMap[i], 1, a);
            && (new_ in e.values <==> old_ in d.values)
            && (old_ in d.values && new_ in e.values ==> e.values[new_] == d.values[old_])
  {
    hide RowsAt, CopiesLinks, MembersOf, CopyOf, CopiesRows, CopiesInstances;
    var new_ := RowKey(k.idMap[i], 1, a);
    assert new_ !in d.values && i in d.instances && CopiesRows(d.instances, d.values, k.idMap, k.rows) by {
      CopyTarget(d.instances, k.c, k.idMap, k.made, i, i);
    }
    CopiedRow(d.instances, d.values, k.idMap, k.rows, i, a);
  }

  lemma CopiedRow(instances: map<Id, Instance>, values: Rows, idMap: IdMap, rows: Rows, i: Id, a: Id)
    requires CopiesRows(instances, values, idMap, rows) && i in idMap && i in instances
    ensures var old_, new_ := RowKey(i, instances[i].version, a), RowKey(idMap[i], 1, a);
            && (new_ in rows <==> old_ in values)
            && (new_ in rows && old_ in values ==> rows[new_] == values[old_])
  {
    var new_ := RowsAt(rows, idMap[i], 1);
    var old_ := RowsAt(values, i, instances[i].version);
    hide RowsAt;
    assert new_ == old_;
    assert a in new_ <==> a in old_;
    assert a in old_ ==> new_[a] == old_[a];
  }

  lemma CopySameRows(d: Db, src: Id, k: Copy, i: Id)
    requires FreshData(d) && IsCopyOf(d, src, k) && i in k.idMap && InCatalog(d, src, i)
    requires MembersOf(WithCopy(d, k), k.c) == k.made && k.idMap[i] in k.made
    requires k.made[k.idMap[i]] == CopyOf(d.instances[i], k.c, k.idMap)
    ensures i in ViewOf(d, src).members && k.idMap[i] in ViewOf(WithCopy(d, k), k.c).members
    ensures SameRows(ViewOf(d, src), ViewOf(WithCopy(d, k), k.c), k.idMap, i)
  {
    hide IsCopyOf, FreshData, WithCopy;
    var e := WithCopy(d, k);
    CopyKeepsSource(d, src, k);
    var v, w := ViewOf(d, src), ViewOf(e, k.c);
    forall a
      ensures KeyOf(v, i, a) in v.rows <==> KeyOf(w, k.idMap[i], a) in w.rows
      ensures KeyOf(v, i, a) in v.rows && KeyOf(w, k.idMap[i], a) in w.rows ==>
                w.rows[KeyOf(w, k.idMap[i], a)] == v.rows[KeyOf(v, i, a)]
    {
      CopyRows(d, src, k, i, a);
    }
  }

  lemma CopyKeepsSource(d: Db, src: Id, k: Copy)
    requires IsCopyOf(d, src, k)
    ensures src in d.catalogs && k.c in WithCopy(d, k).catalogs
  {
  }

  lemma CopyLinksSeen(d: Db, src: Id, k: Copy)
    requires FreshData(d) && LinksInside(d) && IsCopyOf(d, src, k)
    ensures LinksTouching(d, src).Keys == k.linkMap.Keys
    ensures LinksTouching(WithCopy(d, k), k.c) == k.links
  {
    hide IsCopyOf, FreshData, LinksInside, TouchesCatalog;
    var e := WithCopy(d, k);
    forall l | l in d.links
      ensures TouchesCatalog(d, src, d.links[l]) <==> l in k.linkMap
      ensures !TouchesCatalog(e, k.c, d.links[l]) && l !in k.links
    {
      OldLink(d, src, k, l);
    }
    LinkMapIsOld(d, src, k);
    forall l | l in k.links
      ensures TouchesCatalog(e, k.c, k.links[l])
    {
      CopyTouches(d, src, k, l);
    }
  }

  lemma LinkMapIsOld(d: Db, src: Id, k: Copy)
    requires IsCopyOf(d, src, k)
    ensures forall l :: l in k.linkMap ==> l in d.links
  {
    hide CopiesRows, CopiesInstances;
  }

  lemma CopyTouches(d: Db, src: Id, k: Copy, l: Id)
    requires FreshData(d) && IsCopyOf(d, src, k) && l in k.links
    ensures TouchesCatalog(WithCopy(d, k), k.c, k.links[l])
    ensures forall c :: c != k.c ==> !TouchesCatalog(WithCopy(d, k), c, k.links[l])
  {
    hide IsCopyOf, FreshData, WithCopy;
    var x := MadeLink(d, src, k, l);
    MadeRow(d, src, k, k.links[l].source);
    MadeRow(d, src, k, k.links[l].target);
  }

  lemma CopySameLink(d: Db, src: Id, k: Copy, l: Id)
    requires FreshData(d) && LinksInside(d) && IsCopyOf(d, src, k)
    requires LinksTouching(d, src).Keys == k.linkMap.Keys && LinksTouching(WithCopy(d, k), k.c) == k.links
    requires l in LinksTouching(d, src)
    ensures src in d.catalogs && k.c in WithCopy(d, k).catalogs
    ensures SameLink(ViewOf(d, src), ViewOf(WithCopy(d, k), k.c), k.idMap, k.linkMap, l)
  {
    hide CopiesRows, CopiesInstances, MembersOf, CopyOf, PinnedTypes, CurrentRows;
  }

  lemma CopySameInstance(d: Db, src: Id, k: Copy, i: Id)
    requires FreshData(d) && IsCopyOf(d, src, k) && i in k.idMap && ParentsClosed(d, src)
    requires MembersOf(WithCopy(d, k), k.c) == k.made
    ensures src in d.catalogs && k.c in WithCopy(d, k).catalogs
    ensures i in ViewOf(d, src).members && k.idMap[i] in ViewOf(WithCopy(d, k), k.c).members
    ensures SameInstance(ViewOf(d, src), ViewOf(WithCopy(d, k), k.c), k.idMap, i)
  {
    hide CopiesRows, CopiesLinks, FreshData, WithCopy, SameRows, PinnedTypes, CurrentRows, LinksTouching;
    CopyKeepsSource(d, src, k);
    MembersInCatalog(d, src);
    CopyTarget(d.instances, k.c, k.idMap, k.made, i, i);
    CopySameRows(d, src, k, i);
  }

  lemma CopySameSchema(d: Db, src: Id, k: Copy)
    requires IsCopyOf(d, src, k)
    ensures src in d.catalogs && k.c in WithCopy(d, k).catalogs
    ensures SameSchema(ViewOf(d, src), ViewOf(WithCopy(d, k), k.c))
  {
    hide CopiesRows, CopiesLinks, CopiesInstances, MembersOf, CurrentRows, LinksTouching;
    assert PinnedTypes(WithCopy(d, k), k.row.cvId) == PinnedTypes(d, k.row.cvId);
  }

  /** The id maps are isomorphisms. */
  lemma CopyIsIsomorphic(d: Db, src: Id, k: Copy)
    requires DataInv(d) && IsCopyOf(d, src, k) && ParentsClosed(d, src)
    ensures src in d.catalogs && k.c in WithCopy(d, k).catalogs
    ensures Isomorphic(ViewOf(d, src), ViewOf(WithCopy(d, k), k.c), k.idMap, k.linkMap)
  {
    hide FreshData, LinksInside, WithCopy, SameInstance, SameLink, SameSchema, CurrentRows, PinnedTypes, ParentsClosed,
         CopiesRows, MembersOf, LinksTouching, RowsWithin, UniqueScopes, ParentsInside, FreshSchema;
    CopySameSchema(d, src, k);
    CopyMembers(d, src, k);
    CopyLinksSeen(d, src, k);
    forall i | i in k.idMap
      ensures i in ViewOf(d, src).members && k.idMap[i] in ViewOf(WithCopy(d, k), k.c).members
      ensures SameInstance(ViewOf(d, src), ViewOf(WithCopy(d, k), k.c), k.idMap, i)
    {
      CopySameInstance(d, src, k, i);
    }
    forall l | l in k.linkMap
      ensures l in ViewOf(d, src).links && SameLink(ViewOf(d, src), ViewOf(WithCopy(d, k), k.c), k.idMap, k.linkMap, l)
    {
      CopySameLink(d, src, k, l);
    }
  }

  lemma OpenDoesNotConform(d: Db, src: Id, r: Rules)
    requires src in d.catalogs && !ParentsClosed(d, src)
    ensures !Conforms(ViewOf(d, src), r)
  {
    hide ParseCardinality, WithinType;
    var i :| InCatalog(d, src, i) && d.instances[i].parent.Some? && !InCatalog(d, src, d.instances[i].parent.value);
    assert !ParentSound(ViewOf(d, src), i);
    assert !InstanceConforms(ViewOf(d, src), r, i);
  }

  /** A copy of a conforming catalog conforms; a conforming copy was made from a conforming
      catalog whenever the source's parents all existed. */
  lemma CopyConforms(d: Db, src: Id, k: Copy, r: Rules)
    requires DataInv(d) && IsCopyOf(d, src, k)
    ensures src in d.catalogs && k.c in WithCopy(d, k).catalogs
    ensures Conforms(ViewOf(d, src), r) ==> Conforms(ViewOf(WithCopy(d, k), k.c), r)
    ensures ParentsClosed(d, src) ==> (Conforms(ViewOf(WithCopy(d, k), k.c), r) <==> Conforms(ViewOf(d, src), r))
  {
    hide DataInv, IsCopyOf, Conforms, ViewOf, WithCopy, ParentsClosed;
    CopyKeepsSource(d, src, k);
    if ParentsClosed(d, src) {
      CopyIsIsomorphic(d, src, k);
      IsomorphicConform(ViewOf(d, src), ViewOf(WithCopy(d, k), k.c), k.idMap, k.linkMap, r);
    } else {
      OpenDoesNotConform(d, src, r);
    }
  }

  /** Closed sources always copy: no two copies can share a scope. */
  lemma ClosedNeverClashes(d: Db, src: Id)
    requires UniqueScopes(d) && ParentsClosed(d, src)
    ensures !CopyClashes(d, src)
  {
    forall i, j | InCatalog(d, src, i) && InCatalog(d, src, j) && SameCopyScope(d, src, i, j)
      ensures i == j
    {
      assert SameScope(d.instances[i], d.instances[j]);
    }
  }

  // ---- what else a copy keeps ----

  /** Every other catalog sees what it saw. */
  lemma CopyElsewhere(d: Db, src: Id, k: Copy, c: Id)
    requires FreshData(d) && LinksInside(d) && IsCopyOf(d, src, k) && c in d.catalogs
    ensures c in WithCopy(d, k).catalogs && WithCopy(d, k).catalogs[c] == d.catalogs[c]
    ensures ViewOf(WithCopy(d, k), c) == ViewOf(d, c)
  {
    hide PinnedTypes, MembersOf, CurrentRows, LinksTouching, IsCopyOf, LinksInside;
    NewCatalog(d, src, k);
    MembersElsewhere(d, src, k, c);
    RowsElsewhere(d, src, k, c);
    LinksElsewhereStay(d, src, k, c);
    CopySamePins(d, k);
  }

  lemma NewCatalog(d: Db, src: Id, k: Copy)
    requires FreshData(d) && IsCopyOf(d, src, k)
    ensures k.c !in d.catalogs
  {
    hide CopiesRows, CopiesInstances, CopiesLinks;
  }

  lemma MembersElsewhere(d: Db, src: Id, k: Copy, c: Id)
    requires FreshData(d) && IsCopyOf(d, src, k) && c != k.c
    ensures MembersOf(WithCopy(d, k), c) == MembersOf(d, c)
  {
    hide IsCopyOf, FreshData;
    forall x | x in k.made
      ensures x !in d.instances && k.made[x].catalogId != c
    {
      MadeRow(d, src, k, x);
    }
  }

  lemma CopySamePins(d: Db, k: Copy)
    ensures forall cv :: PinnedTypes(WithCopy(d, k), cv) == PinnedTypes(d, cv)
  {
  }

  lemma RowsElsewhere(d: Db, src: Id, k: Copy, c: Id)
    requires FreshData(d) && IsCopyOf(d, src, k) && c != k.c
    ensures CurrentRows(WithCopy(d, k), c) == CurrentRows(d, c)
  {
    hide IsCopyOf, FreshData;
    forall i | i in k.made
      ensures i !in d.instances && k.made[i].catalogId == k.c
    {
      MadeRow(d, src, k, i);
    }
    forall key | key in k.rows
      ensures key.inst in k.made
    {
      RowIsMade(d, src, k, key);
    }
    forall key | key in d.values
      ensures key !in k.rows || key.inst !in d.instances
    {
    }
  }

  lemma RowIsMade(d: Db, src: Id, k: Copy, key: RowKey)
    requires IsCopyOf(d, src, k) && key in k.rows
    ensures key.inst in k.made
  {
    hide CopiesLinks, CopyOf, RowsAt;
  }

  lemma LinksElsewhereStay(d: Db, src: Id, k: Copy, c: Id)
    requires FreshData(d) && LinksInside(d) && IsCopyOf(d, src, k) && c != k.c
    ensures LinksTouching(WithCopy(d, k), c) == LinksTouching(d, c)
  {
    hide IsCopyOf, FreshData, LinksInside, TouchesCatalog;
    var e := WithCopy(d, k);
    forall l | l in d.links
      ensures TouchesCatalog(e, c, d.links[l]) <==> TouchesCatalog(d, c, d.links[l])
      ensures l !in k.links
    {
      OldLink(d, src, k, l);
    }
    forall l | l in k.links
      ensures !TouchesCatalog(e, c, k.links[l])
    {
      CopyTouches(d, src, k, l);
    }
  }

  // ---- the invariants ----

  lemma CopyFresh(d: Db, src: Id, k: Copy)
    requires FreshIds(d) && IsCopyOf(d, src, k)
    ensures FreshIds(WithCopy(d, k))
  {
    hide CopiesRows, CopiesInstances, CopiesLinks, MembersOf;
    forall x | x in k.made
      ensures x < k.next && k.made[x].catalogId == k.c
    {
      MadeRow(d, src, k, x);
    }
    forall key | key in k.rows
      ensures key.inst < k.next
    {
      MadeKey(d, src, k, key);
    }
  }

  lemma MadeKey(d: Db, src: Id, k: Copy, key: RowKey)
    requires IsCopyOf(d, src, k) && key in k.rows
    ensures key.inst in k.made && key.ver == 1
  {
    hide CopiesLinks, RowsAt, MembersOf, CopyOf;
  }

  lemma CopyRowsWithin(d: Db, src: Id, k: Copy)
    requires FreshData(d) && RowsWithin(d) && IsCopyOf(d, src, k)
    ensures RowsWithin(WithCopy(d, k))
  {
    hide IsCopyOf, FreshData;
    var e := WithCopy(d, k);
    OldKeys(d);
    forall key | key in e.values && key.inst in e.instances
      ensures key.ver <= e.instances[key.inst].version
    {
      if key in k.rows {
        MadeKey(d, src, k, key);
        var i := MadeFrom(d, src, k, key.inst);
      } else if key.inst in k.made {
        var i := MadeFrom(d, src, k, key.inst);
      }
    }
  }

  lemma OldKeys(d: Db)
    requires FreshData(d)
    ensures forall key :: key in d.values ==> key.inst < d.nextId
  {
  }

  lemma MadeFrom(d: Db, src: Id, k: Copy, x: Id) returns (i: Id)
    requires FreshData(d) && IsCopyOf(d, src, k) && x in k.made
    ensures d.nextId < x && InCatalog(d, src, i) && i in k.idMap && k.idMap[i] == x
    ensures k.made[x] == CopyOf(d.instances[i], k.c, k.idMap)
  {
    hide CopiesRows, CopiesLinks, CopyOf;
    i := CopySource(d.instances, k.c, k.idMap, k.made, x);
  }

  lemma CopyLinksInside(d: Db, src: Id, k: Copy)
    requires FreshData(d) && LinksInside(d) && IsCopyOf(d, src, k)
    ensures LinksInside(WithCopy(d, k))
  {
    hide IsCopyOf, FreshData;
    var e := WithCopy(d, k);
    forall x | x in k.made
      ensures x !in d.instances && k.made[x].catalogId == k.c
    {
      MadeRow(d, src, k, x);
    }
    forall l | l in k.links
      ensures k.links[l].source in k.made && k.links[l].target in k.made
    {
      var x := MadeLink(d, src, k, l);
    }
  }

  lemma CopyParentsInside(d: Db, src: Id, k: Copy)
    requires FreshData(d) && ParentsInside(d) && IsCopyOf(d, src, k)
    ensures ParentsInside(WithCopy(d, k))
  {
    hide IsCopyOf, FreshData;
    var e := WithCopy(d, k);
    CopyNext(d, src, k);
    forall x | x in e.instances
      ensures ParentInside(e, x)
    {
      if x in k.made {
        var i := MadeFrom(d, src, k, x);
        var p := d.instances[i].parent;
        if p.Some? && p.value in k.idMap {
          MadeTarget(d, src, k, p.value);
        }
      } else {
        assert ParentInside(d, x);
        if d.instances[x].parent.Some? && d.instances[x].parent.value in k.made {
          var i := MadeFrom(d, src, k, d.instances[x].parent.value);
        }
      }
    }
  }

  lemma CopyNext(d: Db, src: Id, k: Copy)
    requires IsCopyOf(d, src, k)
    ensures d.nextId < k.next && k.c == d.nextId
  {
    hide CopiesRows, CopiesInstances, CopiesLinks;
  }

  lemma MadeTarget(d: Db, src: Id, k: Copy, i: Id)
    requires FreshData(d) && IsCopyOf(d, src, k) && i in k.idMap
    ensures k.idMap[i] in k.made && k.idMap[i] < k.next && k.made[k.idMap[i]].catalogId == k.c
  {
    hide CopiesRows, CopiesLinks, MembersOf;
    CopyTarget(d.instances, k.c, k.idMap, k.made, i, i);
  }

  lemma CopyScopes(d: Db, src: Id, k: Copy)
    requires FreshData(d) && UniqueScopes(d) && IsCopyOf(d, src, k) && !CopyClashes(d, src)
    ensures UniqueScopes(WithCopy(d, k))
  {
    hide CopiesRows, CopiesLinks, SameScope, CopyClashes, ScopesClash;
    var e := WithCopy(d, k);
    PlanApart(d, k.c, k.idMap, k.made);
    ClashMeans(d, src, k.c, k.idMap, k.made);
    hide IsCopyOf, FreshData;
    forall x, y | x in e.instances && y in e.instances && SameScope(e.instances[x], e.instances[y])
      ensures x == y
    {
      if x in k.made {
        NoClash(d.instances, k.made, x, y);
      } else if y in k.made {
        ScopeIsSymmetric(e.instances[x], e.instances[y]);
        NoClash(d.instances, k.made, y, x);
      }
    }
  }

  lemma NoClash(instances: map<Id, Instance>, made: map<Id, Instance>, x: Id, y: Id)
    requires !ScopesClash(instances, made) && x in made && y in instances + made
    ensures SameScope(made[x], (instances + made)[y]) ==> x == y
  {
    hide SameScope;
  }

  /** A stored copy keeps every invariant of the data. */
  lemma CopyKeeps(d: Db, src: Id, k: Copy, rules: Rules)
    requires DataInv(d) && IsCopyOf(d, src, k) && !CopyClashes(d, src)
    ensures DataInv(WithCopy(d, k))
    ensures NeverStale(d, rules) ==> NeverStale(WithCopy(d, k), rules)
  {
    hide FreshIds, RowsWithin, LinksInside, ParentsInside, UniqueScopes, IsCopyOf, WithCopy, CopyClashes, ViewOf, Conforms;
    IdsAreData(d);
    CopyFresh(d, src, k);
    CopyRowsWithin(d, src, k);
    CopyLinksInside(d, src, k);
    CopyParentsInside(d, src, k);
    CopyScopes(d, src, k);
    if NeverStale(d, rules) {
      var e := WithCopy(d, k);
      forall c | c in e.catalogs && e.catalogs[c].status.Valid?
        ensures c in d.catalogs && d.catalogs[c].status.Valid? && ViewOf(d, c) == ViewOf(e, c)
      {
        CopyIsDraft(d, src, k, c);
        CopyElsewhere(d, src, k, c);
      }
      UnchangedStaysFresh(d, e, rules);
    }
  }

  lemma IdsAreData(d: Db)
    requires FreshIds(d)
    ensures FreshData(d)
  {
  }

  lemma CopyIsDraft(d: Db, src: Id, k: Copy, c: Id)
    requires IsCopyOf(d, src, k) && c in WithCopy(d, k).catalogs && WithCopy(d, k).catalogs[c].status.Valid?
    ensures c in d.catalogs && WithCopy(d, k).catalogs[c] == d.catalogs[c]
  {
    hide CopiesRows, CopiesInstances, CopiesLinks;
  }
}
