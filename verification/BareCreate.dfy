/** What a bare row, one without values or links, does to a conforming catalog: the condition is
    on the catalog before the row is written. */
module BareCreate {
  import opened Domain
  import opened Database
  import opened Cardinality
  import opened Conformance
  import opened Revisions
  import opened DataSteps

  predicate VersionOfType(v: CatalogView, version: Id, t: Id) {
    version in v.pinned && v.pinned[version] == t
  }

  predicate AttributeFor(v: CatalogView, a: Id, t: Id) {
    a in v.attributes && VersionOfType(v, v.attributes[a].versionId, t)
  }

  predicate AssociationFrom(v: CatalogView, s: Id, t: Id) {
    s in v.associations && VersionOfType(v, v.associations[s].versionId, t)
  }

  /** The association checks how many links lead to an instance of the type. */
  predicate AsksSources(v: CatalogView, s: Id, t: Id) {
    && s in v.associations && !v.associations[s].kind.Containment? && v.associations[s].target == t
    && SourceChecked(SourceRange(v, s))
  }

  predicate Contains(v: CatalogView, s: Id, parentType: Id, t: Id) {
    AssociationFrom(v, s, parentType) && v.associations[s].kind.Containment? && v.associations[s].target == t
  }

  /** The parent is a member, its type contains the row's, and there is room for one more child. */
  ghost predicate RoomUnder(v: CatalogView, p: Id, t: Id) {
    && p in v.members && (exists s :: Contains(v, s, v.members[p].typeId, t))
    && forall s :: Contains(v, s, v.members[p].typeId, t) ==> InRange(|ChildrenOf(v, p, t)| + 1, TargetRange(v, s))
  }

  /** What a row with no values and no links needs: a name, a pinned type that asks for nothing,
      no association that insists on a link or a child, and a place. */
  ghost predicate BareFits(v: CatalogView, r: Rules, row: Instance) {
    && IsDnsLabel(row.name) && IsPinned(v, row.typeId)
    && (forall a :: AttributeFor(v, a, row.typeId) ==> SchemaSound(v, r, a) && !v.attributes[a].required)
    && (forall s :: AssociationFrom(v, s, row.typeId) ==> InRange(0, TargetRange(v, s)))
    && (forall s :: AsksSources(v, s, row.typeId) ==> InRange(0, SourceRange(v, s)))
    && match row.parent
       case None => !MustBeContained(v, row.typeId)
       case Some(p) => RoomUnder(v, p, row.typeId)
  }

  /** One more member, fresh: nothing points at it and no row is its own. */
  ghost predicate OneMore(v: CatalogView, w: CatalogView, i: Id, row: Instance) {
    && i !in v.members && w == v.(members := v.members[i := row]) && row.parent != Some(i)
    && (forall j :: j in v.members ==> v.members[j].parent != Some(i))
    && (forall l :: l in v.links ==> v.links[l].source != i && v.links[l].target != i)
    && forall k :: k in v.rows ==> k.inst != i
  }

  lemma ChildrenGrow(v: CatalogView, w: CatalogView, i: Id, row: Instance, j: Id, t: Id)
    requires OneMore(v, w, i, row)
    ensures |ChildrenOf(w, j, t)| == |ChildrenOf(v, j, t)| + if row.parent == Some(j) && row.typeId == t then 1 else 0
    ensures j == i ==> ChildrenOf(w, j, t) == {}
  {
    var before, after := ChildrenOf(v, j, t), ChildrenOf(w, j, t);
    assert after == if row.parent == Some(j) && row.typeId == t then before + {i} else before;
    assert j == i ==> after == {};
  }

  lemma NoLinksYet(v: CatalogView, w: CatalogView, i: Id, row: Instance, s: Id)
    requires OneMore(v, w, i, row)
    ensures ForwardLinks(w, i, s) == {} && ReverseLinks(w, i, s) == {}
  {
  }

  /** The new member conforms exactly when it fits, but for the count it adds to its parent's. */
  lemma NewMemberConforms(v: CatalogView, w: CatalogView, r: Rules, i: Id, row: Instance)
    requires OneMore(v, w, i, row)
    ensures InstanceConforms(w, r, i) <==>
              && IsDnsLabel(row.name) && IsPinned(v, row.typeId)
              && (forall a :: AttributeFor(v, a, row.typeId) ==> SchemaSound(v, r, a) && !v.attributes[a].required)
              && (forall s :: AssociationFrom(v, s, row.typeId) ==> InRange(0, TargetRange(v, s)))
              && (forall s :: AsksSources(v, s, row.typeId) ==> InRange(0, SourceRange(v, s)))
              && (row.parent.None? ==> !MustBeContained(v, row.typeId))
              && (row.parent.Some? ==> row.parent.value in v.members
                                       && exists s :: Contains(v, s, v.members[row.parent.value].typeId, row.typeId))
  {
    hide IsDnsLabel, WithinType, ParseCardinality, InRange, SourceChecked;
    NewMemberValues(v, w, r, i, row);
    NewMemberLinks(v, w, i, row);
    NewMemberSources(v, w, i, row);
    assert forall s :: AsksSources(w, s, row.typeId) <==>
             (s in w.associations && !w.associations[s].kind.Containment? && w.associations[s].target == w.members[i].typeId
              && SourceChecked(SourceRange(w, s)));
    NewMemberParent(v, w, i, row);
    assert IsPinned(w, row.typeId) <==> IsPinned(v, row.typeId);
    hide IsPinned, ParentSound, SchemaSound, ValueSound, MustBeContained, Contains;
  }

  lemma NewMemberValues(v: CatalogView, w: CatalogView, r: Rules, i: Id, row: Instance)
    requires OneMore(v, w, i, row)
    ensures (forall a :: AttributeOf(w, a, i) ==> SchemaSound(w, r, a) && ValueSound(w, r, i, a)) <==>
              forall a :: AttributeFor(v, a, row.typeId) ==> SchemaSound(v, r, a) && !v.attributes[a].required
  {
    hide WithinType;
    forall a
      ensures AttributeOf(w, a, i) <==> AttributeFor(v, a, row.typeId)
      ensures AttributeOf(w, a, i) ==> (ValueSound(w, r, i, a) <==> !v.attributes[a].required)
      ensures AttributeOf(w, a, i) ==> (SchemaSound(w, r, a) <==> SchemaSound(v, r, a))
    {
    }
  }

  lemma NewMemberLinks(v: CatalogView, w: CatalogView, i: Id, row: Instance)
    requires OneMore(v, w, i, row)
    ensures (forall s :: AssociationOf(w, s, i) ==>
               if w.associations[s].kind.Containment?
               then InRange(|ChildrenOf(w, i, w.associations[s].target)|, TargetRange(w, s))
               else InRange(|ForwardLinks(w, i, s)|, TargetRange(w, s))) <==>
              forall s :: AssociationFrom(v, s, row.typeId) ==> InRange(0, TargetRange(v, s))
  {
    hide ParseCardinality, InRange, ChildrenOf, ForwardLinks, ReverseLinks;
    forall s
      ensures AssociationOf(w, s, i) <==> AssociationFrom(v, s, row.typeId)
      ensures AssociationOf(w, s, i) ==> |ChildrenOf(w, i, w.associations[s].target)| == 0 && |ForwardLinks(w, i, s)| == 0
      ensures s in v.associations ==> TargetRange(w, s) == TargetRange(v, s)
    {
      NoLinksYet(v, w, i, row, s);
      if s in w.associations {
        ChildrenGrow(v, w, i, row, i, w.associations[s].target);
      }
    }
  }

  lemma NewMemberSources(v: CatalogView, w: CatalogView, i: Id, row: Instance)
    requires OneMore(v, w, i, row)
    ensures (forall s :: AsksSources(w, s, w.members[i].typeId) ==> InRange(|ReverseLinks(w, i, s)|, SourceRange(w, s))) <==>
              forall s :: AsksSources(v, s, row.typeId) ==> InRange(0, SourceRange(v, s))
  {
    hide ParseCardinality, InRange, ReverseLinks, ForwardLinks, SourceChecked;
    forall s
      ensures |ReverseLinks(w, i, s)| == 0 && (AsksSources(w, s, row.typeId) <==> AsksSources(v, s, row.typeId))
      ensures s in v.associations ==> SourceRange(w, s) == SourceRange(v, s)
    {
      NoLinksYet(v, w, i, row, s);
    }
  }

  lemma NewMemberParent(v: CatalogView, w: CatalogView, i: Id, row: Instance)
    requires OneMore(v, w, i, row)
    ensures ParentSound(w, i) <==>
              && (row.parent.None? ==> !MustBeContained(v, row.typeId))
              && (row.parent.Some? ==> row.parent.value in v.members
                                       && exists s :: Contains(v, s, v.members[row.parent.value].typeId, row.typeId))
  {
    hide ParseCardinality;
    assert MustBeContained(w, row.typeId) <==> MustBeContained(v, row.typeId);
    if row.parent.Some? && row.parent.value in v.members {
      var p := row.parent.value;
      forall s
        ensures AssociationOf(w, s, p) && w.associations[s].kind.Containment? && w.associations[s].target == row.typeId
           <==> Contains(v, s, v.members[p].typeId, row.typeId)
      {
      }
    }
  }

  /** An old member still conforms, unless it is the new one's parent and that is one child too many. */
  lemma OldMemberConforms(v: CatalogView, w: CatalogView, r: Rules, i: Id, row: Instance, j: Id)
    requires OneMore(v, w, i, row) && j in v.members && InstanceConforms(v, r, j)
    ensures InstanceConforms(w, r, j) <==>
              (row.parent == Some(j) ==>
                 forall s :: Contains(v, s, v.members[j].typeId, row.typeId) ==>
                   InRange(|ChildrenOf(v, j, row.typeId)| + 1, TargetRange(v, s)))
  {
    hide IsDnsLabel, WithinType, ParseCardinality, InRange, SourceChecked, ChildrenOf;
    OldMemberSame(v, w, r, i, row, j);
    forall s
      ensures AssociationOf(w, s, j) <==> AssociationOf(v, s, j)
      ensures AssociationOf(w, s, j) ==>
                |ChildrenOf(w, j, w.associations[s].target)| == |ChildrenOf(v, j, v.associations[s].target)|
                  + if row.parent == Some(j) && row.typeId == v.associations[s].target then 1 else 0
      ensures s in v.associations ==> TargetRange(w, s) == TargetRange(v, s)
    {
      if s in v.associations {
        ChildrenGrow(v, w, i, row, j, v.associations[s].target);
      }
    }
    hide IsPinned, ParentSound, SchemaSound, ValueSound, ForwardLinks, ReverseLinks;
  }

  lemma OldMemberSame(v: CatalogView, w: CatalogView, r: Rules, i: Id, row: Instance, j: Id)
    requires OneMore(v, w, i, row) && j in v.members
    ensures j in w.members && w.members[j] == v.members[j]
    ensures IsPinned(w, v.members[j].typeId) <==> IsPinned(v, v.members[j].typeId)
    ensures ParentSound(v, j) ==> ParentSound(w, j)
    ensures forall a :: AttributeOf(w, a, j) <==> AttributeOf(v, a, j)
    ensures forall a :: AttributeOf(v, a, j) ==> (SchemaSound(w, r, a) <==> SchemaSound(v, r, a))
    ensures forall a :: AttributeOf(v, a, j) ==> (ValueSound(w, r, j, a) <==> ValueSound(v, r, j, a))
    ensures forall s :: ForwardLinks(w, j, s) == ForwardLinks(v, j, s) && ReverseLinks(w, j, s) == ReverseLinks(v, j, s)
  {
    hide WithinType, ParseCardinality;
    assert MustBeContained(w, v.members[j].typeId) <==> MustBeContained(v, v.members[j].typeId);
    if ParentSound(v, j) && v.members[j].parent.Some? {
      var p := v.members[j].parent.value;
      var s :| AssociationOf(v, s, p) && v.associations[s].kind.Containment? && v.associations[s].target == v.members[j].typeId;
      assert AssociationOf(w, s, p);
    }
  }

  /** A conforming catalog still conforms with a bare row more exactly when the row fits. */
  lemma ConformsWithOneMore(v: CatalogView, w: CatalogView, r: Rules, i: Id, row: Instance)
    requires OneMore(v, w, i, row) && Conforms(v, r)
    ensures Conforms(w, r) <==> BareFits(v, r, row)
  {
    hide InstanceConforms, IsDnsLabel, SchemaSound, InRange, SourceChecked, MustBeContained, IsPinned, ChildrenOf, TargetRange, SourceRange;
    NewMemberConforms(v, w, r, i, row);
    forall j | j in v.members
      ensures InstanceConforms(w, r, j) <==>
                (row.parent == Some(j) ==>
                   forall s :: Contains(v, s, v.members[j].typeId, row.typeId) ==>
                     InRange(|ChildrenOf(v, j, row.typeId)| + 1, TargetRange(v, s)))
    {
      OldMemberConforms(v, w, r, i, row, j);
    }
    assert forall j :: j in w.members <==> j in v.members || j == i;
  }

  /** A bare insertion is one more fresh member of its catalog. */
  lemma BareInsertIsOneMore(d: Db, row: Instance)
    requires DataInv(d) && row.catalogId in d.catalogs && StepAllowed(d, row.catalogId, Insert(row, map[]))
    ensures var e := ApplyStep(d, Insert(row, map[]));
            row.catalogId in e.catalogs && OneMore(ViewOf(d, row.catalogId), ViewOf(e, row.catalogId), d.nextId, row)
  {
    hide FreshSchema, RowsWithin, UniqueScopes, SameScope, FreshData, LinksInside, ParentsInside, ApplyStep, MembersOf, CurrentRows,
         LinksTouching, PinnedTypes, SchemaSame, StepAllowed;
    var c, i := row.catalogId, d.nextId;
    var e := ApplyStep(d, Insert(row, map[]));
    BareTables(d, e, row);
    BareMembers(d, e, c, row);
    BareRows(d, e, c, row);
    BareLinks(d, e, c, row);
    BareSchema(d, e, c);
  }

  lemma BareTables(d: Db, e: Db, row: Instance)
    requires e == ApplyStep(d, Insert(row, map[]))
    ensures e.values == d.values && e.links == d.links && e.instances == d.instances[d.nextId := row]
    ensures e.catalogs == d.catalogs && SchemaSame(d, e)
  {
    hide WithRows;
    NoRowsAdded(d.values, d.nextId, row.version);
  }

  lemma NoRowsAdded(values: Rows, i: Id, ver: nat)
    ensures WithRows(values, i, ver, map[]) == values
  {
  }

  lemma BareMembers(d: Db, e: Db, c: Id, row: Instance)
    requires FreshData(d) && ParentsInside(d) && StepAllowed(d, c, Insert(row, map[])) && e.instances == d.instances[d.nextId := row]
    ensures MembersOf(e, c) == MembersOf(d, c)[d.nextId := row] && d.nextId !in MembersOf(d, c) && row.parent != Some(d.nextId)
    ensures forall j :: j in MembersOf(d, c) ==> MembersOf(d, c)[j].parent != Some(d.nextId)
  {
    hide SameScope;
    forall j | j in MembersOf(d, c)
      ensures d.instances[j].parent != Some(d.nextId)
    {
      assert ParentInside(d, j);
    }
  }

  lemma BareRows(d: Db, e: Db, c: Id, row: Instance)
    requires FreshData(d) && e.values == d.values && e.instances == d.instances[d.nextId := row]
    ensures CurrentRows(e, c) == CurrentRows(d, c)
    ensures forall k :: k in CurrentRows(d, c) ==> k.inst != d.nextId
  {
  }

  lemma BareLinks(d: Db, e: Db, c: Id, row: Instance)
    requires FreshData(d) && LinksInside(d) && e.links == d.links && e.instances == d.instances[d.nextId := row]
    ensures LinksTouching(e, c) == LinksTouching(d, c)
    ensures forall l :: l in LinksTouching(d, c) ==>
              LinksTouching(d, c)[l].source != d.nextId && LinksTouching(d, c)[l].target != d.nextId
  {
  }

  lemma BareSchema(d: Db, e: Db, c: Id)
    requires c in d.catalogs && e.catalogs == d.catalogs && SchemaSame(d, e)
    ensures ViewOf(e, c).pinned == ViewOf(d, c).pinned && ViewOf(e, c).attributes == ViewOf(d, c).attributes
    ensures ViewOf(e, c).associations == ViewOf(d, c).associations && ViewOf(e, c).typeDefs == ViewOf(d, c).typeDefs
  {
    hide MembersOf, CurrentRows, LinksTouching;
  }
}
