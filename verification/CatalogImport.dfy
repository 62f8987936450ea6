/** Importing a forest of exported instances into a new catalog: rows with fresh ids from the
    top down. */
module CatalogImport {
  import opened Domain
  import opened Database
  import opened Conformance
  import opened DataSteps
  import opened Revisions
  import opened Instances
  import opened ExportJson
  import opened ExportTree
  import opened CatalogExport
  import opened ImportNodes
  import opened ImportRows

  // ---- trees and forests ----

  /** The tree can be imported next to what is there: no key of it is taken. */
  ghost predicate TreeFits(s: Scene, g: Target, codec: TextCodec, names: map<string, Id>, t: ExportInstance) {
    Ready(s, names) && Importable(s, g, codec, t) && DistinctKeys(t) && forall key :: KeyIn(t, key) ==> key !in names
  }

  ghost predicate Fits(s: Scene, g: Target, codec: TextCodec, names: map<string, Id>, trees: seq<ExportInstance>) {
    && Ready(s, names) && ForestApart(trees)
    && (forall x :: 0 <= x < |trees| ==> Importable(s, g, codec, trees[x]) && DistinctKeys(trees[x]))
    && forall key :: KeyInForest(trees, key) ==> key !in names
  }

  /** The tree has been added to the scene, and its keys to the names. */
  ghost predicate TreePlanted(s: Scene, w: Scene, codec: TextCodec, m: map<string, Id>, n: map<string, Id>, t: ExportInstance,
                              parent: Option<Id>) {
    && Grown(s, w) && Ready(w, n) && MoreNames(m, n) && (forall key :: key in n <==> key in m || KeyIn(t, key))
    && DepictsNodes(w, codec, n, t, parent)
  }

  ghost predicate Planted(s: Scene, w: Scene, codec: TextCodec, m: map<string, Id>, n: map<string, Id>,
                          trees: seq<ExportInstance>, parent: Option<Id>) {
    && Grown(s, w) && Ready(w, n) && MoreNames(m, n) && (forall key :: key in n <==> key in m || KeyInForest(trees, key))
    && forall x :: 0 <= x < |trees| ==> DepictsNodes(w, codec, n, trees[x], parent)
  }

  ghost predicate GroupsFit(s: Scene, g: Target, codec: TextCodec, names: map<string, Id>, children: map<string, Group>,
                            todo: set<string>) {
    && Ready(s, names) && ChildrenApart(children)
    && (forall k, x {:trigger TreeAt(children, k, x)} :: TreeAt(children, k, x) ==>
          Importable(s, g, codec, children[k].trees[x]) && DistinctKeys(children[k].trees[x]))
    && forall k, x, key {:trigger KeyAt(children, k, x, key)} :: k in todo && KeyAt(children, k, x, key) ==> key !in names
  }

  ghost predicate GroupsPlanted(s: Scene, w: Scene, codec: TextCodec, m: map<string, Id>, n: map<string, Id>,
                                children: map<string, Group>, done: set<string>, i: Id) {
    && Grown(s, w) && Ready(w, n) && MoreNames(m, n)
    && (forall key :: key in n <==> key in m || exists k, x :: k in done && KeyAt(children, k, x, key))
    && forall k, x {:trigger TreeAt(children, k, x)} :: k in done && TreeAt(children, k, x) ==>
         DepictsNodes(w, codec, n, children[k].trees[x], Some(i))
  }

  /** What every step of the import needs of the store. */
  ghost predicate Importing(d: Db, c: Id, g: Target) {
    TargetSound(g) && FreshData(d) && UniqueAttributeNames(d.attributes) && c < d.nextId && ParentsBelow(d, c)
  }

  lemma ScopeIsFree(d: Db, c: Id, g: Target, names: map<string, Id>, t: ExportInstance, parent: Option<Id>)
    requires TargetSound(g) && Ready(ImportScene(d, c, g), names) && t.entityType in g.typeIds && NodeKey(t) !in names
    ensures Creatable(d, g, c, t, parent)
  {
    hide TypeNames, VersionsOf;
    var s := ImportScene(d, c, g);
    var row := Instance(g.typeIds[t.entityType], c, parent, t.name, t.description, 1);
    TypeIsNamed(g, t.entityType);
    forall j | j in s.members
      ensures s.members[j].typeId != row.typeId || s.members[j].name != row.name
    {
      assert InstanceKey(s, j) in names;
    }
    forall j | j in d.instances
      ensures !SameScope(d.instances[j], row)
    {
      if d.instances[j].catalogId == c {
        assert j in s.members && s.members[j] == d.instances[j];
      }
    }
  }

  lemma NodeReady(s: Scene, w: Scene, names: map<string, Id>, i: Id, key: string)
    requires Ready(s, names) && key !in names && i !in s.members && i in w.members
    requires w.typeName == s.typeName && w.members == s.members[i := w.members[i]]
    requires w.members[i].typeId in w.typeName && InstanceKey(w, i) == key
    ensures Ready(w, names[key := i])
  {
    hide KeyText;
    forall j | j in s.members
      ensures w.members[j] == s.members[j] && InstanceKey(w, j) == InstanceKey(s, j)
    {
    }
  }

  lemma NodePlanted(d: Db, e: Db, codec: TextCodec, g: Target, c: Id, t: ExportInstance, parent: Option<Id>,
                    rows: map<Id, Value>, names: map<string, Id>)
    requires Importing(d, c, g) && NodeCreated(d, e, codec, g, c, t, parent, rows)
    requires TreeFits(ImportScene(d, c, g), g, codec, names, t)
    ensures ShowsNode(ImportScene(e, c, g), codec, d.nextId, t, parent)
    ensures MoreNames(names, names[NodeKey(t) := d.nextId])
    ensures Ready(ImportScene(e, c, g), names[NodeKey(t) := d.nextId])
  {
    hide RowsRead, FreshData, UniqueAttributeNames, WithRows, Importable, DistinctKeys, Ready, Added, MembersOf, TypeNames,
         VersionsOf, KeyText, SchemaSame, ShowsAttributes;
    var row := Instance(g.typeIds[t.entityType], c, parent, t.name, t.description, 1);
    CreatedShows(d, e, c, g, codec, t, parent, row, rows);
    CreatedAdds(d, e, c, row, rows);
    assert KeyIn(t, NodeKey(t));
    NodeReady(ImportScene(d, c, g), ImportScene(e, c, g), names, d.nextId, NodeKey(t));
  }

  lemma ChildrenFit(s: Scene, w: Scene, g: Target, codec: TextCodec, names: map<string, Id>, t: ExportInstance, i: Id)
    requires TreeFits(s, g, codec, names, t) && Ready(w, names[NodeKey(t) := i])
    requires w.attributes == s.attributes && w.typeDefs == s.typeDefs
    ensures GroupsFit(w, g, codec, names[NodeKey(t) := i], t.children, t.children.Keys)
  {
    hide Ready, ValueFits, ChildrenApart;
    var m := names[NodeKey(t) := i];
    forall k, x | TreeAt(t.children, k, x)
      ensures Importable(w, g, codec, t.children[k].trees[x]) && DistinctKeys(t.children[k].trees[x])
    {
      ImportableStill(s, w, g, codec, t.children[k].trees[x]);
    }
    forall k, x, key | KeyAt(t.children, k, x, key)
      ensures key !in m
    {
      assert KeyIn(t, key);
    }
  }

  lemma NoGroupPlanted(s: Scene, codec: TextCodec, m: map<string, Id>, children: map<string, Group>, i: Id)
    requires Ready(s, m)
    ensures GroupsPlanted(s, s, codec, m, m, children, {}, i)
  {
    hide Ready;
  }

  lemma GroupFits(s: Scene, w: Scene, g: Target, codec: TextCodec, m: map<string, Id>, n: map<string, Id>,
                  children: map<string, Group>, done: set<string>, i: Id, k: string)
    requires GroupsFit(s, g, codec, m, children, children.Keys) && GroupsPlanted(s, w, codec, m, n, children, done, i)
    requires k in children && k !in done
    ensures Fits(w, g, codec, n, children[k].trees)
  {
    hide Ready, Importable, DistinctKeys, KeyIn, DepictsNodes;
    var trees := children[k].trees;
    forall x | 0 <= x < |trees|
      ensures Importable(w, g, codec, trees[x]) && DistinctKeys(trees[x])
    {
      assert TreeAt(children, k, x);
      ImportableStill(s, w, g, codec, trees[x]);
    }
    forall x, key | 0 <= x < |trees| && KeyIn(trees[x], key)
      ensures KeyAt(children, k, x, key)
    {
    }
    forall key | KeyInForest(trees, key)
      ensures key !in n
    {
      var x :| 0 <= x < |trees| && KeyIn(trees[x], key);
      assert KeyAt(children, k, x, key);
    }
  }

  lemma GroupAdded(s: Scene, v: Scene, w: Scene, codec: TextCodec, m: map<string, Id>, n: map<string, Id>, o: map<string, Id>,
                   children: map<string, Group>, done: set<string>, i: Id, k: string)
    requires GroupsPlanted(s, v, codec, m, n, children, done, i) && k in children
    requires Planted(v, w, codec, n, o, children[k].trees, Some(i))
    ensures GroupsPlanted(s, w, codec, m, o, children, done + {k}, i)
  {
    hide Ready, DepictsNodes, KeyIn, Grown;
    GrownTransitive(s, v, w);
    forall key
      ensures KeyInForest(children[k].trees, key) <==> exists x :: KeyAt(children, k, x, key)
    {
      if KeyInForest(children[k].trees, key) {
        var x :| 0 <= x < |children[k].trees| && KeyIn(children[k].trees[x], key);
        assert KeyAt(children, k, x, key);
      }
    }
    forall l, x | l in done + {k} && TreeAt(children, l, x)
      ensures DepictsNodes(w, codec, o, children[l].trees[x], Some(i))
    {
      if l != k {
        DepictedStill(v, w, codec, n, o, children[l].trees[x], Some(i));
      }
    }
  }

  lemma TreeComplete(s: Scene, v: Scene, w: Scene, codec: TextCodec, m: map<string, Id>, n: map<string, Id>, t: ExportInstance,
                     parent: Option<Id>, i: Id)
    requires Grown(s, v) && ShowsNode(v, codec, i, t, parent) && MoreNames(m, m[NodeKey(t) := i])
    requires GroupsPlanted(v, w, codec, m[NodeKey(t) := i], n, t.children, t.children.Keys, i)
    ensures TreePlanted(s, w, codec, m, n, t, parent)
  {
    hide Ready, ShowsNode, Grown, DepictsNodes, NodeKey, KeyIn;
    GrownTransitive(s, v, w);
    forall key
      ensures KeyIn(t, key) <==> key == NodeKey(t) || exists k, x :: k in t.children.Keys && KeyAt(t.children, k, x, key)
    {
      KeyInUnfolds(t, key);
    }
    TreeDepicted(v, w, codec, m[NodeKey(t) := i], n, t, parent, i);
  }

  lemma TreeDepicted(v: Scene, w: Scene, codec: TextCodec, m: map<string, Id>, n: map<string, Id>, t: ExportInstance,
                     parent: Option<Id>, i: Id)
    requires ShowsNode(v, codec, i, t, parent) && NodeKey(t) in m && m[NodeKey(t)] == i
    requires GroupsPlanted(v, w, codec, m, n, t.children, t.children.Keys, i)
    ensures DepictsNodes(w, codec, n, t, parent)
  {
    hide Ready, ShowsNode, Grown, NodeKey, KeyIn, KeyAt;
    NodeShownStill(v, w, codec, i, t, parent);
    forall k, x | k in t.children && 0 <= x < |t.children[k].trees|
      ensures DepictsNodes(w, codec, n, t.children[k].trees[x], Some(i))
    {
      assert TreeAt(t.children, k, x);
    }
  }

  lemma NothingPlanted(s: Scene, codec: TextCodec, m: map<string, Id>, parent: Option<Id>)
    requires Ready(s, m)
    ensures Planted(s, s, codec, m, m, [], parent)
  {
    hide Ready;
  }

  lemma NextFits(s: Scene, w: Scene, g: Target, codec: TextCodec, m: map<string, Id>, n: map<string, Id>,
                 trees: seq<ExportInstance>, parent: Option<Id>, x: nat)
    requires Fits(s, g, codec, m, trees) && x < |trees| && Planted(s, w, codec, m, n, trees[..x], parent)
    ensures TreeFits(w, g, codec, n, trees[x])
  {
    hide Ready, Importable, DistinctKeys, KeyIn, DepictsNodes;
    ImportableStill(s, w, g, codec, trees[x]);
    forall key | KeyIn(trees[x], key)
      ensures key !in n
    {
      assert KeyInForest(trees, key);
      forall y | 0 <= y < x
        ensures !KeyIn(trees[..x][y], key)
      {
        assert trees[..x][y] == trees[y];
      }
    }
  }

  lemma TreeAdded(s: Scene, v: Scene, w: Scene, codec: TextCodec, m: map<string, Id>, n: map<string, Id>, o: map<string, Id>,
                  trees: seq<ExportInstance>, parent: Option<Id>, x: nat)
    requires x < |trees| && Planted(s, v, codec, m, n, trees[..x], parent) && TreePlanted(v, w, codec, n, o, trees[x], parent)
    ensures Planted(s, w, codec, m, o, trees[..x + 1], parent)
  {
    hide Ready, DepictsNodes, KeyIn, Grown;
    GrownTransitive(s, v, w);
    var more := trees[..x + 1];
    forall key
      ensures KeyInForest(more, key) <==> KeyInForest(trees[..x], key) || KeyIn(trees[x], key)
    {
      if KeyInForest(trees[..x], key) {
        var y :| 0 <= y < x && KeyIn(trees[..x][y], key);
        assert more[y] == trees[..x][y];
      }
      if KeyIn(trees[x], key) {
        assert more[x] == trees[x];
      }
      if KeyInForest(more, key) && !KeyIn(trees[x], key) {
        var y :| 0 <= y < |more| && KeyIn(more[y], key);
        assert y < x && trees[..x][y] == more[y];
      }
    }
    forall y | 0 <= y < |more|
      ensures DepictsNodes(w, codec, o, more[y], parent)
    {
      if y < x {
        assert trees[..x][y] == more[y];
        DepictedStill(v, w, codec, n, o, more[y], parent);
      }
    }
  }

  /** One tree, top down: it succeeds when its types are known, its siblings are told apart, and
      its root is free to be created, and then every node has its row and nothing else is new. */
  method CreateInstanceTree(db: Store, codec: TextCodec, g: Target, c: Id, t: ExportInstance, parent: Option<Id>,
                            names: map<string, Id>)
    returns (out: Outcome, after: map<string, Id>)
    requires Importing(db.State(), c, g) && ParentAllowed(db.State(), c, parent)
    modifies db`instances, db`values, db`nextId
    ensures Importing(db.State(), c, g) && Added(old(db.State()), db.State(), c) && Worked(old(db.State()), db.State(), c)
    ensures out.Pass? <==> Plantable(g, t) && Creatable(old(db.State()), g, c, t, parent)
    ensures out.Pass? ==> TreeMade(old(db.State()), db.State(), codec, g, c, t, parent, names, after)
    ensures TreeFits(ImportScene(old(db.State()), c, g), g, codec, names, t) ==>
              out.Pass? && TreePlanted(ImportScene(old(db.State()), c, g), ImportScene(db.State(), c, g), codec, names, after, t, parent)
    decreases t, 1
  {
    hide TreeFits, Fits, GroupsFit, GroupsPlanted, TreePlanted, Planted, ImportScene, Added, FreshData, UniqueAttributeNames,
         TargetSound, NodeCreated, Creatable, ShowsNode, Ready, MoreNames, Grown, ParentsBelow, NothingUnder, Plantable,
         GroupsPlantable, TreeMade, GroupsMade, Worked, ParentAllowed;
    after := names;
    ghost var d := db.State();
    PlantableKnown(g, t);
    ghost var s := ImportScene(d, c, g);
    ghost var fits := TreeFits(s, g, codec, names, t);
    if fits {
      FitsIsAccepted(d, c, g, codec, names, t, parent);
    }
    var i := db.nextId;
    ghost var rows;
    out, rows := CreateNode(db, codec, g, c, t, parent);
    CreatableIsKnown(d, g, c, t, parent);
    if out.Fail? {
      AddedNone(d, c);
      NotWorked(d, c);
      return;
    }
    after := after[NodeKey(t) := i];
    ghost var mid := db.State();
    ghost var v := ImportScene(mid, c, g);
    BelowNext(d, c, parent);
    NodeIsImporting(d, mid, codec, g, c, t, parent, rows);
    NodeIsStep(d, mid, codec, g, c, t, parent, rows);
    if fits {
      FitsIsReady(s, g, codec, names, t);
      NodePlanted(d, mid, codec, g, c, t, parent, rows, names);
      ChildrenFit(s, v, g, codec, names, t, d.nextId);
    }
    ghost var m := after;
    out, after := CreateChildren(db, codec, g, c, t, i, after);
    AddedTwice(d, mid, db.State(), c);
    WorkedTwice(d, mid, db.State(), c);
    if out.Pass? {
      TreeFromGroups(d, mid, db.State(), codec, g, c, t, parent, rows, names, after);
    }
    if fits {
      TreeComplete(s, v, ImportScene(db.State(), c, g), codec, names, after, t, parent, d.nextId);
    }
  }

  lemma CreatableIsKnown(d: Db, g: Target, c: Id, t: ExportInstance, parent: Option<Id>)
    ensures Creatable(d, g, c, t, parent) ==> t.entityType in g.typeIds
  {
  }

  lemma NoTreePlantable(d: Db, g: Target, c: Id, parent: Option<Id>)
    ensures ForestPlantable(d, g, c, [], parent)
  {
  }

  lemma AddedNone(d: Db, c: Id)
    ensures Added(d, d, c)
  {
  }

  lemma FitsIsReady(s: Scene, g: Target, codec: TextCodec, names: map<string, Id>, t: ExportInstance)
    requires TreeFits(s, g, codec, names, t)
    ensures Ready(s, names)
  {
  }

  lemma FitsIsAccepted(d: Db, c: Id, g: Target, codec: TextCodec, names: map<string, Id>, t: ExportInstance, parent: Option<Id>)
    requires TargetSound(g) && TreeFits(ImportScene(d, c, g), g, codec, names, t)
    ensures Creatable(d, g, c, t, parent)
  {
    hide Ready, DistinctKeys, ValueFits, Creatable;
    assert KeyIn(t, NodeKey(t));
    ScopeIsFree(d, c, g, names, t, parent);
  }

  lemma NodeIsImporting(d: Db, e: Db, codec: TextCodec, g: Target, c: Id, t: ExportInstance, parent: Option<Id>, rows: map<Id, Value>)
    requires Importing(d, c, g) && NodeCreated(d, e, codec, g, c, t, parent, rows) && (parent.Some? ==> parent.value < d.nextId)
    ensures e.nextId == d.nextId + 1 && NothingUnder(e, c, d.nextId)
    ensures Importing(e, c, g) && Added(d, e, c) && Grown(ImportScene(d, c, g), ImportScene(e, c, g))
    ensures ImportScene(e, c, g).attributes == ImportScene(d, c, g).attributes
    ensures ImportScene(e, c, g).typeDefs == ImportScene(d, c, g).typeDefs
  {
    hide FreshData, Added, UniqueAttributeNames, RowsRead, WithRows, TypeNames, VersionsOf, MembersOf, Grown;
    CreatedAdds(d, e, c, Instance(g.typeIds[t.entityType], c, parent, t.name, t.description, 1), rows);
    AddedGrows(d, e, c, g);
  }

  lemma BelowNext(d: Db, c: Id, parent: Option<Id>)
    requires FreshData(d) && ParentAllowed(d, c, parent)
    ensures parent.Some? ==> parent.value < d.nextId
  {
  }

  /** The row of a node is one insertion, under a parent of the catalog. */
  lemma NodeIsStep(d: Db, e: Db, codec: TextCodec, g: Target, c: Id, t: ExportInstance, parent: Option<Id>, rows: map<Id, Value>)
    requires Importing(d, c, g) && Creatable(d, g, c, t, parent) && ParentAllowed(d, c, parent)
    requires NodeCreated(d, e, codec, g, c, t, parent, rows)
    ensures Worked(d, e, c) && ParentAllowed(e, c, Some(d.nextId))
  {
    hide UniqueAttributeNames, RowsRead, WithRows, ParentsBelow, SameScope, TargetSound;
    var row := Instance(g.typeIds[t.entityType], c, parent, t.name, t.description, 1);
    assert e == ApplyStep(d, Insert(row, rows));
    WorkedOnce(d, c, Insert(row, rows));
  }

  lemma ParentStays(d: Db, e: Db, c: Id, parent: Option<Id>)
    requires ParentAllowed(d, c, parent) && Added(d, e, c)
    ensures ParentAllowed(e, c, parent)
  {
    hide SchemaSame;
  }

  method CreateChildren(db: Store, codec: TextCodec, g: Target, c: Id, t: ExportInstance, i: Id, names: map<string, Id>)
    returns (out: Outcome, after: map<string, Id>)
    requires Importing(db.State(), c, g) && ParentAllowed(db.State(), c, Some(i)) && NothingUnder(db.State(), c, i)
    modifies db`instances, db`values, db`nextId
    ensures Importing(db.State(), c, g) && Added(old(db.State()), db.State(), c) && Worked(old(db.State()), db.State(), c)
    ensures out.Pass? <==> GroupsPlantable(g, t.children, t.children.Keys)
    ensures out.Pass? ==>
              GroupsMade(old(db.State()), db.State(), codec, g, c, t.children, t.children.Keys, i, names, after)
    ensures GroupsFit(ImportScene(old(db.State()), c, g), g, codec, names, t.children, t.children.Keys) ==>
              out.Pass? && GroupsPlanted(ImportScene(old(db.State()), c, g), ImportScene(db.State(), c, g), codec, names, after,
                                         t.children, t.children.Keys, i)
    decreases t, 0
  {
    hide Fits, GroupsFit, GroupsPlanted, Planted, ImportScene, Added, FreshData, UniqueAttributeNames, TargetSound, Ready,
         ParentsBelow, NothingUnder, GroupsPlantable, ForestPlantable, GroupsMade, ForestMade, Worked, ParentAllowed;
    out, after := Pass, names;
    ghost var d := db.State();
    ghost var s := ImportScene(d, c, g);
    ghost var fits := GroupsFit(s, g, codec, names, t.children, t.children.Keys);
    AddedNone(d, c);
    NotWorked(d, c);
    BelowNext(d, c, Some(i));
    if fits {
      GroupsFitIsReady(s, g, codec, names, t.children);
      NoGroupPlanted(s, codec, names, t.children, i);
    }
    NoGroupMade(d, codec, g, c, t.children, i, names);
    NoGroupPlantable(g, t.children);
    var todo := t.children.Keys;
    ghost var done: set<string> := {};
    while todo != {}
      invariant todo <= t.children.Keys && done == t.children.Keys - todo
      invariant out.Pass? && Importing(db.State(), c, g) && Added(d, db.State(), c) && ParentAllowed(db.State(), c, Some(i))
      invariant Worked(d, db.State(), c)
      invariant GroupsPlantable(g, t.children, done)
      invariant GroupsMade(d, db.State(), codec, g, c, t.children, done, i, names, after)
      invariant fits ==> GroupsPlanted(s, ImportScene(db.State(), c, g), codec, names, after, t.children, done, i)
      decreases todo
    {
      var k :| k in todo;
      ghost var e, n := db.State(), after;
      ghost var v := ImportScene(e, c, g);
      if fits {
        GroupFits(s, v, g, codec, names, n, t.children, done, i, k);
      }
      NextGroupPlantable(d, e, codec, g, c, t.children, done, i, k, names, n);
      out, after := CreateForest(db, codec, g, c, t.children[k], Some(i), after);
      AddedTwice(d, e, db.State(), c);
      WorkedTwice(d, e, db.State(), c);
      ParentStays(e, db.State(), c, Some(i));
      if out.Fail? {
        NotAllPlantable(g, t.children, done + {k});
        return;
      }
      GroupMadeToo(d, e, db.State(), codec, g, c, t.children, done, i, k, names, n, after);
      if fits {
        GroupAdded(s, v, ImportScene(db.State(), c, g), codec, names, n, after, t.children, done, i, k);
      }
      todo, done := todo - {k}, done + {k};
    }
    assert done == t.children.Keys;
  }

  lemma NoGroupPlantable(g: Target, children: map<string, Group>)
    ensures GroupsPlantable(g, children, {})
  {
  }

  lemma NotAllPlantable(g: Target, children: map<string, Group>, some: set<string>)
    requires some <= children.Keys && !GroupsPlantable(g, children, some)
    ensures !GroupsPlantable(g, children, children.Keys)
  {
    hide GroupsPlantable;
    if GroupsPlantable(g, children, children.Keys) {
      FewerGroupsPlantable(g, children, some, children.Keys);
    }
  }

  lemma GroupsFitIsReady(s: Scene, g: Target, codec: TextCodec, names: map<string, Id>, children: map<string, Group>)
    requires GroupsFit(s, g, codec, names, children, children.Keys)
    ensures Ready(s, names)
  {
  }

  lemma FitsAreReady(s: Scene, g: Target, codec: TextCodec, names: map<string, Id>, trees: seq<ExportInstance>)
    requires Fits(s, g, codec, names, trees)
    ensures Ready(s, names)
  {
  }

  /** A list of trees under one parent. It succeeds exactly when the trees are plantable there;
      then every node has its row and nothing else is new. When the trees fit, they depict what
      was created. */
  method CreateForest(db: Store, codec: TextCodec, g: Target, c: Id, group: Group, parent: Option<Id>, names: map<string, Id>)
    returns (out: Outcome, after: map<string, Id>)
    requires Importing(db.State(), c, g) && ParentAllowed(db.State(), c, parent)
    modifies db`instances, db`values, db`nextId
    ensures Importing(db.State(), c, g) && Added(old(db.State()), db.State(), c) && Worked(old(db.State()), db.State(), c)
    ensures out.Pass? <==> ForestPlantable(old(db.State()), g, c, group.trees, parent)
    ensures out.Pass? ==> ForestMade(old(db.State()), db.State(), codec, g, c, group.trees, parent, names, after)
    ensures Fits(ImportScene(old(db.State()), c, g), g, codec, names, group.trees) ==>
              out.Pass? && Planted(ImportScene(old(db.State()), c, g), ImportScene(db.State(), c, g), codec, names, after,
                                   group.trees, parent)
    decreases group
  {
    hide Fits, TreeFits, Planted, TreePlanted, ImportScene, Added, FreshData, UniqueAttributeNames, TargetSound, Ready,
         ParentsBelow, Plantable, Creatable, ForestPlantable, ForestMade, TreeMade, Worked, ParentAllowed;
    out, after := Pass, names;
    ghost var d := db.State();
    ghost var s := ImportScene(d, c, g);
    ghost var fits := Fits(s, g, codec, names, group.trees);
    AddedNone(d, c);
    NotWorked(d, c);
    BelowNext(d, c, parent);
    if fits {
      FitsAreReady(s, g, codec, names, group.trees);
      NothingPlanted(s, codec, names, parent);
    }
    assert group.trees[..0] == [];
    NoTreeMade(d, codec, g, c, parent, names);
    NoTreePlantable(d, g, c, parent);
    for x := 0 to |group.trees|
      invariant out.Pass? && Importing(db.State(), c, g) && Added(d, db.State(), c) && ParentAllowed(db.State(), c, parent)
      invariant Worked(d, db.State(), c)
      invariant ForestPlantable(d, g, c, group.trees[..x], parent)
      invariant ForestMade(d, db.State(), codec, g, c, group.trees[..x], parent, names, after)
      invariant fits ==> Planted(s, ImportScene(db.State(), c, g), codec, names, after, group.trees[..x], parent)
    {
      ghost var e, n := db.State(), after;
      ghost var v := ImportScene(e, c, g);
      if fits {
        NextFits(s, v, g, codec, names, n, group.trees, parent, x);
      }
      NextTreePlantable(d, e, codec, g, c, group.trees, x, parent, names, n);
      out, after := CreateInstanceTree(db, codec, g, c, group.trees[x], parent, after);
      AddedTwice(d, e, db.State(), c);
      WorkedTwice(d, e, db.State(), c);
      ParentStays(e, db.State(), c, parent);
      if out.Fail? {
        return;
      }
      TreeMadeToo(d, e, db.State(), codec, g, c, group.trees, x, parent, names, n, after);
      if fits {
        TreeAdded(s, v, ImportScene(db.State(), c, g), codec, names, n, after, group.trees, parent, x);
      }
    }
    assert group.trees[..|group.trees|] == group.trees;
  }
}
