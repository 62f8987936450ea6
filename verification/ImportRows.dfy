/** What an import leaves of any tree, whether or not its keys and values survive: when it
    succeeds, which rows it makes, and which names it hands to the links. */
module ImportRows {
  import opened Domain
  import opened Database
  import opened Conformance
  import opened DataSteps
  import opened Revisions
  import opened Instances
  import opened ExportJson
  import opened ExportTree
  import opened CatalogExport
  import opened ImportNodes

  // ---- when it succeeds ----

  predicate SameNode(t: ExportInstance, u: ExportInstance) {
    t.entityType == u.entityType && t.name == u.name
  }

  /** No two children, whatever their groups, share type and name. */
  ghost predicate SiblingsApart(children: map<string, Group>, groups: set<string>) {
    forall k, x, l, y {:trigger TreeAt(children, k, x), TreeAt(children, l, y)} ::
      k in groups && l in groups && TreeAt(children, k, x) && TreeAt(children, l, y) ==>
        (SameNode(children[k].trees[x], children[l].trees[y]) ==> k == l && x == y)
  }

  /** Every type is known, and siblings are told apart by type and name. */
  ghost predicate Plantable(g: Target, t: ExportInstance)
    decreases t
  {
    && t.entityType in g.typeIds && SiblingsApart(t.children, t.children.Keys)
    && forall k, x :: k in t.children && 0 <= x < |t.children[k].trees| ==> Plantable(g, t.children[k].trees[x])
  }

  ghost predicate GroupsPlantable(g: Target, children: map<string, Group>, groups: set<string>) {
    && SiblingsApart(children, groups)
    && forall k, x {:trigger TreeAt(children, k, x)} :: k in groups && TreeAt(children, k, x) ==> Plantable(g, children[k].trees[x])
  }

  ghost predicate ForestPlantable(d: Db, g: Target, c: Id, trees: seq<ExportInstance>, parent: Option<Id>) {
    && (forall x :: 0 <= x < |trees| ==> Plantable(g, trees[x]) && Creatable(d, g, c, trees[x], parent))
    && forall x, y :: 0 <= x < y < |trees| ==> !SameNode(trees[x], trees[y])
  }

  // ---- what it makes ----

  ghost predicate IsRow(e: Db, g: Target, c: Id, t: ExportInstance, parent: Option<Id>, i: Id) {
    && t.entityType in g.typeIds && i in e.instances
    && e.instances[i] == Instance(g.typeIds[t.entityType], c, parent, t.name, t.description, 1)
  }

  /** The rows of the first version are the values read from the map. */
  ghost predicate RowsStand(e: Db, codec: TextCodec, ver: Id, attrs: map<string, Json>, i: Id) {
    exists rows :: RowsRead(e, codec, ver, attrs, rows) && RowsAre(e, i, rows)
  }

  ghost predicate RowsAre(e: Db, i: Id, rows: map<Id, Value>) {
    && (forall k: RowKey :: k.inst == i ==> (k in e.values <==> k.ver == 1 && k.attr in rows))
    && forall a :: a in rows && RowKey(i, 1, a) in e.values ==> e.values[RowKey(i, 1, a)] == rows[a]
  }

  /** Every node of the tree has a row of its own under the row of the node above. */
  ghost predicate Stands(e: Db, codec: TextCodec, g: Target, c: Id, t: ExportInstance, parent: Option<Id>, i: Id)
    decreases t, 0
  {
    && IsRow(e, g, c, t, parent, i)
    && t.entityType in g.versionIds && RowsStand(e, codec, g.versionIds[t.entityType], t.attributes, i)
    && forall k, x :: k in t.children && 0 <= x < |t.children[k].trees| ==>
         StandsSomewhere(e, codec, g, c, t.children[k].trees[x], Some(i))
  }

  ghost predicate StandsSomewhere(e: Db, codec: TextCodec, g: Target, c: Id, t: ExportInstance, parent: Option<Id>)
    decreases t, 1
  {
    exists i :: Stands(e, codec, g, c, t, parent, i)
  }

  /** "j" is the row of a node of the tree whose root is "i". */
  ghost predicate InTree(e: Db, g: Target, c: Id, t: ExportInstance, i: Id, j: Id)
    decreases t
  {
    || j == i
    || exists k, x, m :: k in t.children && 0 <= x < |t.children[k].trees|
                         && IsRow(e, g, c, t.children[k].trees[x], Some(i), m) && InTree(e, g, c, t.children[k].trees[x], m, j)
  }

  ghost predicate InSomeTree(e: Db, g: Target, c: Id, t: ExportInstance, parent: Option<Id>, j: Id) {
    exists i :: IsRow(e, g, c, t, parent, i) && InTree(e, g, c, t, i, j)
  }

  /** The names are those of before and the keys, each for a new row of its type and name. */
  ghost predicate NamesGrown(d: Db, e: Db, g: Target, m: map<string, Id>, n: map<string, Id>, keys: iset<string>) {
    && (forall key :: key in n <==> key in m || key in keys)
    && (forall key :: key in m && key !in keys ==> n[key] == m[key])
    && forall key :: key in keys && key in n ==> n[key] !in d.instances && KeyOfRow(e, g, n[key], key)
  }

  ghost predicate KeyOfRow(e: Db, g: Target, i: Id, key: string) {
    && i in e.instances
    && exists n :: n in g.typeIds && g.typeIds[n] == e.instances[i].typeId && key == KeyText(n, e.instances[i].name)
  }

  ghost function KeysOf(t: ExportInstance): iset<string> {
    iset key | KeyIn(t, key)
  }

  ghost function KeysOfForest(trees: seq<ExportInstance>): iset<string> {
    iset key | KeyInForest(trees, key)
  }

  ghost predicate KeyInGroups(children: map<string, Group>, groups: set<string>, key: string) {
    exists k, x :: k in groups && KeyAt(children, k, x, key)
  }

  ghost function KeysOfGroups(children: map<string, Group>, groups: set<string>): iset<string> {
    iset key | KeyInGroups(children, groups, key)
  }

  ghost predicate IsNew(d: Db, e: Db, j: Id) {
    j in e.instances && j !in d.instances
  }

  /** A new row lies under a new one. */
  ghost predicate Below(d: Db, e: Db, j: Id)
    requires j in e.instances
  {
    e.instances[j].parent.Some? && e.instances[j].parent.value >= d.nextId
  }

  /** One tree is there, with its names, and nothing else is new. */
  ghost predicate TreeMade(d: Db, e: Db, codec: TextCodec, g: Target, c: Id, t: ExportInstance, parent: Option<Id>,
                           m: map<string, Id>, n: map<string, Id>) {
    && Stands(e, codec, g, c, t, parent, d.nextId)
    && (forall j {:trigger IsNew(d, e, j)} :: IsNew(d, e, j) ==>
          InTree(e, g, c, t, d.nextId, j) && (j == d.nextId || Below(d, e, j)))
    && NamesGrown(d, e, g, m, n, KeysOf(t))
  }

  ghost predicate ForestMade(d: Db, e: Db, codec: TextCodec, g: Target, c: Id, trees: seq<ExportInstance>, parent: Option<Id>,
                             m: map<string, Id>, n: map<string, Id>) {
    && (forall x :: 0 <= x < |trees| ==> StandsSomewhere(e, codec, g, c, trees[x], parent))
    && (forall j {:trigger IsNew(d, e, j)} :: IsNew(d, e, j) ==> exists x :: 0 <= x < |trees| && InSomeTree(e, g, c, trees[x], parent, j))
    && (forall j {:trigger IsNew(d, e, j)} :: IsNew(d, e, j) ==>
          Below(d, e, j) || exists x :: 0 <= x < |trees| && IsRow(e, g, c, trees[x], parent, j))
    && NamesGrown(d, e, g, m, n, KeysOfForest(trees))
  }

  ghost predicate GroupsMade(d: Db, e: Db, codec: TextCodec, g: Target, c: Id, children: map<string, Group>, groups: set<string>,
                             i: Id, m: map<string, Id>, n: map<string, Id>) {
    && (forall k, x {:trigger TreeAt(children, k, x)} :: k in groups && TreeAt(children, k, x) ==>
          StandsSomewhere(e, codec, g, c, children[k].trees[x], Some(i)))
    && (forall j {:trigger IsNew(d, e, j)} :: IsNew(d, e, j) ==>
          exists k, x :: k in groups && TreeAt(children, k, x) && InSomeTree(e, g, c, children[k].trees[x], Some(i), j))
    && (forall j {:trigger IsNew(d, e, j)} :: IsNew(d, e, j) ==>
          Below(d, e, j) || exists k, x :: k in groups && TreeAt(children, k, x) && IsRow(e, g, c, children[k].trees[x], Some(i), j))
    && NamesGrown(d, e, g, m, n, KeysOfGroups(children, groups))
  }

  // ---- what stays as more is made ----

  /** The schema, and the rows of the instances there were, are as they were. */
  ghost predicate RowsKept(d: Db, e: Db) {
    && SchemaSame(d, e) && (forall i :: i in d.instances ==> i in e.instances && e.instances[i] == d.instances[i])
    && forall k: RowKey :: k.inst < d.nextId ==> (k in e.values <==> k in d.values) && (k in d.values ==> e.values[k] == d.values[k])
  }

  lemma AddedKeeps(d: Db, e: Db, c: Id)
    requires Added(d, e, c)
    ensures RowsKept(d, e)
  {
    hide SchemaSame;
  }

  lemma RowStays(d: Db, e: Db, g: Target, c: Id, t: ExportInstance, parent: Option<Id>, i: Id)
    requires RowsKept(d, e) && IsRow(d, g, c, t, parent, i)
    ensures IsRow(e, g, c, t, parent, i)
  {
    hide SchemaSame;
  }

  lemma RowsStay(d: Db, e: Db, codec: TextCodec, ver: Id, attrs: map<string, Json>, i: Id)
    requires FreshData(d) && RowsKept(d, e) && i in d.instances && RowsStand(d, codec, ver, attrs, i)
    ensures RowsStand(e, codec, ver, attrs, i)
  {
    hide RowsRead, RowsAre, FreshData, RowsKept;
    var rows :| RowsRead(d, codec, ver, attrs, rows) && RowsAre(d, i, rows);
    ReadStays(d, e, codec, ver, attrs, rows);
    RowsAreStill(d, e, i, rows);
  }

  lemma ReadStays(d: Db, e: Db, codec: TextCodec, ver: Id, attrs: map<string, Json>, rows: map<Id, Value>)
    requires RowsKept(d, e) && RowsRead(d, codec, ver, attrs, rows)
    ensures RowsRead(e, codec, ver, attrs, rows)
  {
    hide ImportValue;
    assert e.attributes == d.attributes;
  }

  lemma RowsAreStill(d: Db, e: Db, i: Id, rows: map<Id, Value>)
    requires FreshData(d) && RowsKept(d, e) && i in d.instances && RowsAre(d, i, rows)
    ensures RowsAre(e, i, rows)
  {
    hide SchemaSame;
    assert i < d.nextId;
  }

  lemma {:induction false} StandsStill(d: Db, e: Db, codec: TextCodec, g: Target, c: Id, t: ExportInstance, parent: Option<Id>, i: Id)
    requires FreshData(d) && RowsKept(d, e) && Stands(d, codec, g, c, t, parent, i)
    ensures Stands(e, codec, g, c, t, parent, i)
    decreases t, 0
  {
    hide RowsKept, FreshData, RowsStand, StandsSomewhere;
    RowStays(d, e, g, c, t, parent, i);
    RowsStay(d, e, codec, g.versionIds[t.entityType], t.attributes, i);
    forall k, x | k in t.children && 0 <= x < |t.children[k].trees|
      ensures StandsSomewhere(e, codec, g, c, t.children[k].trees[x], Some(i))
    {
      StandsSomewhereStill(d, e, codec, g, c, t.children[k].trees[x], Some(i));
    }
  }

  lemma {:induction false} StandsSomewhereStill(d: Db, e: Db, codec: TextCodec, g: Target, c: Id, t: ExportInstance, parent: Option<Id>)
    requires FreshData(d) && RowsKept(d, e) && StandsSomewhere(d, codec, g, c, t, parent)
    ensures StandsSomewhere(e, codec, g, c, t, parent)
    decreases t, 1
  {
    hide RowsKept, FreshData, Stands;
    var i :| Stands(d, codec, g, c, t, parent, i);
    StandsStill(d, e, codec, g, c, t, parent, i);
  }

  lemma {:induction false} InTreeStill(d: Db, e: Db, g: Target, c: Id, t: ExportInstance, i: Id, j: Id)
    requires RowsKept(d, e) && InTree(d, g, c, t, i, j)
    ensures InTree(e, g, c, t, i, j)
    decreases t
  {
    hide RowsKept;
    if j != i {
      var k, x, m :| k in t.children && 0 <= x < |t.children[k].trees|
                     && IsRow(d, g, c, t.children[k].trees[x], Some(i), m) && InTree(d, g, c, t.children[k].trees[x], m, j);
      RowStays(d, e, g, c, t.children[k].trees[x], Some(i), m);
      InTreeStill(d, e, g, c, t.children[k].trees[x], m, j);
    }
  }

  lemma InSomeTreeStill(d: Db, e: Db, g: Target, c: Id, t: ExportInstance, parent: Option<Id>, j: Id)
    requires RowsKept(d, e) && InSomeTree(d, g, c, t, parent, j)
    ensures InSomeTree(e, g, c, t, parent, j)
  {
    hide RowsKept, InTree;
    var i :| IsRow(d, g, c, t, parent, i) && InTree(d, g, c, t, i, j);
    RowStays(d, e, g, c, t, parent, i);
    InTreeStill(d, e, g, c, t, i, j);
  }

  lemma NamesGrowOn(d: Db, v: Db, e: Db, g: Target, c: Id, m: map<string, Id>, n: map<string, Id>, o: map<string, Id>,
                    first: iset<string>, second: iset<string>)
    requires Added(d, v, c) && Added(v, e, c) && NamesGrown(d, v, g, m, n, first) && NamesGrown(v, e, g, n, o, second)
    ensures NamesGrown(d, e, g, m, o, first + second)
  {
    hide SchemaSame;
    forall key | key in first + second && key in o
      ensures o[key] !in d.instances && KeyOfRow(e, g, o[key], key)
    {
      if key !in second {
        assert KeyOfRow(v, g, n[key], key);
      }
    }
  }

  // ---- one node ----

  lemma NodeStands(d: Db, e: Db, codec: TextCodec, g: Target, c: Id, t: ExportInstance, parent: Option<Id>, rows: map<Id, Value>)
    requires FreshData(d) && NodeCreated(d, e, codec, g, c, t, parent, rows)
    ensures IsRow(e, g, c, t, parent, d.nextId) && e.nextId == d.nextId + 1
    ensures t.entityType in g.versionIds && RowsStand(e, codec, g.versionIds[t.entityType], t.attributes, d.nextId)
    ensures forall j :: IsNew(d, e, j) <==> j == d.nextId
    ensures KeyOfRow(e, g, d.nextId, NodeKey(t))
  {
    hide RowsRead, WithRows, RowsAre, KeyText;
    NodeRowsStand(d, e, codec, g.versionIds[t.entityType], t.attributes, rows);
  }

  lemma NodeRowsStand(d: Db, e: Db, codec: TextCodec, ver: Id, attrs: map<string, Json>, rows: map<Id, Value>)
    requires FreshData(d) && RowsRead(d, codec, ver, attrs, rows) && SchemaSame(d, e)
    requires e.values == WithRows(d.values, d.nextId, 1, rows)
    ensures RowsStand(e, codec, ver, attrs, d.nextId)
  {
    hide ImportValue, WithRows;
    assert RowsRead(e, codec, ver, attrs, rows);
    forall k: RowKey
      ensures k.inst == d.nextId ==> (k in e.values <==> k.ver == 1 && k.attr in rows)
      ensures k.inst == d.nextId && k.ver == 1 && k.attr in rows ==> e.values[k] == rows[k.attr]
    {
      RowsCreated(d.values, d.nextId, rows, k);
    }
    assert RowsAre(e, d.nextId, rows);
  }

  lemma NoGroupMade(d: Db, codec: TextCodec, g: Target, c: Id, children: map<string, Group>, i: Id, m: map<string, Id>)
    ensures GroupsMade(d, d, codec, g, c, children, {}, i, m, m)
  {
    assert KeysOfGroups(children, {}) == iset{};
  }

  lemma NoTreeMade(d: Db, codec: TextCodec, g: Target, c: Id, parent: Option<Id>, m: map<string, Id>)
    ensures ForestMade(d, d, codec, g, c, [], parent, m, m)
  {
    assert KeysOfForest([]) == iset{};
  }

  // ---- a tree from its root and its groups ----

  lemma TreeFromGroups(d: Db, v: Db, e: Db, codec: TextCodec, g: Target, c: Id, t: ExportInstance, parent: Option<Id>,
                       rows: map<Id, Value>, m: map<string, Id>, n: map<string, Id>)
    requires FreshData(d) && FreshData(v) && NodeCreated(d, v, codec, g, c, t, parent, rows) && Added(d, v, c) && Added(v, e, c)
    requires GroupsMade(v, e, codec, g, c, t.children, t.children.Keys, d.nextId, m[NodeKey(t) := d.nextId], n)
    ensures TreeMade(d, e, codec, g, c, t, parent, m, n)
  {
    hide Added, FreshData, NodeCreated, GroupsMade, NamesGrown, KeysOf, Stands, InTree, IsRow, RowsStand, Below;
    NodeStands(d, v, codec, g, c, t, parent, rows);
    RootAndGroupsStand(d, v, e, codec, g, c, t, parent, m[NodeKey(t) := d.nextId], n);
    forall j | IsNew(d, e, j)
      ensures InTree(e, g, c, t, d.nextId, j) && (j == d.nextId || Below(d, e, j))
    {
      NewIsInTree(d, v, e, codec, g, c, t, m[NodeKey(t) := d.nextId], n, j);
    }
    RootNamed(d, v, g, t, m);
    GroupNames(v, e, codec, g, c, t, d.nextId, m[NodeKey(t) := d.nextId], n);
    NamesGrowOn(d, v, e, g, c, m, m[NodeKey(t) := d.nextId], n, iset{NodeKey(t)}, KeysOfGroups(t.children, t.children.Keys));
    TreeKeysUnfold(t);
  }

  lemma GroupNames(v: Db, e: Db, codec: TextCodec, g: Target, c: Id, t: ExportInstance, i: Id, m: map<string, Id>, n: map<string, Id>)
    requires GroupsMade(v, e, codec, g, c, t.children, t.children.Keys, i, m, n)
    ensures NamesGrown(v, e, g, m, n, KeysOfGroups(t.children, t.children.Keys))
  {
    hide NamesGrown, KeysOfGroups;
  }

  lemma RootNamed(d: Db, v: Db, g: Target, t: ExportInstance, m: map<string, Id>)
    requires FreshData(d) && KeyOfRow(v, g, d.nextId, NodeKey(t))
    ensures NamesGrown(d, v, g, m, m[NodeKey(t) := d.nextId], iset{NodeKey(t)})
  {
    hide NodeKey, KeyOfRow;
  }

  lemma TreeKeysUnfold(t: ExportInstance)
    ensures KeysOf(t) == iset{NodeKey(t)} + KeysOfGroups(t.children, t.children.Keys)
  {
    hide NodeKey, KeyIn;
    forall key
      ensures key in KeysOf(t) <==> key == NodeKey(t) || KeyInGroups(t.children, t.children.Keys, key)
    {
      KeyInUnfolds(t, key);
    }
  }

  lemma RootAndGroupsStand(d: Db, v: Db, e: Db, codec: TextCodec, g: Target, c: Id, t: ExportInstance, parent: Option<Id>,
                           m: map<string, Id>, n: map<string, Id>)
    requires FreshData(v) && Added(v, e, c) && IsRow(v, g, c, t, parent, d.nextId)
    requires t.entityType in g.versionIds && RowsStand(v, codec, g.versionIds[t.entityType], t.attributes, d.nextId)
    requires GroupsMade(v, e, codec, g, c, t.children, t.children.Keys, d.nextId, m, n)
    ensures Stands(e, codec, g, c, t, parent, d.nextId)
  {
    hide Added, RowsKept, FreshData, NamesGrown, RowsStand, StandsSomewhere, IsNew, Below, InSomeTree;
    AddedKeeps(v, e, c);
    RowStays(v, e, g, c, t, parent, d.nextId);
    RowsStay(v, e, codec, g.versionIds[t.entityType], t.attributes, d.nextId);
    forall k, x | k in t.children && 0 <= x < |t.children[k].trees|
      ensures StandsSomewhere(e, codec, g, c, t.children[k].trees[x], Some(d.nextId))
    {
      assert TreeAt(t.children, k, x);
    }
  }

  lemma NewIsInTree(d: Db, v: Db, e: Db, codec: TextCodec, g: Target, c: Id, t: ExportInstance, m: map<string, Id>, n: map<string, Id>,
                    j: Id)
    requires Added(d, v, c) && Added(v, e, c) && (forall j :: IsNew(d, v, j) <==> j == d.nextId)
    requires GroupsMade(v, e, codec, g, c, t.children, t.children.Keys, d.nextId, m, n) && IsNew(d, e, j)
    ensures InTree(e, g, c, t, d.nextId, j) && (j == d.nextId || Below(d, e, j))
  {
    hide SchemaSame, NamesGrown, StandsSomewhere;
    if j != d.nextId {
      assert !IsNew(d, v, j);
      assert IsNew(v, e, j);
      var k, x :| k in t.children.Keys && TreeAt(t.children, k, x) && InSomeTree(e, g, c, t.children[k].trees[x], Some(d.nextId), j);
    }
  }

  // ---- groups ----

  lemma GroupMadeToo(d: Db, v: Db, e: Db, codec: TextCodec, g: Target, c: Id, children: map<string, Group>, done: set<string>, i: Id,
                     k: string, m: map<string, Id>, n: map<string, Id>, o: map<string, Id>)
    requires FreshData(v) && Added(d, v, c) && Added(v, e, c) && k in children
    requires GroupsMade(d, v, codec, g, c, children, done, i, m, n)
    requires ForestMade(v, e, codec, g, c, children[k].trees, Some(i), n, o)
    ensures GroupsMade(d, e, codec, g, c, children, done + {k}, i, m, o)
  {
    hide FreshData, Added, RowsKept, NamesGrown, StandsSomewhere, InSomeTree, IsRow, Below, KeysOfForest, KeysOfGroups;
    AddedKeeps(v, e, c);
    forall l, x | l in done + {k} && TreeAt(children, l, x)
      ensures StandsSomewhere(e, codec, g, c, children[l].trees[x], Some(i))
    {
      if l != k {
        StandsSomewhereStill(v, e, codec, g, c, children[l].trees[x], Some(i));
      }
    }
    forall j | IsNew(d, e, j)
      ensures exists l, x :: l in done + {k} && TreeAt(children, l, x) && InSomeTree(e, g, c, children[l].trees[x], Some(i), j)
      ensures Below(d, e, j)
              || exists l, x :: l in done + {k} && TreeAt(children, l, x) && IsRow(e, g, c, children[l].trees[x], Some(i), j)
    {
      if IsNew(v, e, j) {
        BelowAlso(d, v, e, c, j);
        var x :| 0 <= x < |children[k].trees| && InSomeTree(e, g, c, children[k].trees[x], Some(i), j);
        assert TreeAt(children, k, x);
        if !Below(v, e, j) {
          var y :| 0 <= y < |children[k].trees| && IsRow(e, g, c, children[k].trees[y], Some(i), j);
          assert TreeAt(children, k, y);
        }
      } else {
        assert IsNew(d, v, j);
        BelowStill(d, v, e, c, j);
        var l, x :| l in done && TreeAt(children, l, x) && InSomeTree(v, g, c, children[l].trees[x], Some(i), j);
        InSomeTreeStill(v, e, g, c, children[l].trees[x], Some(i), j);
        if !Below(d, v, j) {
          var l, y :| l in done && TreeAt(children, l, y) && IsRow(v, g, c, children[l].trees[y], Some(i), j);
          RowStays(v, e, g, c, children[l].trees[y], Some(i), j);
        }
      }
    }
    NamesGrowOn(d, v, e, g, c, m, n, o, KeysOfGroups(children, done), KeysOfForest(children[k].trees));
    OneMoreGroup(children, done, k);
  }

  lemma BelowAlso(d: Db, v: Db, e: Db, c: Id, j: Id)
    requires Added(d, v, c) && j in e.instances
    ensures Below(v, e, j) ==> Below(d, e, j)
  {
    hide SchemaSame;
  }

  lemma BelowStill(d: Db, v: Db, e: Db, c: Id, j: Id)
    requires Added(v, e, c) && j in v.instances
    ensures j in e.instances && (Below(d, v, j) ==> Below(d, e, j))
  {
    hide SchemaSame;
  }

  lemma OneMoreGroup(children: map<string, Group>, done: set<string>, k: string)
    requires k in children
    ensures KeysOfGroups(children, done + {k}) == KeysOfGroups(children, done) + KeysOfForest(children[k].trees)
  {
    hide KeyIn;
    forall key
      ensures KeyInGroups(children, done + {k}, key) <==> KeyInGroups(children, done, key) || KeyInForest(children[k].trees, key)
    {
      if KeyInForest(children[k].trees, key) {
        var x :| 0 <= x < |children[k].trees| && KeyIn(children[k].trees[x], key);
        assert KeyAt(children, k, x, key);
      }
      if KeyInGroups(children, done, key) {
        var l, x :| l in done && KeyAt(children, l, x, key);
        assert l in done + {k};
      }
    }
  }

  // ---- trees ----

  lemma TreeMadeToo(d: Db, v: Db, e: Db, codec: TextCodec, g: Target, c: Id, trees: seq<ExportInstance>, x: nat, parent: Option<Id>,
                    m: map<string, Id>, n: map<string, Id>, o: map<string, Id>)
    requires FreshData(v) && Added(d, v, c) && Added(v, e, c) && x < |trees|
    requires ForestMade(d, v, codec, g, c, trees[..x], parent, m, n) && TreeMade(v, e, codec, g, c, trees[x], parent, n, o)
    ensures ForestMade(d, e, codec, g, c, trees[..x + 1], parent, m, o)
  {
    hide FreshData, Added, RowsKept, NamesGrown, InTree, Stands, IsRow, Below, KeysOfForest, KeysOf, InSomeTree, StandsSomewhere;
    var more := trees[..x + 1];
    assert more == trees[..x] + [trees[x]];
    AddedKeeps(v, e, c);
    TreeIsSomewhere(v, e, codec, g, c, trees[x], parent, n, o);
    forall y | 0 <= y < |more|
      ensures StandsSomewhere(e, codec, g, c, more[y], parent)
    {
      if y < x {
        assert trees[..x][y] == more[y];
        StandsSomewhereStill(v, e, codec, g, c, more[y], parent);
      }
    }
    forall j | IsNew(d, e, j)
      ensures exists y :: 0 <= y < |more| && InSomeTree(e, g, c, more[y], parent, j)
      ensures Below(d, e, j) || exists y :: 0 <= y < |more| && IsRow(e, g, c, more[y], parent, j)
    {
      if IsNew(v, e, j) {
        BelowAlso(d, v, e, c, j);
        assert more[x] == trees[x];
      } else {
        assert IsNew(d, v, j);
        BelowStill(d, v, e, c, j);
        var y :| 0 <= y < x && InSomeTree(v, g, c, trees[..x][y], parent, j);
        InSomeTreeStill(v, e, g, c, trees[..x][y], parent, j);
        assert more[y] == trees[..x][y];
        if !Below(d, v, j) {
          var z :| 0 <= z < x && IsRow(v, g, c, trees[..x][z], parent, j);
          RowStays(v, e, g, c, trees[..x][z], parent, j);
          assert more[z] == trees[..x][z];
        }
      }
    }
    NamesGrowOn(d, v, e, g, c, m, n, o, KeysOfForest(trees[..x]), KeysOf(trees[x]));
    OneMoreTree(trees, x);
  }

  lemma TreeIsSomewhere(d: Db, e: Db, codec: TextCodec, g: Target, c: Id, t: ExportInstance, parent: Option<Id>, m: map<string, Id>,
                        n: map<string, Id>)
    requires TreeMade(d, e, codec, g, c, t, parent, m, n)
    ensures StandsSomewhere(e, codec, g, c, t, parent) && IsRow(e, g, c, t, parent, d.nextId)
    ensures forall j :: IsNew(d, e, j) ==> InSomeTree(e, g, c, t, parent, j)
  {
    hide NamesGrown, InTree, RowsStand;
    assert IsRow(e, g, c, t, parent, d.nextId);
  }

  lemma OneMoreTree(trees: seq<ExportInstance>, x: nat)
    requires x < |trees|
    ensures KeysOfForest(trees[..x + 1]) == KeysOfForest(trees[..x]) + KeysOf(trees[x])
  {
    hide KeyIn;
    var more := trees[..x + 1];
    forall key
      ensures KeyInForest(more, key) <==> KeyInForest(trees[..x], key) || KeyIn(trees[x], key)
    {
      if KeyInForest(trees[..x], key) {
        var y :| 0 <= y < x && KeyIn(trees[..x][y], key);
        assert more[y] == trees[..x][y];
      }
      if KeyIn(trees[x], key) {
        assert more[x] == trees[x];
      }
      if KeyInForest(more, key) && !KeyIn(trees[x], key) {
        var y :| 0 <= y < |more| && KeyIn(more[y], key);
        assert y < x && trees[..x][y] == more[y];
      }
    }
  }

  // ---- when the next one succeeds ----

  /** Parents in the catalog are older than the next id. */
  ghost predicate ParentsBelow(d: Db, c: Id) {
    forall j :: j in d.instances && d.instances[j].catalogId == c && d.instances[j].parent.Some? ==>
      d.instances[j].parent.value < d.nextId
  }

  ghost predicate NothingUnder(d: Db, c: Id, i: Id) {
    forall j :: j in d.instances && d.instances[j].catalogId == c ==> d.instances[j].parent != Some(i)
  }

  ghost predicate InScope(d: Db, g: Target, c: Id, t: ExportInstance, parent: Option<Id>, j: Id)
    requires t.entityType in g.typeIds
  {
    j in d.instances && SameScope(d.instances[j], Instance(g.typeIds[t.entityType], c, parent, t.name, t.description, 1))
  }

  lemma CreatableMeans(d: Db, g: Target, c: Id, t: ExportInstance, parent: Option<Id>)
    requires FreshData(d) && t.entityType in g.typeIds
    ensures Creatable(d, g, c, t, parent) <==> forall j :: !InScope(d, g, c, t, parent, j)
  {
    if !Creatable(d, g, c, t, parent) {
      var j :| j in d.instances && j != d.nextId
               && SameScope(d.instances[j], Instance(g.typeIds[t.entityType], c, parent, t.name, t.description, 1));
      assert InScope(d, g, c, t, parent, j);
    }
    if j :| InScope(d, g, c, t, parent, j) {
      assert j != d.nextId;
    }
  }

  /** The row of a node takes the scope of another exactly when the two share type and name. */
  lemma RowTakesScope(d: Db, g: Target, c: Id, t: ExportInstance, u: ExportInstance, parent: Option<Id>, j: Id)
    requires TargetSound(g) && t.entityType in g.typeIds && IsRow(d, g, c, u, parent, j)
    ensures InScope(d, g, c, t, parent, j) <==> SameNode(u, t)
  {
  }

  lemma StandsHasRow(e: Db, codec: TextCodec, g: Target, c: Id, t: ExportInstance, parent: Option<Id>)
    requires StandsSomewhere(e, codec, g, c, t, parent)
    ensures exists i :: IsRow(e, g, c, t, parent, i)
  {
    hide RowsStand, IsRow;
    var i :| Stands(e, codec, g, c, t, parent, i);
    assert IsRow(e, g, c, t, parent, i);
  }

  /** After some trees, the next can be created when it could before and is none of them over again. */
  lemma CreatableAfterTrees(d: Db, e: Db, codec: TextCodec, g: Target, c: Id, trees: seq<ExportInstance>, parent: Option<Id>,
                            m: map<string, Id>, n: map<string, Id>, t: ExportInstance)
    requires TargetSound(g) && FreshData(d) && FreshData(e) && Added(d, e, c) && t.entityType in g.typeIds
    requires ForestMade(d, e, codec, g, c, trees, parent, m, n) && (parent.Some? ==> parent.value < d.nextId)
    ensures Creatable(e, g, c, t, parent) <==>
              Creatable(d, g, c, t, parent) && forall x :: 0 <= x < |trees| ==> !SameNode(trees[x], t)
  {
    hide FreshData, SchemaSame, NamesGrown, StandsSomewhere, InSomeTree, IsRow, Creatable, SameNode, InScope, TargetSound;
    CreatableMeans(d, g, c, t, parent);
    CreatableMeans(e, g, c, t, parent);
    forall j
      ensures InScope(d, g, c, t, parent, j) ==> InScope(e, g, c, t, parent, j)
      ensures InScope(e, g, c, t, parent, j) ==>
                InScope(d, g, c, t, parent, j) || exists x :: 0 <= x < |trees| && SameNode(trees[x], t)
    {
      ScopeStays(d, e, g, c, t, parent, j);
      if InScope(e, g, c, t, parent, j) && !InScope(d, g, c, t, parent, j) {
        ScopeIsUnderParent(e, g, c, t, parent, j);
        var x :| 0 <= x < |trees| && IsRow(e, g, c, trees[x], parent, j);
        RowTakesScope(e, g, c, t, trees[x], parent, j);
      }
    }
    forall x | 0 <= x < |trees| && SameNode(trees[x], t)
      ensures !Creatable(e, g, c, t, parent)
    {
      StandsHasRow(e, codec, g, c, trees[x], parent);
      var i :| IsRow(e, g, c, trees[x], parent, i);
      RowTakesScope(e, g, c, t, trees[x], parent, i);
    }
  }

  lemma ScopeStays(d: Db, e: Db, g: Target, c: Id, t: ExportInstance, parent: Option<Id>, j: Id)
    requires Added(d, e, c) && t.entityType in g.typeIds
    ensures InScope(d, g, c, t, parent, j) ==> InScope(e, g, c, t, parent, j)
    ensures InScope(e, g, c, t, parent, j) && !InScope(d, g, c, t, parent, j) ==> IsNew(d, e, j)
  {
    hide SchemaSame;
  }

  lemma ScopeIsUnderParent(e: Db, g: Target, c: Id, t: ExportInstance, parent: Option<Id>, j: Id)
    requires t.entityType in g.typeIds && InScope(e, g, c, t, parent, j)
    ensures j in e.instances && e.instances[j].parent == parent && e.instances[j].catalogId == c
  {
  }

  /** Under a new row, a node can be created when it is no sibling over again. */
  lemma CreatableAfterGroups(d: Db, e: Db, codec: TextCodec, g: Target, c: Id, children: map<string, Group>, done: set<string>, i: Id,
                             m: map<string, Id>, n: map<string, Id>, t: ExportInstance)
    requires TargetSound(g) && FreshData(e) && Added(d, e, c) && t.entityType in g.typeIds && i < d.nextId
    requires NothingUnder(d, c, i) && GroupsMade(d, e, codec, g, c, children, done, i, m, n)
    ensures Creatable(e, g, c, t, Some(i)) <==>
              forall k, x {:trigger TreeAt(children, k, x)} :: k in done && TreeAt(children, k, x) ==> !SameNode(children[k].trees[x], t)
  {
    hide FreshData, SchemaSame, NamesGrown, StandsSomewhere, InSomeTree, IsRow, Creatable, SameNode, InScope, TargetSound;
    CreatableMeans(e, g, c, t, Some(i));
    forall j | InScope(e, g, c, t, Some(i), j)
      ensures exists k, x :: k in done && TreeAt(children, k, x) && SameNode(children[k].trees[x], t)
    {
      ScopeIsUnderParent(e, g, c, t, Some(i), j);
      assert IsNew(d, e, j);
      var k, x :| k in done && TreeAt(children, k, x) && IsRow(e, g, c, children[k].trees[x], Some(i), j);
      RowTakesScope(e, g, c, t, children[k].trees[x], Some(i), j);
    }
    forall k, x | k in done && TreeAt(children, k, x) && SameNode(children[k].trees[x], t)
      ensures !Creatable(e, g, c, t, Some(i))
    {
      StandsHasRow(e, codec, g, c, children[k].trees[x], Some(i));
      var j :| IsRow(e, g, c, children[k].trees[x], Some(i), j);
      RowTakesScope(e, g, c, t, children[k].trees[x], Some(i), j);
    }
  }

  lemma PlantableKnown(g: Target, t: ExportInstance)
    ensures Plantable(g, t) ==> t.entityType in g.typeIds
    ensures Plantable(g, t) <==> t.entityType in g.typeIds && GroupsPlantable(g, t.children, t.children.Keys)
  {
    hide SiblingsApart;
    if t.entityType in g.typeIds && GroupsPlantable(g, t.children, t.children.Keys) {
      forall k, x | k in t.children && 0 <= x < |t.children[k].trees|
        ensures Plantable(g, t.children[k].trees[x])
      {
        assert TreeAt(t.children, k, x);
      }
    }
  }

  /** One tree further. */
  lemma NextTreePlantable(d: Db, e: Db, codec: TextCodec, g: Target, c: Id, trees: seq<ExportInstance>, x: nat, parent: Option<Id>,
                          m: map<string, Id>, n: map<string, Id>)
    requires TargetSound(g) && FreshData(d) && FreshData(e) && Added(d, e, c) && x < |trees|
    requires (parent.Some? ==> parent.value < d.nextId) && ForestPlantable(d, g, c, trees[..x], parent)
    requires ForestMade(d, e, codec, g, c, trees[..x], parent, m, n)
    ensures Plantable(g, trees[x]) && Creatable(e, g, c, trees[x], parent) <==> ForestPlantable(d, g, c, trees[..x + 1], parent)
    ensures ForestPlantable(d, g, c, trees, parent) ==> ForestPlantable(d, g, c, trees[..x + 1], parent)
  {
    hide TargetSound, FreshData, Added, ForestMade, Plantable, Creatable, SameNode;
    var some, more := trees[..x], trees[..x + 1];
    assert more == some + [trees[x]];
    PlantableKnown(g, trees[x]);
    if Plantable(g, trees[x]) {
      CreatableAfterTrees(d, e, codec, g, c, some, parent, m, n, trees[x]);
    }
    if ForestPlantable(d, g, c, more, parent) {
      assert more[x] == trees[x];
      forall y | 0 <= y < x
        ensures !SameNode(some[y], trees[x])
      {
        assert more[y] == some[y];
      }
    }
    if ForestPlantable(d, g, c, trees, parent) {
      forall y | 0 <= y < |more|
        ensures Plantable(g, more[y]) && Creatable(d, g, c, more[y], parent)
      {
        assert more[y] == trees[y];
      }
      forall y, z | 0 <= y < z < |more|
        ensures !SameNode(more[y], more[z])
      {
        assert more[y] == trees[y] && more[z] == trees[z];
      }
    }
  }

  /** One group further. */
  lemma NextGroupPlantable(d: Db, e: Db, codec: TextCodec, g: Target, c: Id, children: map<string, Group>, done: set<string>, i: Id,
                           k: string, m: map<string, Id>, n: map<string, Id>)
    requires TargetSound(g) && FreshData(e) && Added(d, e, c) && i < d.nextId && NothingUnder(d, c, i)
    requires k in children && k !in done && GroupsPlantable(g, children, done)
    requires GroupsMade(d, e, codec, g, c, children, done, i, m, n)
    ensures ForestPlantable(e, g, c, children[k].trees, Some(i)) <==> GroupsPlantable(g, children, done + {k})
  {
    hide TargetSound, FreshData, Added, GroupsMade, Plantable, Creatable, SameNode, NothingUnder;
    var trees := children[k].trees;
    forall x | 0 <= x < |trees| && Plantable(g, trees[x])
      ensures Creatable(e, g, c, trees[x], Some(i)) <==>
                forall l, y {:trigger TreeAt(children, l, y)} :: l in done && TreeAt(children, l, y) ==> !SameNode(children[l].trees[y], trees[x])
    {
      PlantableKnown(g, trees[x]);
      CreatableAfterGroups(d, e, codec, g, c, children, done, i, m, n, trees[x]);
    }
    if ForestPlantable(e, g, c, trees, Some(i)) {
      ForestExtendsGroups(g, children, done, k);
    }
    if GroupsPlantable(g, children, done + {k}) {
      forall x | 0 <= x < |trees|
        ensures Plantable(g, trees[x]) && Creatable(e, g, c, trees[x], Some(i))
      {
        assert TreeAt(children, k, x);
      }
      forall x, y | 0 <= x < y < |trees|
        ensures !SameNode(trees[x], trees[y])
      {
        assert TreeAt(children, k, x) && TreeAt(children, k, y);
      }
    }
  }

  lemma ForestExtendsGroups(g: Target, children: map<string, Group>, done: set<string>, k: string)
    requires k in children && k !in done && GroupsPlantable(g, children, done)
    requires forall x :: 0 <= x < |children[k].trees| ==> Plantable(g, children[k].trees[x])
    requires forall x, y :: 0 <= x < y < |children[k].trees| ==> !SameNode(children[k].trees[x], children[k].trees[y])
    requires forall x, l, y :: 0 <= x < |children[k].trees| && l in done && TreeAt(children, l, y) ==>
               !SameNode(children[l].trees[y], children[k].trees[x])
    ensures GroupsPlantable(g, children, done + {k})
  {
    hide Plantable;
    forall p, x, q, y | p in done + {k} && q in done + {k} && TreeAt(children, p, x) && TreeAt(children, q, y)
                        && SameNode(children[p].trees[x], children[q].trees[y])
      ensures p == q && x == y
    {
    }
  }

  lemma FewerGroupsPlantable(g: Target, children: map<string, Group>, some: set<string>, all: set<string>)
    requires some <= all && GroupsPlantable(g, children, all)
    ensures GroupsPlantable(g, children, some)
  {
    hide Plantable, SameNode;
  }

  // ---- a new catalog ----

  /** What a new catalog takes: the types are known, and siblings, roots included, are told apart
      by type and name. */
  ghost predicate Accepted(g: Target, forest: seq<ExportInstance>) {
    && (forall x :: 0 <= x < |forest| ==> Plantable(g, forest[x]))
    && forall x, y :: 0 <= x < y < |forest| ==> !SameNode(forest[x], forest[y])
  }

  lemma EmptyCatalogAccepts(d: Db, g: Target, c: Id, forest: seq<ExportInstance>)
    requires FreshData(d) && forall i :: i in d.instances ==> d.instances[i].catalogId != c
    ensures ForestPlantable(d, g, c, forest, None) <==> Accepted(g, forest)
  {
    hide SameNode, Plantable, Creatable;
    forall x | 0 <= x < |forest| && Plantable(g, forest[x])
      ensures Creatable(d, g, c, forest[x], None)
    {
      PlantableKnown(g, forest[x]);
      CreatableMeans(d, g, c, forest[x], None);
    }
  }

  /** Every node of the forest has its row, every new row is the row of a node, and every key
      names a new row of its type and name. */
  ghost predicate RowsOf(d: Db, e: Db, codec: TextCodec, g: Target, c: Id, forest: seq<ExportInstance>, names: map<string, Id>) {
    && (forall x :: 0 <= x < |forest| ==> StandsSomewhere(e, codec, g, c, forest[x], None))
    && (forall j {:trigger IsNew(d, e, j)} :: IsNew(d, e, j) ==>
          exists x :: 0 <= x < |forest| && InSomeTree(e, g, c, forest[x], None, j))
    && NamesGrown(d, e, g, map[], names, KeysOfForest(forest))
  }

  /** The links that follow leave the rows as they were made. */
  lemma MadeAreRows(d: Db, mid: Db, e: Db, f: Db, codec: TextCodec, g: Target, c: Id, forest: seq<ExportInstance>,
                    names: map<string, Id>)
    requires mid.instances == d.instances && FreshData(e) && RowsKept(e, f) && f.instances == e.instances
    requires ForestMade(mid, e, codec, g, c, forest, None, map[], names)
    ensures RowsOf(d, f, codec, g, c, forest, names)
  {
    hide FreshData, RowsKept, StandsSomewhere, InSomeTree, IsRow, KeysOfForest, KeyOfRow;
    forall x | 0 <= x < |forest|
      ensures StandsSomewhere(f, codec, g, c, forest[x], None)
    {
      StandsSomewhereStill(e, f, codec, g, c, forest[x], None);
    }
    forall j | IsNew(d, f, j)
      ensures exists x :: 0 <= x < |forest| && InSomeTree(f, g, c, forest[x], None, j)
    {
      assert IsNew(mid, e, j);
      var x :| 0 <= x < |forest| && InSomeTree(e, g, c, forest[x], None, j);
      InSomeTreeStill(e, f, g, c, forest[x], None, j);
    }
    forall key | key in KeysOfForest(forest) && key in names
      ensures names[key] !in d.instances && KeyOfRow(f, g, names[key], key)
    {
      KeyStays(e, f, g, names[key], key);
    }
  }

  lemma KeyStays(e: Db, f: Db, g: Target, i: Id, key: string)
    requires f.instances == e.instances
    ensures KeyOfRow(e, g, i, key) ==> KeyOfRow(f, g, i, key)
  {
  }
}
