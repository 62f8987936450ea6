/** Exporting a catalog's instances: one tree per root, each instance below its parent, with
    its non-empty values and its links by name. */
module CatalogExport {
  import opened Domain
  import opened Database
  import opened Conformance
  import opened Forest
  import opened Containment
  import opened Trees
  import opened Instances
  import opened Partition
  import opened ExportJson
  import opened ExportTree

  /** Which association names the children of a type under a parent of another. */
  type Holders = map<(Id, Id), string>

  // ---- keys ----

  function InstanceKey(s: Scene, i: Id): string
    requires i in s.members && s.members[i].typeId in s.typeName
  {
    KeyText(s.typeName[s.members[i].typeId], s.members[i].name)
  }

  /** Every instance's type is exported, and "names" tells the instances apart by type and name. */
  ghost predicate Ready(s: Scene, names: map<string, Id>) {
    && (forall i :: i in s.members ==>
          s.members[i].typeId in s.typeName && InstanceKey(s, i) in names && names[InstanceKey(s, i)] == i)
    && (forall key :: key in names ==> names[key] in s.members && s.members[names[key]].typeId in s.typeName
                                       && InstanceKey(s, names[key]) == key)
  }

  lemma ReadyMeans(s: Scene, names: map<string, Id>)
    requires Ready(s, names)
    ensures ExportTree.DistinctIds(names) && names.Values == s.members.Keys
  {
    forall i | i in s.members
      ensures i in names.Values
    {
      assert names[InstanceKey(s, i)] == i;
    }
  }

  // ---- values ----

  method BuildAttributes(s: Scene, codec: TextCodec, i: Id) returns (shown: map<string, Json>)
    requires i in s.members && s.members[i].typeId in s.versionOf && UniqueAttributeNames(s.attributes)
    ensures ShowsAttributes(s, codec, i, shown)
  {
    hide ExportValue;
    shown := map[];
    var all := set a | a in s.attributes && s.attributes[a].versionId == s.versionOf[s.members[i].typeId];
    var todo := all;
    while todo != {}
      invariant todo <= all
      invariant forall n :: n in shown ==> exists a :: a in all - todo && s.attributes[a].name == n
      invariant forall a :: a in all - todo ==>
                  var n := s.attributes[a].name;
                  if ExportedAt(s, codec, i, a).Some? then n in shown && shown[n] == ExportedAt(s, codec, i, a).value
                  else n !in shown
      decreases todo
    {
      var a :| a in todo;
      var n := s.attributes[a].name;
      forall b | b in all && b != a
        ensures s.attributes[b].name != n
      {
        assert !SameSlot(s.attributes[a], s.attributes[b]);
      }
      var value := ExportedAt(s, codec, i, a);
      if value.Some? {
        shown := shown[n := value.value];
      }
      todo := todo - {a};
    }
    assert forall a :: AttributeHere(s, i, a) <==> a in all;
  }

  // ---- links ----

  /** The entries so far stand for the links handled. */
  ghost predicate LinksSoFar(s: Scene, names: map<string, Id>, i: Id, links: seq<ExportLink>, done: set<Id>) {
    && (forall k :: 0 <= k < |links| ==> TargetKey(links[k]) in names)
    && forall name: string, key: string {:trigger CountLinks(links, name, key)} :: key in names ==>
         CountLinks(links, name, key) == |LinkSet(s, i, name, names[key]) * done|
  }

  lemma CountMore(links: seq<ExportLink>, l: ExportLink, name: string, key: string)
    ensures CountLinks(links + [l], name, key) ==
            CountLinks(links, name, key) + if l.association == name && TargetKey(l) == key then 1 else 0
  {
    assert (links + [l])[..|links|] == links;
  }

  lemma LinkShown(s: Scene, names: map<string, Id>, i: Id, links: seq<ExportLink>, done: set<Id>, l: Id, entry: ExportLink)
    requires Ready(s, names) && LinksSoFar(s, names, i, links, done) && l !in done
    requires l in s.links && s.links[l].source == i && s.links[l].target in s.members
    requires s.links[l].assoc in s.associations && !s.associations[s.links[l].assoc].kind.Containment?
    requires entry.association == s.associations[s.links[l].assoc].name && TargetKey(entry) == InstanceKey(s, s.links[l].target)
    ensures LinksSoFar(s, names, i, links + [entry], done + {l})
  {
    hide CountLinks, LinkSet, TargetKey, InstanceKey;
    var more := links + [entry];
    ReadyTarget(s, names, s.links[l].target);
    forall name: string, key: string | key in names
      ensures CountLinks(more, name, key) == |LinkSet(s, i, name, names[key]) * (done + {l})|
    {
      CountMore(links, entry, name, key);
      var count := CountLinks(links, name, key);
      assert count == |LinkSet(s, i, name, names[key]) * done|;
      LinkCounted(s, i, done, l, name, names[key]);
      ReadyKey(s, names, key);
    }
  }

  lemma ReadyTarget(s: Scene, names: map<string, Id>, j: Id)
    requires Ready(s, names) && j in s.members
    ensures s.members[j].typeId in s.typeName && InstanceKey(s, j) in names && names[InstanceKey(s, j)] == j
  {
  }

  lemma ReadyKey(s: Scene, names: map<string, Id>, key: string)
    requires Ready(s, names) && key in names
    ensures names[key] in s.members && s.members[names[key]].typeId in s.typeName && InstanceKey(s, names[key]) == key
  {
  }

  lemma LinkCounted(s: Scene, i: Id, done: set<Id>, l: Id, name: string, j: Id)
    requires l in s.links && s.links[l].source == i && l !in done && s.links[l].assoc in s.associations
    requires !s.associations[s.links[l].assoc].kind.Containment?
    ensures |LinkSet(s, i, name, j) * (done + {l})| == |LinkSet(s, i, name, j) * done|
              + if s.associations[s.links[l].assoc].name == name && s.links[l].target == j then 1 else 0
  {
    var all := LinkSet(s, i, name, j);
    assert all * (done + {l}) == if l in all then all * done + {l} else all * done;
  }

  lemma LinkSkipped(s: Scene, names: map<string, Id>, i: Id, links: seq<ExportLink>, done: set<Id>, l: Id)
    requires Ready(s, names) && LinksSoFar(s, names, i, links, done) && l in s.links
    requires s.links[l].assoc !in s.associations || s.associations[s.links[l].assoc].kind.Containment?
             || s.links[l].target !in s.members
    ensures LinksSoFar(s, names, i, links, done + {l})
  {
    hide CountLinks, InstanceKey;
    forall name: string, key: string | key in names
      ensures CountLinks(links, name, key) == |LinkSet(s, i, name, names[key]) * (done + {l})|
    {
      var count := CountLinks(links, name, key);
      assert count == |LinkSet(s, i, name, names[key]) * done|;
      assert l !in LinkSet(s, i, name, names[key]);
      assert LinkSet(s, i, name, names[key]) * (done + {l}) == LinkSet(s, i, name, names[key]) * done;
    }
  }

  /** The path holds the names of the ancestors, the topmost first, up to a root or an instance met
      before. */
  ghost predicate IsPathTo(m: map<Id, Instance>, j: Id, path: seq<string>) {
    && AncestorNames(m, j, path)
    && var next := Up(m, j, |path| + 1); next.None? || next.value !in m || Passed(m, j, |path|, next.value)
  }

  /** The entry is that of a link: its association and its target by name, and the way there. */
  ghost predicate IsEntryOf(s: Scene, i: Id, l: Id, entry: ExportLink) {
    && l in s.links && s.links[l].source == i && s.links[l].assoc in s.associations
    && !s.associations[s.links[l].assoc].kind.Containment? && s.links[l].target in s.members
    && var j := s.links[l].target;
       && s.members[j].typeId in s.typeName && entry.targetType == s.typeName[s.members[j].typeId]
       && entry.association == s.associations[s.links[l].assoc].name && entry.targetName == s.members[j].name
       && IsPathTo(s.members, j, entry.targetPath)
  }

  ghost predicate StandsForLink(s: Scene, i: Id, entry: ExportLink) {
    exists l :: IsEntryOf(s, i, l, entry)
  }

  ghost predicate EntriesOf(s: Scene, i: Id, links: seq<ExportLink>) {
    forall k :: 0 <= k < |links| ==> StandsForLink(s, i, links[k])
  }

  lemma LinkStoodFor(s: Scene, i: Id, l: Id, entry: ExportLink)
    requires IsEntryOf(s, i, l, entry)
    ensures StandsForLink(s, i, entry)
  {
    hide IsEntryOf;
  }

  lemma PathFound(m: map<Id, Instance>, j: Id, path: seq<string>)
    requires AncestorNames(m, j, path)
    requires var next := Up(m, j, |path| + 1); next.None? || next.value !in m || Passed(m, j, |path|, next.value)
    ensures IsPathTo(m, j, path)
  {
  }

  lemma NoPathToRoot(m: map<Id, Instance>, j: Id)
    requires j in m && m[j].parent.None?
    ensures IsPathTo(m, j, [])
  {
    assert Up(m, j, 1) == None by {
      assert Up(m, j, 0) == Some(j);
    }
  }

  /** Links of unknown associations, containments, and links that leave the catalog or the
      exported types are passed over. A contained target also gets its path. */
  method BuildLinks(s: Scene, i: Id, ghost names: map<string, Id>) returns (links: seq<ExportLink>)
    requires i in s.members
    ensures Ready(s, names) ==> ShowsLinks(s, names, i, links)
    ensures EntriesOf(s, i, links)
  {
    hide ShowsLinks, LinksSoFar, Ready, Split, CountLinks, IsPathTo, StandsForLink;
    links := [];
    var refs := set l | l in s.links && s.links[l].source == i;
    var todo := refs;
    ghost var done: set<Id> := {};
    SplitEnds(done, refs);
    NoLinksYet(s, names, i);
    while todo != {}
      invariant Split(done, todo, refs)
      invariant EntriesOf(s, i, links)
      invariant Ready(s, names) ==> LinksSoFar(s, names, i, links, done)
      decreases todo
    {
      var l :| l in todo;
      SplitMoves(done, todo, refs, l);
      var link := s.links[l];
      if link.assoc !in s.associations || s.associations[link.assoc].kind.Containment? || link.target !in s.members {
        if Ready(s, names) {
          LinkSkipped(s, names, i, links, done, l);
        }
      } else if s.members[link.target].typeId !in s.typeName {
        if Ready(s, names) {
          TypeIsExported(s, names, link.target);
        }
      } else {
        var target := s.members[link.target];
        var path: seq<string> := [];
        if target.parent.Some? {
          path := BuildParentPath(s.members, link.target);
          PathFound(s.members, link.target, path);
        } else {
          NoPathToRoot(s.members, link.target);
        }
        var entry := ExportLink(s.associations[link.assoc].name, s.typeName[target.typeId], target.name, path);
        if Ready(s, names) {
          LinkShown(s, names, i, links, done, l, entry);
        }
        assert IsEntryOf(s, i, l, entry);
        LinkStoodFor(s, i, l, entry);
        links := links + [entry];
      }
      todo, done := todo - {l}, done + {l};
    }
    SplitEnds(done, refs);
    if Ready(s, names) {
      AllLinksShown(s, names, i, links, refs);
    }
  }

  lemma NoLinksYet(s: Scene, names: map<string, Id>, i: Id)
    ensures LinksSoFar(s, names, i, [], {})
  {
    forall name: string, key: string | key in names
      ensures |LinkSet(s, i, name, names[key]) * {}| == 0
    {
      assert LinkSet(s, i, name, names[key]) * {} == {};
    }
  }

  lemma TypeIsExported(s: Scene, names: map<string, Id>, i: Id)
    requires Ready(s, names) && i in s.members
    ensures s.members[i].typeId in s.typeName
  {
  }

  lemma AllLinksShown(s: Scene, names: map<string, Id>, i: Id, links: seq<ExportLink>, refs: set<Id>)
    requires LinksSoFar(s, names, i, links, refs) && refs == set l | l in s.links && s.links[l].source == i
    ensures ShowsLinks(s, names, i, links)
  {
    hide CountLinks;
    forall name: string, key: string | key in names
      ensures CountLinks(links, name, key) == |LinkSet(s, i, name, names[key])|
    {
      var count := CountLinks(links, name, key);
      assert count == |LinkSet(s, i, name, names[key]) * refs|;
      assert LinkSet(s, i, name, names[key]) * refs == LinkSet(s, i, name, names[key]);
    }
  }

  // ---- trees ----

  predicate TreeAt(children: map<string, Group>, k: string, x: int) {
    k in children && 0 <= x < |children[k].trees|
  }

  ghost predicate KeyAt(children: map<string, Group>, k: string, x: int, key: string) {
    TreeAt(children, k, x) && KeyIn(children[k].trees[x], key)
  }

  /** No key is in two of the trees. */
  ghost predicate ChildrenApart(children: map<string, Group>) {
    forall k, x, l, y, key {:trigger KeyAt(children, k, x, key), KeyAt(children, l, y, key)} ::
      KeyAt(children, k, x, key) && KeyAt(children, l, y, key) ==> k == l && x == y
  }

  /** No key is in the tree twice. */
  ghost predicate DistinctKeys(t: ExportInstance)
    decreases t
  {
    && ChildrenApart(t.children)
    && forall k, x :: k in t.children && 0 <= x < |t.children[k].trees| ==>
         DistinctKeys(t.children[k].trees[x]) && !KeyIn(t.children[k].trees[x], NodeKey(t))
  }

  /** The tree stands for an instance and everything below it, each once. */
  ghost predicate Built(s: Scene, codec: TextCodec, names: map<string, Id>, i: Id, t: ExportInstance, parent: Option<Id>) {
    && DepictsNodes(s, codec, names, t, parent) && DepictsLinks(s, names, t) && DistinctKeys(t)
    && (forall key :: KeyIn(t, key) <==> key in names && names[key] in Subtree(s.members, i))
  }

  /** The groups stand for the children handled. */
  ghost predicate ChildrenBuilt(s: Scene, codec: TextCodec, names: map<string, Id>, i: Id, children: map<string, Group>,
                                done: set<Id>) {
    && (forall k, x {:trigger TreeAt(children, k, x)} :: TreeAt(children, k, x) ==>
          && DepictsNodes(s, codec, names, children[k].trees[x], Some(i))
          && DepictsLinks(s, names, children[k].trees[x]) && DistinctKeys(children[k].trees[x]))
    && (forall key :: (exists k, x :: KeyAt(children, k, x, key)) <==> key in names && UnderSome(s.members, done, names[key]))
    && ChildrenApart(children)
    && forall k :: k in children ==> children[k].trees != []
  }

  function Appended(children: map<string, Group>, k: string, t: ExportInstance): map<string, Group> {
    children[k := Group((if k in children then children[k].trees else []) + [t])]
  }

  lemma AppendedAt(children: map<string, Group>, n: string, t: ExportInstance, k: string, x: int)
    ensures TreeAt(Appended(children, n, t), k, x) <==>
              TreeAt(children, k, x) || (k == n && x == if n in children then |children[n].trees| else 0)
    ensures TreeAt(children, k, x) ==> Appended(children, n, t)[k].trees[x] == children[k].trees[x]
    ensures k == n && x == (if n in children then |children[n].trees| else 0) ==> Appended(children, n, t)[k].trees[x] == t
  {
  }

  lemma ChildAppended(s: Scene, codec: TextCodec, names: map<string, Id>, i: Id, children: map<string, Group>, done: set<Id>,
                      c: Id, n: string, t: ExportInstance)
    requires ChildrenBuilt(s, codec, names, i, children, done) && Built(s, codec, names, c, t, Some(i))
    requires forall d :: d in done ==> Subtree(s.members, c) !! Subtree(s.members, d)
    ensures ChildrenBuilt(s, codec, names, i, Appended(children, n, t), done + {c})
  {
    hide DepictsNodes, DepictsLinks, DistinctKeys, Appended, KeyIn, Subtree;
    var more := Appended(children, n, t);
    var last := if n in children then |children[n].trees| else 0;
    forall k, x
      ensures TreeAt(more, k, x) <==> TreeAt(children, k, x) || (k == n && x == last)
      ensures TreeAt(children, k, x) ==> TreeAt(more, k, x) && more[k].trees[x] == children[k].trees[x]
      ensures k == n && x == last ==> TreeAt(more, k, x) && more[k].trees[x] == t
    {
      AppendedAt(children, n, t, k, x);
    }
    forall k, x, key
      ensures KeyAt(more, k, x, key) <==> KeyAt(children, k, x, key) || (k == n && x == last && KeyIn(t, key))
    {
      assert TreeAt(more, k, x) <==> TreeAt(children, k, x) || (k == n && x == last);
    }
    KeysAppended(s, names, children, more, done, c, n, last, t);
    forall k | k in more
      ensures more[k].trees != []
    {
      GroupAppended(children, n, t, k);
    }
  }

  lemma GroupAppended(children: map<string, Group>, n: string, t: ExportInstance, k: string)
    requires k in Appended(children, n, t)
    ensures (k in children && children[k].trees != []) || k == n ==> Appended(children, n, t)[k].trees != []
    ensures k in children || k == n
  {
  }

  lemma KeysAppended(s: Scene, names: map<string, Id>, children: map<string, Group>, more: map<string, Group>, done: set<Id>,
                     c: Id, n: string, last: int, t: ExportInstance)
    requires forall k, x, key :: KeyAt(more, k, x, key) <==> KeyAt(children, k, x, key) || (k == n && x == last && KeyIn(t, key))
    requires !TreeAt(children, n, last)
    requires forall key :: (exists k, x :: KeyAt(children, k, x, key)) <==> key in names && UnderSome(s.members, done, names[key])
    requires forall key :: KeyIn(t, key) <==> key in names && names[key] in Subtree(s.members, c)
    requires forall d :: d in done ==> Subtree(s.members, c) !! Subtree(s.members, d)
    requires ChildrenApart(children)
    ensures forall key :: (exists k, x :: KeyAt(more, k, x, key)) <==> key in names && UnderSome(s.members, done + {c}, names[key])
    ensures ChildrenApart(more)
  {
    hide KeyIn, Subtree, KeyAt;
    forall key
      ensures (exists k, x :: KeyAt(more, k, x, key)) <==> key in names && UnderSome(s.members, done + {c}, names[key])
    {
      if k, x :| KeyAt(children, k, x, key) {
        assert KeyAt(more, k, x, key);
      }
      if KeyIn(t, key) {
        assert KeyAt(more, n, last, key);
      }
    }
    forall k, x, l, y, key | KeyAt(more, k, x, key) && KeyAt(more, l, y, key)
      ensures k == l && x == y
    {
      if KeyIn(t, key) {
        NotAmongOthers(s, names, done, c, key);
        assert !KeyAt(children, k, x, key) && !KeyAt(children, l, y, key);
      }
    }
  }

  lemma NotAmongOthers(s: Scene, names: map<string, Id>, done: set<Id>, c: Id, key: string)
    requires key in names && names[key] in Subtree(s.members, c)
    requires forall d :: d in done ==> Subtree(s.members, c) !! Subtree(s.members, d)
    ensures !UnderSome(s.members, done, names[key])
  {
    hide Subtree;
  }

  // ---- what a reader of the file needs ----

  /** Types have names, and a containment with a name holds every contained instance. */
  ghost predicate Labelled(s: Scene, holders: Holders, kinds: map<string, string>) {
    && (forall i :: i in s.members && s.members[i].typeId in s.typeName ==> s.typeName[s.members[i].typeId] != "")
    && forall p, i :: p in s.members && i in s.members && s.members[i].parent == Some(p) ==> Held(s, holders, kinds, p, i)
  }

  ghost predicate Held(s: Scene, holders: Holders, kinds: map<string, string>, p: Id, i: Id)
    requires p in s.members && i in s.members
  {
    var key := (s.members[p].typeId, s.members[i].typeId);
    key in holders && holders[key] != "" && holders[key] in kinds
  }

  ghost predicate ChildrenPlain(children: map<string, Group>, kinds: map<string, string>) {
    forall k :: k in children ==> GroupPlain(children, kinds, k)
  }

  ghost predicate GroupPlain(children: map<string, Group>, kinds: map<string, string>, k: string)
    requires k in children
  {
    && k in kinds && children[k].trees != []
    && forall x :: 0 <= x < |children[k].trees| ==> Plain(children[k].trees[x], kinds)
  }

  lemma PlainAppended(children: map<string, Group>, kinds: map<string, string>, n: string, t: ExportInstance)
    requires ChildrenPlain(children, kinds) && n in kinds && Plain(t, kinds)
    ensures ChildrenPlain(Appended(children, n, t), kinds)
  {
    hide Plain;
    assert n in children ==> GroupPlain(children, kinds, n);
  }

  lemma NodePlain(t: ExportInstance, kinds: map<string, string>)
    requires ChildrenPlain(t.children, kinds) && t.entityType != ""
    ensures Plain(t, kinds)
  {
    forall key | key in t.children
      ensures key in kinds && t.children[key].trees != []
      ensures forall k :: 0 <= k < |t.children[key].trees| ==> Plain(t.children[key].trees[k], kinds)
    {
      assert GroupPlain(t.children, kinds, key);
    }
  }

  lemma TypeIsLabelled(s: Scene, holders: Holders, kinds: map<string, string>, i: Id)
    requires Labelled(s, holders, kinds) && i in s.members && s.members[i].typeId in s.typeName
    ensures s.typeName[s.members[i].typeId] != ""
  {
  }

  lemma ChildIsHeld(s: Scene, holders: Holders, kinds: map<string, string>, p: Id, i: Id)
    requires Labelled(s, holders, kinds) && p in s.members && i in s.members && s.members[i].parent == Some(p)
    ensures Held(s, holders, kinds, p, i)
  {
  }

  // ---- the recursion ----

  /** One instance with everything below it; nothing for an instance whose type is not exported. */
  method BuildInstance(s: Scene, codec: TextCodec, holders: Holders, i: Id, ghost names: map<string, Id>,
                       ghost kinds: map<string, string>)
    returns (res: Option<ExportInstance>)
    requires i in s.members && Buildable(s.members, Some(i)) && UniqueAttributeNames(s.attributes)
    requires s.typeName.Keys <= s.versionOf.Keys
    ensures res.None? <==> s.members[i].typeId !in s.typeName
    ensures Ready(s, names) ==> res.Some? && Built(s, codec, names, i, res.value, s.members[i].parent)
    ensures Labelled(s, holders, kinds) && res.Some? ==> Plain(res.value, kinds)
    decreases Below(s.members, Some(i)), 1
  {
    hide Ready, Built, ChildrenBuilt, ShowsAttributes, ShowsLinks, Buildable, UniqueAttributeNames, Below, Labelled, Plain,
         ChildrenPlain;
    var inst := s.members[i];
    if inst.typeId !in s.typeName {
      if Ready(s, names) {
        TypeIsExported(s, names, i);
      }
      return None;
    }
    var shown := BuildAttributes(s, codec, i);
    var links := BuildLinks(s, i, names);
    var children := BuildChildren(s, codec, holders, i, names, kinds);
    var t := ExportInstance(s.typeName[inst.typeId], inst.name, inst.description, shown, links, children);
    if Ready(s, names) {
      NodeBuilt(s, codec, names, i, t);
    }
    if Labelled(s, holders, kinds) {
      TypeIsLabelled(s, holders, kinds, i);
      NodePlain(t, kinds);
    }
    return Some(t);
  }

  method BuildChildren(s: Scene, codec: TextCodec, holders: Holders, i: Id, ghost names: map<string, Id>,
                       ghost kinds: map<string, string>)
    returns (children: map<string, Group>)
    requires i in s.members && Buildable(s.members, Some(i)) && UniqueAttributeNames(s.attributes)
    requires s.typeName.Keys <= s.versionOf.Keys
    ensures Ready(s, names) ==> ChildrenBuilt(s, codec, names, i, children, ListedUnder(s.members, Some(i)))
    ensures Labelled(s, holders, kinds) ==> ChildrenPlain(children, kinds)
    decreases Below(s.members, Some(i)), 0
  {
    hide Ready, Built, ChildrenBuilt, Buildable, UniqueAttributeNames, Below, Split, Appended, ListedUnder, Labelled, Plain,
         ChildrenPlain;
    children := map[];
    var all := ListedUnder(s.members, Some(i));
    var todo := all;
    ghost var done: set<Id> := {};
    SplitEnds(done, all);
    NothingBuilt(s, codec, names, i);
    NothingPlain(kinds);
    while todo != {}
      invariant Split(done, todo, all)
      invariant Ready(s, names) ==> ChildrenBuilt(s, codec, names, i, children, done)
      invariant Labelled(s, holders, kinds) ==> ChildrenPlain(children, kinds)
      decreases todo
    {
      var c :| c in todo;
      SplitMoves(done, todo, all, c);
      ListedIsMember(s, i, c);
      ChildFacts(s.members, Some(i), c);
      var child := BuildInstance(s, codec, holders, c, names, kinds);
      if child.Some? {
        var key := (s.members[i].typeId, s.members[c].typeId);
        var n := if key in holders && holders[key] != "" then holders[key] else "children";
        if Ready(s, names) {
          DoneApart(s, i, done, todo, all, c);
          ChildAppended(s, codec, names, i, children, done, c, n, child.value);
        }
        if Labelled(s, holders, kinds) {
          ChildIsHeld(s, holders, kinds, i, c);
          PlainAppended(children, kinds, n, child.value);
        }
        children := Appended(children, n, child.value);
      }
      todo, done := todo - {c}, done + {c};
    }
    SplitEnds(done, all);
  }

  lemma NothingPlain(kinds: map<string, string>)
    ensures ChildrenPlain(map[], kinds)
  {
  }

  lemma NothingBuilt(s: Scene, codec: TextCodec, names: map<string, Id>, i: Id)
    ensures ChildrenBuilt(s, codec, names, i, map[], {})
  {
  }

  lemma ListedIsMember(s: Scene, i: Id, c: Id)
    requires c in ListedUnder(s.members, Some(i))
    ensures c in s.members && s.members[c].parent == Some(i)
  {
  }

  lemma DoneApart(s: Scene, i: Id, done: set<Id>, todo: set<Id>, all: set<Id>, c: Id)
    requires Buildable(s.members, Some(i)) && all == ListedUnder(s.members, Some(i))
    requires Split(done, todo, all) && c in todo
    ensures forall d :: d in done ==> Subtree(s.members, c) !! Subtree(s.members, d)
  {
    hide Subtree, Buildable, ListedUnder;
    forall d | d in done
      ensures Subtree(s.members, c) !! Subtree(s.members, d)
    {
      ListedAreDisjoint(s.members, Some(i), c, d);
    }
  }

  /** The node, its children below it. */
  lemma NodeBuilt(s: Scene, codec: TextCodec, names: map<string, Id>, i: Id, t: ExportInstance)
    requires i in s.members && Buildable(s.members, Some(i)) && Ready(s, names)
    requires s.members[i].typeId in s.typeName && s.typeName[s.members[i].typeId] == t.entityType
    requires t.name == s.members[i].name && t.description == s.members[i].description
    requires ShowsAttributes(s, codec, i, t.attributes) && ShowsLinks(s, names, i, t.links)
    requires ChildrenBuilt(s, codec, names, i, t.children, ListedUnder(s.members, Some(i)))
    ensures Built(s, codec, names, i, t, s.members[i].parent)
  {
    hide ShowsAttributes, ShowsLinks, Buildable, ListedUnder, Subtree;
    assert NodeKey(t) == InstanceKey(s, i) && names[NodeKey(t)] == i;
    NodeDepicts(s, codec, names, i, t);
    forall key
      ensures KeyIn(t, key) <==> key in names && names[key] in Subtree(s.members, i)
    {
      NodeKeys(s, names, codec, i, t, key);
    }
    NodeDistinct(s, codec, names, i, t);
  }

  lemma NodeDepicts(s: Scene, codec: TextCodec, names: map<string, Id>, i: Id, t: ExportInstance)
    requires NodeKey(t) in names && names[NodeKey(t)] == i && i in s.members
    requires s.members[i].typeId in s.typeName && s.typeName[s.members[i].typeId] == t.entityType
    requires t.name == s.members[i].name && t.description == s.members[i].description
    requires ShowsAttributes(s, codec, i, t.attributes) && ShowsLinks(s, names, i, t.links)
    requires ChildrenBuilt(s, codec, names, i, t.children, ListedUnder(s.members, Some(i)))
    ensures DepictsNodes(s, codec, names, t, s.members[i].parent) && DepictsLinks(s, names, t)
  {
    hide ShowsAttributes, ShowsLinks, ListedUnder, DistinctKeys, ChildrenApart, KeyIn;
    forall k, x | k in t.children && 0 <= x < |t.children[k].trees|
      ensures DepictsNodes(s, codec, names, t.children[k].trees[x], Some(i)) && DepictsLinks(s, names, t.children[k].trees[x])
    {
      assert TreeAt(t.children, k, x);
    }
  }

  lemma NodeKeys(s: Scene, names: map<string, Id>, codec: TextCodec, i: Id, t: ExportInstance, key: string)
    requires i in s.members && NodeKey(t) in names && names[NodeKey(t)] == i && Ready(s, names)
    requires Buildable(s.members, Some(i))
    requires ChildrenBuilt(s, codec, names, i, t.children, ListedUnder(s.members, Some(i)))
    ensures KeyIn(t, key) <==> key in names && names[key] in Subtree(s.members, i)
    ensures (exists k, x :: KeyAt(t.children, k, x, key)) ==> key != NodeKey(t)
  {
    hide Subtree, Buildable, DepictsNodes, DepictsLinks, DistinctKeys, ChildrenApart, Ready;
    ReadyMeans(s, names);
    assert KeyIn(t, key) <==> key == NodeKey(t) || exists k, x :: KeyAt(t.children, k, x, key) by {
      KeyInUnfolds(t, key);
    }
    RootedIsOffCycleAt(s, i);
    if key in names {
      SubtreeUnfolds(s.members, i, names[key]);
      assert UnderSome(s.members, ListedUnder(s.members, Some(i)), names[key]) <==>
             exists c :: c in ChildrenIn(s.members, i) && names[key] in Subtree(s.members, c);
      if c :| c in ChildrenIn(s.members, i) && names[key] in Subtree(s.members, c) {
        ChildSubtreeShrinks(s.members, i, c);
      }
    }
  }

  lemma RootedIsOffCycleAt(s: Scene, i: Id)
    requires Buildable(s.members, Some(i))
    ensures OffCycle(s.members, i)
  {
    RootedIsOffCycle(s.members, i);
  }

  lemma KeyInUnfolds(t: ExportInstance, key: string)
    ensures KeyIn(t, key) <==> key == NodeKey(t) || exists k, x :: KeyAt(t.children, k, x, key)
  {
    if KeyIn(t, key) && key != NodeKey(t) {
      var k, x :| k in t.children && 0 <= x < |t.children[k].trees| && KeyIn(t.children[k].trees[x], key);
      assert KeyAt(t.children, k, x, key);
    }
  }

  lemma NodeDistinct(s: Scene, codec: TextCodec, names: map<string, Id>, i: Id, t: ExportInstance)
    requires i in s.members && NodeKey(t) in names && names[NodeKey(t)] == i && Ready(s, names)
    requires Buildable(s.members, Some(i))
    requires ChildrenBuilt(s, codec, names, i, t.children, ListedUnder(s.members, Some(i)))
    ensures DistinctKeys(t)
  {
    hide Subtree, Buildable, DepictsNodes, DepictsLinks, Ready, ListedUnder, KeyIn;
    forall k, x | k in t.children && 0 <= x < |t.children[k].trees|
      ensures DistinctKeys(t.children[k].trees[x]) && !KeyIn(t.children[k].trees[x], NodeKey(t))
    {
      assert TreeAt(t.children, k, x);
      NodeKeys(s, names, codec, i, t, NodeKey(t));
      assert !KeyAt(t.children, k, x, NodeKey(t));
    }
  }

  // ---- the forest ----

  /** The trees stand for the roots handled. */
  ghost predicate RootsBuilt(s: Scene, codec: TextCodec, names: map<string, Id>, forest: seq<ExportInstance>, done: set<Id>) {
    && (forall x :: 0 <= x < |forest| ==>
          DepictsNodes(s, codec, names, forest[x], None) && DepictsLinks(s, names, forest[x]) && DistinctKeys(forest[x]))
    && (forall key :: KeyInForest(forest, key) <==> key in names && UnderSome(s.members, done, names[key]))
    && ForestApart(forest)
  }

  ghost predicate ForestApart(forest: seq<ExportInstance>) {
    forall x, y, key {:trigger KeyIn(forest[x], key), KeyIn(forest[y], key)} ::
      0 <= x < |forest| && 0 <= y < |forest| && KeyIn(forest[x], key) && KeyIn(forest[y], key) ==> x == y
  }

  lemma RootAppended(s: Scene, codec: TextCodec, names: map<string, Id>, forest: seq<ExportInstance>, done: set<Id>, c: Id,
                     t: ExportInstance)
    requires RootsBuilt(s, codec, names, forest, done) && Built(s, codec, names, c, t, None)
    requires forall d :: d in done ==> Subtree(s.members, c) !! Subtree(s.members, d)
    ensures RootsBuilt(s, codec, names, forest + [t], done + {c})
  {
    hide DepictsNodes, DepictsLinks, DistinctKeys, KeyIn, Subtree;
    var more := forest + [t];
    forall key
      ensures KeyInForest(more, key) <==> KeyInForest(forest, key) || KeyIn(t, key)
    {
      if KeyInForest(forest, key) {
        var x :| 0 <= x < |forest| && KeyIn(forest[x], key);
        assert more[x] == forest[x];
      }
      if KeyIn(t, key) {
        assert more[|forest|] == t;
      }
    }
    forall key | KeyIn(t, key)
      ensures !KeyInForest(forest, key)
    {
      NotAmongOthers(s, names, done, c, key);
    }
    forall x, y, key | 0 <= x < |more| && 0 <= y < |more| && KeyIn(more[x], key) && KeyIn(more[y], key)
      ensures x == y
    {
      assert x < |forest| ==> KeyIn(forest[x], key);
      assert y < |forest| ==> KeyIn(forest[y], key);
    }
  }

  /** All roots. When every instance is below one, the forest depicts the catalog, and no key
      is in it twice. */
  method BuildExportInstances(s: Scene, codec: TextCodec, holders: Holders, ghost names: map<string, Id>,
                              ghost kinds: map<string, string>)
    returns (forest: seq<ExportInstance>)
    requires UniqueAttributeNames(s.attributes) && s.typeName.Keys <= s.versionOf.Keys
    ensures Ready(s, names) && (forall i :: i in s.members ==> RootReached(s.members, i)) ==>
              && Depicts(s, codec, names, forest) && ForestApart(forest)
              && forall x :: 0 <= x < |forest| ==> DistinctKeys(forest[x])
    ensures Labelled(s, holders, kinds) ==> forall x :: 0 <= x < |forest| ==> Plain(forest[x], kinds)
  {
    hide Ready, Built, RootsBuilt, Buildable, UniqueAttributeNames, Below, Split, ListedUnder, Depicts, ForestApart,
         DistinctKeys, RootReached, Labelled, Plain;
    forest := [];
    var all := ListedUnder(s.members, None);
    var todo := all;
    ghost var done: set<Id> := {};
    SplitEnds(done, all);
    NoRootsBuilt(s, codec, names);
    while todo != {}
      invariant Split(done, todo, all)
      invariant Ready(s, names) ==> RootsBuilt(s, codec, names, forest, done)
      invariant Labelled(s, holders, kinds) ==> forall x :: 0 <= x < |forest| ==> Plain(forest[x], kinds)
      decreases todo
    {
      var c :| c in todo;
      SplitMoves(done, todo, all, c);
      RootIsMember(s, c);
      ChildFacts(s.members, None, c);
      var tree := BuildInstance(s, codec, holders, c, names, kinds);
      if tree.Some? {
        if Ready(s, names) {
          RootsApart(s, done, todo, all, c);
          RootAppended(s, codec, names, forest, done, c, tree.value);
        }
        forest := forest + [tree.value];
      }
      todo, done := todo - {c}, done + {c};
    }
    SplitEnds(done, all);
    if Ready(s, names) && forall i :: i in s.members ==> RootReached(s.members, i) {
      ForestDepicts(s, codec, names, forest);
    }
  }

  lemma NoRootsBuilt(s: Scene, codec: TextCodec, names: map<string, Id>)
    ensures RootsBuilt(s, codec, names, [], {})
  {
  }

  lemma RootIsMember(s: Scene, c: Id)
    requires c in ListedUnder(s.members, None)
    ensures c in s.members && s.members[c].parent == None && Buildable(s.members, None)
  {
  }

  lemma RootsApart(s: Scene, done: set<Id>, todo: set<Id>, all: set<Id>, c: Id)
    requires all == ListedUnder(s.members, None) && Split(done, todo, all) && c in todo
    ensures forall d :: d in done ==> Subtree(s.members, c) !! Subtree(s.members, d)
  {
    hide Subtree, ListedUnder;
    forall d | d in done
      ensures Subtree(s.members, c) !! Subtree(s.members, d)
    {
      ListedAreDisjoint(s.members, None, c, d);
    }
  }

  lemma ForestDepicts(s: Scene, codec: TextCodec, names: map<string, Id>, forest: seq<ExportInstance>)
    requires Ready(s, names) && RootsBuilt(s, codec, names, forest, ListedUnder(s.members, None))
    requires forall i :: i in s.members ==> RootReached(s.members, i)
    ensures Depicts(s, codec, names, forest) && ForestApart(forest)
    ensures forall x :: 0 <= x < |forest| ==> DistinctKeys(forest[x])
  {
    hide DepictsNodes, DepictsLinks, DistinctKeys, ForestApart, KeyInForest, RootReached, ListedUnder, Subtree, Ready;
    ReadyMeans(s, names);
    forall key | key in names
      ensures KeyInForest(forest, key)
    {
      NamedIsMember(s, names, key);
      RootReachedMeansUnderARoot(s.members, names[key]);
    }
  }

  lemma NamedIsMember(s: Scene, names: map<string, Id>, key: string)
    requires Ready(s, names) && key in names
    ensures names[key] in s.members
  {
  }
}
