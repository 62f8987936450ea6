/** The second pass of an import: once every instance has its row, the links of the tree,
    each resolved by association name and by the target's type and name. */
module ImportLinks {
  import opened Domain
  import opened Database
  import opened Conformance
  import opened DataSteps
  import opened Instances
  import opened ExportJson
  import opened ExportTree
  import opened CatalogExport
  import opened ImportNodes
  import opened ImportRows
  import opened CatalogImport

  // ---- resolving an association ----

  /** An association of the source's version, or else whatever the table by name holds. */
  ghost predicate ResolvesTo(associations: map<Id, Association>, g: Target, typeName: string, name: string, found: Option<Id>) {
    if typeName in g.versionIds && exists a :: OwnAssociation(associations, g.versionIds[typeName], name, a)
    then found.Some? && OwnAssociation(associations, g.versionIds[typeName], name, found.value)
    else found == if name in g.associations then Some(g.associations[name]) else None
  }

  method ResolveAssociation(db: Store, g: Target, typeName: string, name: string) returns (found: Option<Id>)
    ensures ResolvesTo(db.associations, g, typeName, name, found)
  {
    if typeName in g.versionIds {
      var ver := g.versionIds[typeName];
      if a :| a in db.associations && OwnAssociation(db.associations, ver, name, a) {
        return Some(a);
      }
    }
    return if name in g.associations then Some(g.associations[name]) else None;
  }

  predicate PlainAssociation(associations: map<Id, Association>, name: string, a: Id) {
    a in associations && associations[a].name == name && !associations[a].kind.Containment?
  }

  /** Whatever the name resolves to is an association of that name and no containment. */
  ghost predicate LinkFits(s: Scene, g: Target, typeName: string, name: string) {
    forall found :: ResolvesTo(s.associations, g, typeName, name, found) ==>
      found.Some? && PlainAssociation(s.associations, name, found.value)
  }

  /** Every link of the tree resolves, and so does its target. */
  ghost predicate Linkable(s: Scene, g: Target, known: iset<string>, t: ExportInstance)
    decreases t
  {
    && (forall k :: 0 <= k < |t.links| ==>
          LinkFits(s, g, t.entityType, t.links[k].association) && TargetKey(t.links[k]) in known)
    && forall k, x :: k in t.children && 0 <= x < |t.children[k].trees| ==> Linkable(s, g, known, t.children[k].trees[x])
  }

  lemma {:induction false} LinkableStill(s: Scene, w: Scene, g: Target, known: iset<string>, more: iset<string>, t: ExportInstance)
    requires Linkable(s, g, known, t) && w.associations == s.associations && known <= more
    ensures Linkable(w, g, more, t)
    decreases t
  {
    hide ResolvesTo;
    forall k, x | k in t.children && 0 <= x < |t.children[k].trees|
      ensures Linkable(w, g, more, t.children[k].trees[x])
    {
      LinkableStill(s, w, g, known, more, t.children[k].trees[x]);
    }
  }

  // ---- which links are drawn ----

  /** An entry is drawn when its association and its target are found. */
  function EntryDraws(names: map<string, Id>, t: ExportInstance, entry: ExportLink, found: Option<Id>): seq<Link> {
    if found.Some? && TargetKey(entry) in names
    then [Link(found.value, NamedBy(names, NodeKey(t)), names[TargetKey(entry)])] else []
  }

  ghost predicate EntryResolves(associations: map<Id, Association>, g: Target, names: map<string, Id>, t: ExportInstance,
                                entry: ExportLink, drawn: seq<Link>) {
    exists found :: ResolvesTo(associations, g, t.entityType, entry.association, found) && drawn == EntryDraws(names, t, entry, found)
  }

  /** The links of the first "n" entries of a node, in the order of the entries. */
  ghost predicate NodeDraws(associations: map<Id, Association>, g: Target, names: map<string, Id>, t: ExportInstance, n: nat,
                            drawn: seq<Link>)
    requires n <= |t.links|
    decreases n
  {
    if n == 0 then drawn == []
    else
      exists before, last ::
        && NodeDraws(associations, g, names, t, n - 1, before)
        && EntryResolves(associations, g, names, t, t.links[n - 1], last) && drawn == before + last
  }

  /** A node's own links, then those of its groups. */
  ghost predicate TreeDraws(associations: map<Id, Association>, g: Target, names: map<string, Id>, t: ExportInstance, drawn: seq<Link>)
    decreases t, 1
  {
    exists own, below ::
      && NodeDraws(associations, g, names, t, |t.links|, own)
      && GroupsDraw(associations, g, names, t, t.children.Keys, below) && drawn == own + below
  }

  /** The groups one after the other, in some order. */
  ghost predicate GroupsDraw(associations: map<Id, Association>, g: Target, names: map<string, Id>, t: ExportInstance,
                             groups: set<string>, drawn: seq<Link>)
    requires groups <= t.children.Keys
    decreases t, 0, groups
  {
    if groups == {} then drawn == []
    else
      exists k, before, last ::
        && k in groups && GroupsDraw(associations, g, names, t, groups - {k}, before)
        && TreesDraw(associations, g, names, t.children[k], |t.children[k].trees|, last) && drawn == before + last
  }

  /** The first "n" trees of a list, in its order. */
  ghost predicate TreesDraw(associations: map<Id, Association>, g: Target, names: map<string, Id>, group: Group, n: nat,
                            drawn: seq<Link>)
    requires n <= |group.trees|
    decreases group, 0, n
  {
    if n == 0 then drawn == []
    else
      exists before, last ::
        && TreesDraw(associations, g, names, group, n - 1, before)
        && TreeDraws(associations, g, names, group.trees[n - 1], last) && drawn == before + last
  }

  /** These links are new, in this order, and nothing else has changed. */
  ghost predicate LinksDrawn(d: Db, e: Db, drawn: seq<Link>) {
    && e == d.(links := e.links, nextId := d.nextId + |drawn|)
    && (forall l :: l in e.links <==> l in d.links || d.nextId <= l < d.nextId + |drawn|)
    && (forall l :: l in d.links && l < d.nextId ==> e.links[l] == d.links[l])
    && forall k :: 0 <= k < |drawn| ==> e.links[d.nextId + k] == drawn[k]
  }

  lemma NoLinkDrawn(d: Db)
    ensures LinksDrawn(d, d, [])
  {
  }

  lemma LinksDrawnTwice(d: Db, v: Db, e: Db, first: seq<Link>, second: seq<Link>)
    requires LinksDrawn(d, v, first) && LinksDrawn(v, e, second)
    ensures LinksDrawn(d, e, first + second)
  {
    forall k | 0 <= k < |first + second|
      ensures e.links[d.nextId + k] == (first + second)[k]
    {
      if k < |first| {
        assert v.links[d.nextId + k] == first[k];
      } else {
        assert e.links[v.nextId + (k - |first|)] == second[k - |first|];
      }
    }
  }

  lemma EntryDrawn(d: Db, e: Db, names: map<string, Id>, t: ExportInstance, entry: ExportLink, found: Option<Id>)
    requires var drawn := EntryDraws(names, t, entry, found);
             e == d.(links := if drawn == [] then d.links else d.links[d.nextId := drawn[0]], nextId := d.nextId + |drawn|)
    ensures LinksDrawn(d, e, EntryDraws(names, t, entry, found))
  {
    hide NodeKey, TargetKey, NamedBy;
  }

  /** One entry further. */
  lemma NextEntryDrawn(d: Db, v: Db, e: Db, associations: map<Id, Association>, g: Target, names: map<string, Id>, t: ExportInstance,
                       k: nat, before: seq<Link>, found: Option<Id>)
    requires k < |t.links| && LinksDrawn(d, v, before) && NodeDraws(associations, g, names, t, k, before)
    requires ResolvesTo(associations, g, t.entityType, t.links[k].association, found)
    requires var drawn := EntryDraws(names, t, t.links[k], found);
             e == v.(links := if drawn == [] then v.links else v.links[v.nextId := drawn[0]], nextId := v.nextId + |drawn|)
    ensures LinksDrawn(d, e, before + EntryDraws(names, t, t.links[k], found))
    ensures NodeDraws(associations, g, names, t, k + 1, before + EntryDraws(names, t, t.links[k], found))
  {
    hide ResolvesTo, EntryDraws, LinksDrawn;
    assert EntryResolves(associations, g, names, t, t.links[k], EntryDraws(names, t, t.links[k], found));
    EntryDrawn(v, e, names, t, t.links[k], found);
    LinksDrawnTwice(d, v, e, before, EntryDraws(names, t, t.links[k], found));
  }

  lemma NextGroupDrawn(associations: map<Id, Association>, g: Target, names: map<string, Id>, t: ExportInstance, done: set<string>,
                       k: string, before: seq<Link>, last: seq<Link>)
    requires done <= t.children.Keys && k in t.children && k !in done
    requires GroupsDraw(associations, g, names, t, done, before)
    requires TreesDraw(associations, g, names, t.children[k], |t.children[k].trees|, last)
    ensures GroupsDraw(associations, g, names, t, done + {k}, before + last)
  {
    hide TreesDraw;
    assert (done + {k}) - {k} == done;
  }

  lemma NextTreeDrawn(associations: map<Id, Association>, g: Target, names: map<string, Id>, group: Group, x: nat, before: seq<Link>,
                      last: seq<Link>)
    requires x < |group.trees| && TreesDraw(associations, g, names, group, x, before)
    requires TreeDraws(associations, g, names, group.trees[x], last)
    ensures TreesDraw(associations, g, names, group, x + 1, before + last)
  {
    hide TreeDraws;
  }

  // ---- what changes ----

  /** A key that was never created reads as no id at all. */
  function NamedBy(names: map<string, Id>, key: string): Id {
    if key in names then names[key] else 0
  }

  /** The link starts at an instance of one of the keys, or nowhere, and ends at a named one. */
  ghost predicate Between(names: map<string, Id>, keys: iset<string>, link: Link) {
    link.target in names.Values && exists key :: key in keys && link.source == NamedBy(names, key)
  }

  lemma BetweenMore(names: map<string, Id>, keys: iset<string>, more: iset<string>, link: Link)
    requires Between(names, keys, link) && keys <= more
    ensures Between(names, more, link)
  {
    hide NamedBy;
    var key :| key in keys && link.source == NamedBy(names, key);
    assert key in more;
  }

  /** More links, from the instances of the keys to named ones; the rest of the store as it was. */
  ghost predicate Drawn(d: Db, e: Db, names: map<string, Id>, keys: iset<string>) {
    && SchemaSame(d, e) && e.catalogs == d.catalogs && e.resources == d.resources
    && e.instances == d.instances && e.values == d.values && d.nextId <= e.nextId
    && (forall l :: l in d.links ==> l in e.links && e.links[l] == d.links[l])
    && forall l :: l in e.links && l !in d.links ==> d.nextId <= l && Between(names, keys, e.links[l])
  }

  lemma DrawnTwice(d: Db, e: Db, f: Db, names: map<string, Id>, first: iset<string>, second: iset<string>, all: iset<string>)
    requires Drawn(d, e, names, first) && Drawn(e, f, names, second) && first <= all && second <= all
    ensures Drawn(d, f, names, all)
  {
    hide SchemaSame, Between;
    assert SchemaSame(d, f) by {
      SchemaSameTwice(d, e, f);
    }
    forall l | l in f.links && l !in d.links
      ensures d.nextId <= l && Between(names, all, f.links[l])
    {
      if l in e.links {
        BetweenMore(names, first, all, f.links[l]);
      } else {
        BetweenMore(names, second, all, f.links[l]);
      }
    }
  }

  lemma SchemaSameTwice(d: Db, e: Db, f: Db)
    requires SchemaSame(d, e) && SchemaSame(e, f)
    ensures SchemaSame(d, f)
  {
  }

  lemma DrawnNone(d: Db, names: map<string, Id>, keys: iset<string>)
    ensures Drawn(d, d, names, keys)
  {
  }

  ghost predicate NoLinksFrom(s: Scene, i: Id) {
    forall l :: l in s.links ==> s.links[l].source != i
  }

  /** What the tree's links are drawn on: every key named, no two alike, no link drawn yet. */
  ghost predicate Blank(s: Scene, names: map<string, Id>, keys: iset<string>) {
    ExportTree.DistinctIds(names) && forall key :: key in keys ==> key in names && NoLinksFrom(s, names[key])
  }

  lemma BlankStill(d: Db, e: Db, c: Id, g: Target, names: map<string, Id>, keys: iset<string>, others: iset<string>)
    requires TargetSound(g) && Drawn(d, e, names, others) && Blank(ImportScene(d, c, g), names, keys)
    requires (forall key :: key in others ==> key in names) && keys !! others
    ensures Blank(ImportScene(e, c, g), names, keys)
  {
    hide TypeNames, VersionsOf, SchemaSame;
    forall key | key in keys
      ensures NoLinksFrom(ImportScene(e, c, g), names[key])
    {
      forall l | l in e.links
        ensures e.links[l].source != names[key]
      {
        if l !in d.links {
          var other :| other in others && e.links[l].source == NamedBy(names, other);
          assert other != key;
        }
      }
    }
  }

  /** Links drawn from elsewhere leave an instance's links alone. */
  lemma LinksShownStill(d: Db, e: Db, c: Id, g: Target, names: map<string, Id>, others: iset<string>, key: string,
                        links: seq<ExportLink>)
    requires TargetSound(g) && Drawn(d, e, names, others) && ExportTree.DistinctIds(names) && key in names && key !in others
    requires forall other :: other in others ==> other in names
    requires ShowsLinks(ImportScene(d, c, g), names, names[key], links)
    ensures ShowsLinks(ImportScene(e, c, g), names, names[key], links)
  {
    hide TypeNames, VersionsOf, MembersOf, CountLinks;
    var s, w := ImportScene(d, c, g), ImportScene(e, c, g);
    forall name: string, other: string | other in names
      ensures CountLinks(links, name, other) == |LinkSet(w, names[key], name, names[other])|
    {
      var count := CountLinks(links, name, other);
      assert count == |LinkSet(s, names[key], name, names[other])|;
      LinkSetStill(d, e, c, g, names, others, key, name, names[other]);
    }
  }

  lemma LinkSetStill(d: Db, e: Db, c: Id, g: Target, names: map<string, Id>, others: iset<string>, key: string, name: string, j: Id)
    requires TargetSound(g) && Drawn(d, e, names, others) && ExportTree.DistinctIds(names) && key in names && key !in others
    requires forall other :: other in others ==> other in names
    ensures LinkSet(ImportScene(e, c, g), names[key], name, j) == LinkSet(ImportScene(d, c, g), names[key], name, j)
  {
    hide TypeNames, VersionsOf, MembersOf;
    forall l | l in e.links && l !in d.links
      ensures e.links[l].source != names[key]
    {
      var other :| other in others && e.links[l].source == NamedBy(names, other);
      assert names[other] != names[key];
    }
  }

  lemma {:induction false} LinksDepictedStill(d: Db, e: Db, c: Id, g: Target, names: map<string, Id>, others: iset<string>,
                                              t: ExportInstance)
    requires TargetSound(g) && Drawn(d, e, names, others) && ExportTree.DistinctIds(names)
    requires forall other :: other in others ==> other in names && !KeyIn(t, other)
    requires DepictsLinks(ImportScene(d, c, g), names, t)
    ensures DepictsLinks(ImportScene(e, c, g), names, t)
    decreases t
  {
    hide Drawn, ImportScene, ShowsLinks, TargetSound, ExportTree.DistinctIds;
    assert KeyIn(t, NodeKey(t));
    LinksShownStill(d, e, c, g, names, others, NodeKey(t), t.links);
    forall k, x | k in t.children && 0 <= x < |t.children[k].trees|
      ensures DepictsLinks(ImportScene(e, c, g), names, t.children[k].trees[x])
    {
      LinksDepictedStill(d, e, c, g, names, others, t.children[k].trees[x]);
    }
  }

  // ---- one node ----

  lemma NoLinksShown(s: Scene, names: map<string, Id>, i: Id)
    requires NoLinksFrom(s, i)
    ensures ShowsLinks(s, names, i, [])
  {
    forall name: string, key: string | key in names
      ensures |LinkSet(s, i, name, names[key])| == 0
    {
      assert LinkSet(s, i, name, names[key]) == {};
    }
  }

  lemma OneLinkShown(s: Scene, w: Scene, names: map<string, Id>, i: Id, links: seq<ExportLink>, entry: ExportLink, l: Id, a: Id)
    requires ShowsLinks(s, names, i, links) && ExportTree.DistinctIds(names) && TargetKey(entry) in names
    requires l !in s.links && w.links == s.links[l := Link(a, i, names[TargetKey(entry)])] && w.associations == s.associations
    requires PlainAssociation(s.associations, entry.association, a)
    ensures ShowsLinks(w, names, i, links + [entry])
  {
    hide CountLinks, TargetKey, LinkSet, PlainAssociation;
    var more := links + [entry];
    forall name: string, key: string | key in names
      ensures CountLinks(more, name, key) == |LinkSet(w, i, name, names[key])|
    {
      CountMore(links, entry, name, key);
      var count := CountLinks(links, name, key);
      assert count == |LinkSet(s, i, name, names[key])|;
      LinkSetGrows(s, w, i, entry.association, names[TargetKey(entry)], l, a, name, names[key]);
    }
  }

  lemma LinkSetGrows(s: Scene, w: Scene, i: Id, assoc: string, target: Id, l: Id, a: Id, name: string, j: Id)
    requires l !in s.links && w.links == s.links[l := Link(a, i, target)] && w.associations == s.associations
    requires PlainAssociation(s.associations, assoc, a)
    ensures |LinkSet(w, i, name, j)| == |LinkSet(s, i, name, j)| + if assoc == name && target == j then 1 else 0
  {
    var before, after := LinkSet(s, i, name, j), LinkSet(w, i, name, j);
    var hit := assoc == name && target == j;
    forall x
      ensures x in after <==> x in before || (hit && x == l)
    {
    }
    assert after == if hit then before + {l} else before;
  }

  lemma OneLinkDrawn(d: Db, e: Db, f: Db, names: map<string, Id>, key: string, link: Link)
    requires FreshData(e) && Drawn(d, e, names, iset{key}) && link.source == NamedBy(names, key) && link.target in names.Values
    requires SchemaSame(e, f) && f.catalogs == e.catalogs && f.resources == e.resources && f.instances == e.instances
    requires f.values == e.values && f.nextId == e.nextId + 1 && f.links == e.links[e.nextId := link]
    ensures FreshData(f) && Drawn(d, f, names, iset{key})
  {
    assert Between(names, iset{key}, link);
    assert Drawn(e, f, names, iset{key});
    DrawnTwice(d, e, f, names, iset{key}, iset{key}, iset{key});
  }

  /** The links of one node fit: each resolves, and so does its target. */
  ghost predicate NodeLinksFit(s: Scene, g: Target, names: map<string, Id>, t: ExportInstance) {
    && Blank(s, names, iset{NodeKey(t)})
    && forall k :: 0 <= k < |t.links| ==>
         LinkFits(s, g, t.entityType, t.links[k].association) && TargetKey(t.links[k]) in names
  }

  /** Entries whose association or target is unknown are passed over; the others are drawn, in
      their order. */
  method CreateNodeLinks(db: Store, g: Target, t: ExportInstance, names: map<string, Id>, ghost c: Id) returns (ghost drawn: seq<Link>)
    requires TargetSound(g) && FreshData(db.State())
    modifies db`links, db`nextId
    ensures LinksDrawn(old(db.State()), db.State(), drawn) && NodeDraws(db.associations, g, names, t, |t.links|, drawn)
    ensures FreshData(db.State()) && Drawn(old(db.State()), db.State(), names, iset{NodeKey(t)})
    ensures NodeLinksFit(ImportScene(old(db.State()), c, g), g, names, t) ==>
              NodeKey(t) in names && ShowsLinks(ImportScene(db.State(), c, g), names, names[NodeKey(t)], t.links)
  {
    hide Drawn, FreshData, NodeLinksFit, ResolvesTo, LinkFits, ShowsLinks, TypeNames, VersionsOf, MembersOf, NodeKey, TargetKey,
         TargetSound, PlainAssociation, LinksDrawn, NodeDraws, EntryResolves, EntryDraws;
    drawn := [];
    NoLinkDrawn(db.State());
    NoEntryDrawn(db.associations, g, names, t);
    ghost var d := db.State();
    ghost var s := ImportScene(d, c, g);
    ghost var fits := NodeLinksFit(s, g, names, t);
    ghost var key := NodeKey(t);
    var source := NamedBy(names, NodeKey(t));
    DrawnNone(d, names, iset{key});
    if fits {
      NodeFitsMeans(s, g, names, t);
      NoLinksShown(s, names, names[key]);
      assert t.links[..0] == [];
    }
    for k := 0 to |t.links|
      invariant FreshData(db.State()) && Drawn(d, db.State(), names, iset{key}) && db.associations == old(db.associations)
      invariant LinksDrawn(d, db.State(), drawn) && NodeDraws(db.associations, g, names, t, k, drawn)
      invariant fits ==> ShowsLinks(ImportScene(db.State(), c, g), names, names[key], t.links[..k])
    {
      ghost var e := db.State();
      var link := t.links[k];
      var found := ResolveAssociation(db, g, t.entityType, link.association);
      if fits {
        LinkFitsHere(s, g, names, t, k, found);
      }
      EntryIs(names, t, link, found);
      if found.Some? && TargetKey(link) in names {
        NextIdIsFree(e);
        var row := Link(found.value, source, names[TargetKey(link)]);
        db.links := db.links[db.nextId := row];
        db.nextId := db.nextId + 1;
        OneLinkDrawn(d, e, db.State(), names, key, row);
        if fits {
          OneLinkShown(ImportScene(e, c, g), ImportScene(db.State(), c, g), names, names[key], t.links[..k], link, e.nextId, found.value);
          assert t.links[..k + 1] == t.links[..k] + [link];
        }
      }
      NextEntryDrawn(d, e, db.State(), db.associations, g, names, t, k, drawn, found);
      drawn := drawn + EntryDraws(names, t, link, found);
    }
    assert t.links[..|t.links|] == t.links;
  }

  lemma NoEntryDrawn(associations: map<Id, Association>, g: Target, names: map<string, Id>, t: ExportInstance)
    ensures NodeDraws(associations, g, names, t, 0, [])
  {
  }

  lemma EntryIs(names: map<string, Id>, t: ExportInstance, entry: ExportLink, found: Option<Id>)
    ensures if found.Some? && TargetKey(entry) in names
            then EntryDraws(names, t, entry, found) == [Link(found.value, NamedBy(names, NodeKey(t)), names[TargetKey(entry)])]
            else EntryDraws(names, t, entry, found) == []
  {
  }

  lemma NodeFitsMeans(s: Scene, g: Target, names: map<string, Id>, t: ExportInstance)
    requires NodeLinksFit(s, g, names, t)
    ensures NodeKey(t) in names && ExportTree.DistinctIds(names) && NoLinksFrom(s, names[NodeKey(t)])
  {
    assert NodeKey(t) in iset{NodeKey(t)};
  }

  lemma LinkFitsHere(s: Scene, g: Target, names: map<string, Id>, t: ExportInstance, k: nat, found: Option<Id>)
    requires NodeLinksFit(s, g, names, t) && k < |t.links|
    requires ResolvesTo(s.associations, g, t.entityType, t.links[k].association, found)
    ensures found.Some? && PlainAssociation(s.associations, t.links[k].association, found.value)
    ensures TargetKey(t.links[k]) in names && NodeKey(t) in names && ExportTree.DistinctIds(names)
  {
    hide ResolvesTo, PlainAssociation;
    NodeFitsMeans(s, g, names, t);
  }

  lemma NextIdIsFree(d: Db)
    requires FreshData(d)
    ensures d.nextId !in d.links
  {
  }

  // ---- trees and forests ----

  ghost function Known(names: map<string, Id>): iset<string> {
    iset key | key in names
  }

  ghost predicate TreeLinkable(s: Scene, g: Target, names: map<string, Id>, t: ExportInstance) {
    Blank(s, names, KeysOf(t)) && Linkable(s, g, Known(names), t) && DistinctKeys(t)
  }

  ghost predicate ForestLinkable(s: Scene, g: Target, names: map<string, Id>, trees: seq<ExportInstance>) {
    && Blank(s, names, KeysOfForest(trees)) && ForestApart(trees)
    && forall x :: 0 <= x < |trees| ==> Linkable(s, g, Known(names), trees[x]) && DistinctKeys(trees[x])
  }

  ghost predicate GroupsLinkable(s: Scene, g: Target, names: map<string, Id>, children: map<string, Group>, todo: set<string>) {
    && Blank(s, names, KeysOfGroups(children, todo)) && ChildrenApart(children)
    && forall k, x {:trigger TreeAt(children, k, x)} :: k in todo && TreeAt(children, k, x) ==>
         Linkable(s, g, Known(names), children[k].trees[x]) && DistinctKeys(children[k].trees[x])
  }

  ghost predicate ForestLinked(s: Scene, names: map<string, Id>, trees: seq<ExportInstance>) {
    forall x :: 0 <= x < |trees| ==> DepictsLinks(s, names, trees[x])
  }

  ghost predicate GroupsLinked(s: Scene, names: map<string, Id>, children: map<string, Group>, done: set<string>) {
    forall k, x {:trigger TreeAt(children, k, x)} :: k in done && TreeAt(children, k, x) ==>
      DepictsLinks(s, names, children[k].trees[x])
  }

  /** A node's links, then those of its children. */
  method CreateLinksRecursive(db: Store, g: Target, t: ExportInstance, names: map<string, Id>, ghost c: Id)
    returns (ghost drawn: seq<Link>)
    requires TargetSound(g) && FreshData(db.State())
    modifies db`links, db`nextId
    ensures LinksDrawn(old(db.State()), db.State(), drawn) && TreeDraws(db.associations, g, names, t, drawn)
    ensures FreshData(db.State()) && Drawn(old(db.State()), db.State(), names, KeysOf(t))
    ensures TreeLinkable(ImportScene(old(db.State()), c, g), g, names, t) ==>
              DepictsLinks(ImportScene(db.State(), c, g), names, t)
    decreases t, 1
  {
    hide Drawn, FreshData, NodeLinksFit, ShowsLinks, ImportScene, TargetSound, TreeLinkable, GroupsLinkable, GroupsLinked, KeysOf,
         KeysOfGroups, DepictsLinks, NodeKey, LinksDrawn, NodeDraws, GroupsDraw, TreeDraws;
    ghost var d := db.State();
    ghost var fits := TreeLinkable(ImportScene(d, c, g), g, names, t);
    if fits {
      NodeFits(ImportScene(d, c, g), g, names, t);
    }
    ghost var own := CreateNodeLinks(db, g, t, names, c);
    ghost var mid := db.State();
    if fits {
      ChildrenLinkable(d, mid, c, g, names, t);
    }
    ghost var below := CreateChildLinks(db, g, t, names, c);
    drawn := own + below;
    LinksDrawnTwice(d, mid, db.State(), own, below);
    TreeIsDrawn(db.associations, g, names, t, own, below);
    TreeKeys(t);
    DrawnTwice(d, mid, db.State(), names, iset{NodeKey(t)}, KeysOfGroups(t.children, t.children.Keys), KeysOf(t));
    if fits {
      TreeLinked(ImportScene(d, c, g), mid, db.State(), c, g, names, t);
    }
  }

  lemma TreeIsDrawn(associations: map<Id, Association>, g: Target, names: map<string, Id>, t: ExportInstance, own: seq<Link>,
                    below: seq<Link>)
    requires NodeDraws(associations, g, names, t, |t.links|, own) && GroupsDraw(associations, g, names, t, t.children.Keys, below)
    ensures TreeDraws(associations, g, names, t, own + below)
  {
    hide NodeDraws, GroupsDraw;
  }

  lemma TreeKeys(t: ExportInstance)
    ensures iset{NodeKey(t)} <= KeysOf(t) && KeysOfGroups(t.children, t.children.Keys) <= KeysOf(t)
  {
    forall key | KeyInGroups(t.children, t.children.Keys, key)
      ensures KeyIn(t, key)
    {
      KeyInUnfolds(t, key);
    }
  }

  lemma NodeFits(s: Scene, g: Target, names: map<string, Id>, t: ExportInstance)
    requires TreeLinkable(s, g, names, t)
    ensures NodeLinksFit(s, g, names, t)
  {
    hide LinkFits, DistinctKeys, NoLinksFrom;
    assert NodeKey(t) in KeysOf(t);
  }

  lemma ChildrenLinkable(d: Db, e: Db, c: Id, g: Target, names: map<string, Id>, t: ExportInstance)
    requires TargetSound(g) && TreeLinkable(ImportScene(d, c, g), g, names, t) && Drawn(d, e, names, iset{NodeKey(t)})
    ensures GroupsLinkable(ImportScene(e, c, g), g, names, t.children, t.children.Keys)
  {
    hide ChildrenApart, TypeNames, VersionsOf, MembersOf, LinkFits, NodeKey, NoLinksFrom, TargetSound;
    var keys := KeysOfGroups(t.children, t.children.Keys);
    TreeKeys(t);
    assert NodeKey(t) in iset{NodeKey(t)};
    NodeKeyApart(t);
    BlankStill(d, e, c, g, names, keys, iset{NodeKey(t)});
    forall k, x | TreeAt(t.children, k, x)
      ensures Linkable(ImportScene(e, c, g), g, Known(names), t.children[k].trees[x]) && DistinctKeys(t.children[k].trees[x])
    {
      LinkableStill(ImportScene(d, c, g), ImportScene(e, c, g), g, Known(names), Known(names), t.children[k].trees[x]);
    }
  }

  lemma LinkableMeans(s: Scene, g: Target, names: map<string, Id>, t: ExportInstance)
    requires TreeLinkable(s, g, names, t)
    ensures ExportTree.DistinctIds(names) && DistinctKeys(t)
    ensures forall key :: KeyIn(t, key) ==> key in names
  {
    hide KeyIn, Linkable, NoLinksFrom, DistinctKeys;
    forall key | KeyIn(t, key)
      ensures key in names
    {
      assert key in KeysOf(t);
    }
  }

  lemma TreeLinked(s: Scene, d: Db, e: Db, c: Id, g: Target, names: map<string, Id>, t: ExportInstance)
    requires TargetSound(g) && Drawn(d, e, names, KeysOfGroups(t.children, t.children.Keys)) && TreeLinkable(s, g, names, t)
    requires NodeKey(t) in names && ShowsLinks(ImportScene(d, c, g), names, names[NodeKey(t)], t.links)
    requires GroupsLinked(ImportScene(e, c, g), names, t.children, t.children.Keys)
    ensures DepictsLinks(ImportScene(e, c, g), names, t)
  {
    hide Drawn, ImportScene, ShowsLinks, TargetSound, ExportTree.DistinctIds, NodeKey, TreeLinkable;
    var others := KeysOfGroups(t.children, t.children.Keys);
    LinkableMeans(s, g, names, t);
    TreeKeys(t);
    NodeKeyApart(t);
    forall other | other in others
      ensures other in names
    {
      assert other in KeysOf(t);
    }
    LinksShownStill(d, e, c, g, names, others, NodeKey(t), t.links);
    forall k, x | k in t.children && 0 <= x < |t.children[k].trees|
      ensures DepictsLinks(ImportScene(e, c, g), names, t.children[k].trees[x])
    {
      assert TreeAt(t.children, k, x);
    }
  }

  lemma NodeKeyApart(t: ExportInstance)
    requires DistinctKeys(t)
    ensures NodeKey(t) !in KeysOfGroups(t.children, t.children.Keys)
  {
    hide ChildrenApart, NodeKey;
    forall k, x
      ensures !KeyAt(t.children, k, x, NodeKey(t))
    {
    }
  }

  method CreateChildLinks(db: Store, g: Target, t: ExportInstance, names: map<string, Id>, ghost c: Id)
    returns (ghost drawn: seq<Link>)
    requires TargetSound(g) && FreshData(db.State())
    modifies db`links, db`nextId
    ensures LinksDrawn(old(db.State()), db.State(), drawn) && GroupsDraw(db.associations, g, names, t, t.children.Keys, drawn)
    ensures FreshData(db.State())
    ensures Drawn(old(db.State()), db.State(), names, KeysOfGroups(t.children, t.children.Keys))
    ensures GroupsLinkable(ImportScene(old(db.State()), c, g), g, names, t.children, t.children.Keys) ==>
              GroupsLinked(ImportScene(db.State(), c, g), names, t.children, t.children.Keys)
    decreases t, 0
  {
    hide Drawn, FreshData, ImportScene, TargetSound, GroupsLinkable, GroupsLinked, KeysOfGroups, ForestLinkable, ForestLinked,
         KeysOfForest, LinksDrawn, GroupsDraw, TreesDraw;
    drawn := [];
    NoLinkDrawn(db.State());
    NoGroupDrawn(db.associations, g, names, t);
    ghost var d := db.State();
    ghost var all := KeysOfGroups(t.children, t.children.Keys);
    ghost var fits := GroupsLinkable(ImportScene(d, c, g), g, names, t.children, t.children.Keys);
    DrawnNone(d, names, all);
    NoGroupLinked(ImportScene(d, c, g), names, t.children);
    var todo := t.children.Keys;
    ghost var done: set<string> := {};
    while todo != {}
      invariant todo <= t.children.Keys && done == t.children.Keys - todo
      invariant FreshData(db.State()) && Drawn(d, db.State(), names, all)
      invariant LinksDrawn(d, db.State(), drawn) && GroupsDraw(db.associations, g, names, t, done, drawn)
      invariant fits ==> GroupsLinkable(ImportScene(db.State(), c, g), g, names, t.children, todo)
      invariant fits ==> GroupsLinked(ImportScene(db.State(), c, g), names, t.children, done)
      decreases todo
    {
      var k :| k in todo;
      ghost var e := db.State();
      if fits {
        GroupLinkable(ImportScene(e, c, g), g, names, t.children, todo, k);
      }
      ghost var last := CreateForestLinks(db, g, t.children[k], names, c);
      LinksDrawnTwice(d, e, db.State(), drawn, last);
      NextGroupDrawn(db.associations, g, names, t, done, k, drawn, last);
      drawn := drawn + last;
      GroupKeys(t.children, t.children.Keys, k);
      DrawnTwice(d, e, db.State(), names, all, KeysOfForest(t.children[k].trees), all);
      if fits {
        GroupLinked(e, db.State(), c, g, names, t.children, todo, done, k);
      }
      todo, done := todo - {k}, done + {k};
    }
    assert done == t.children.Keys;
  }

  lemma NoGroupDrawn(associations: map<Id, Association>, g: Target, names: map<string, Id>, t: ExportInstance)
    ensures GroupsDraw(associations, g, names, t, {}, [])
  {
  }

  lemma NoGroupLinked(s: Scene, names: map<string, Id>, children: map<string, Group>)
    ensures GroupsLinked(s, names, children, {})
  {
  }

  lemma GroupKeys(children: map<string, Group>, groups: set<string>, k: string)
    requires k in children && k in groups
    ensures KeysOfForest(children[k].trees) <= KeysOfGroups(children, groups)
  {
    hide KeyIn;
    forall key | KeyInForest(children[k].trees, key)
      ensures KeyInGroups(children, groups, key)
    {
      var x :| 0 <= x < |children[k].trees| && KeyIn(children[k].trees[x], key);
      assert KeyAt(children, k, x, key);
    }
  }

  lemma GroupLinkable(s: Scene, g: Target, names: map<string, Id>, children: map<string, Group>, todo: set<string>, k: string)
    requires GroupsLinkable(s, g, names, children, todo) && k in todo && k in children
    ensures ForestLinkable(s, g, names, children[k].trees)
  {
    hide KeyIn, Linkable, DistinctKeys, NoLinksFrom;
    GroupKeys(children, todo, k);
    var trees := children[k].trees;
    forall x | 0 <= x < |trees|
      ensures Linkable(s, g, Known(names), trees[x]) && DistinctKeys(trees[x])
    {
      assert TreeAt(children, k, x);
    }
    forall x, key | 0 <= x < |trees| && KeyIn(trees[x], key)
      ensures KeyAt(children, k, x, key)
    {
    }
  }

  lemma GroupLinked(d: Db, e: Db, c: Id, g: Target, names: map<string, Id>, children: map<string, Group>, todo: set<string>,
                    done: set<string>, k: string)
    requires TargetSound(g) && k in todo && k in children && k !in done
    requires Drawn(d, e, names, KeysOfForest(children[k].trees)) && ForestLinked(ImportScene(e, c, g), names, children[k].trees)
    requires GroupsLinkable(ImportScene(d, c, g), g, names, children, todo)
    requires GroupsLinked(ImportScene(d, c, g), names, children, done)
    ensures GroupsLinkable(ImportScene(e, c, g), g, names, children, todo - {k})
    ensures GroupsLinked(ImportScene(e, c, g), names, children, done + {k})
  {
    hide KeyIn, Linkable, DistinctKeys, NoLinksFrom, TypeNames, VersionsOf, MembersOf, TargetSound, SchemaSame, DepictsLinks;
    var others := KeysOfForest(children[k].trees);
    GroupKeys(children, todo, k);
    OtherGroupsApart(children, todo, k);
    BlankStill(d, e, c, g, names, KeysOfGroups(children, todo - {k}), others);
    assert ImportScene(e, c, g).associations == ImportScene(d, c, g).associations by {
      DrawnKeepsSchema(d, e, names, others);
    }
    forall l, x | l in todo - {k} && TreeAt(children, l, x)
      ensures Linkable(ImportScene(e, c, g), g, Known(names), children[l].trees[x]) && DistinctKeys(children[l].trees[x])
    {
      LinkableStill(ImportScene(d, c, g), ImportScene(e, c, g), g, Known(names), Known(names), children[l].trees[x]);
    }
    forall l, x | l in done + {k} && TreeAt(children, l, x)
      ensures DepictsLinks(ImportScene(e, c, g), names, children[l].trees[x])
    {
      if l != k {
        OtherTreeApart(children, k, l, x);
        LinksDepictedStill(d, e, c, g, names, others, children[l].trees[x]);
      }
    }
  }

  lemma DrawnKeepsSchema(d: Db, e: Db, names: map<string, Id>, keys: iset<string>)
    requires Drawn(d, e, names, keys)
    ensures e.associations == d.associations
  {
  }

  lemma OtherGroupsApart(children: map<string, Group>, groups: set<string>, k: string)
    requires ChildrenApart(children) && k in children
    ensures KeysOfGroups(children, groups - {k}) !! KeysOfForest(children[k].trees)
    ensures KeysOfGroups(children, groups - {k}) <= KeysOfGroups(children, groups)
  {
    hide KeyIn;
    forall key | KeyInGroups(children, groups - {k}, key)
      ensures !KeyInForest(children[k].trees, key)
    {
      var l, x :| l in groups - {k} && KeyAt(children, l, x, key);
      forall y | 0 <= y < |children[k].trees|
        ensures !KeyIn(children[k].trees[y], key)
      {
        assert KeyAt(children, k, y, key) <==> KeyIn(children[k].trees[y], key);
      }
    }
  }

  lemma OtherTreeApart(children: map<string, Group>, k: string, l: string, x: int)
    requires ChildrenApart(children) && k in children && TreeAt(children, l, x) && l != k
    ensures forall key :: key in KeysOfForest(children[k].trees) ==> !KeyIn(children[l].trees[x], key)
  {
    hide KeyIn;
    forall key | KeyInForest(children[k].trees, key)
      ensures !KeyIn(children[l].trees[x], key)
    {
      var y :| 0 <= y < |children[k].trees| && KeyIn(children[k].trees[y], key);
      assert KeyAt(children, k, y, key);
      assert KeyAt(children, l, x, key) <==> KeyIn(children[l].trees[x], key);
    }
  }

  /** A list of trees, one after the other: the links drawn are those of the entries that resolve.
      When everything resolves, they are what the trees depict. */
  method CreateForestLinks(db: Store, g: Target, group: Group, names: map<string, Id>, ghost c: Id)
    returns (ghost drawn: seq<Link>)
    requires TargetSound(g) && FreshData(db.State())
    modifies db`links, db`nextId
    ensures LinksDrawn(old(db.State()), db.State(), drawn)
    ensures TreesDraw(db.associations, g, names, group, |group.trees|, drawn)
    ensures FreshData(db.State()) && Drawn(old(db.State()), db.State(), names, KeysOfForest(group.trees))
    ensures ForestLinkable(ImportScene(old(db.State()), c, g), g, names, group.trees) ==>
              ForestLinked(ImportScene(db.State(), c, g), names, group.trees)
    decreases group
  {
    hide Drawn, FreshData, ImportScene, TargetSound, ForestLinkable, ForestLinked, KeysOfForest, KeysOf, TreeLinkable, DepictsLinks,
         LinksDrawn, TreesDraw, TreeDraws;
    drawn := [];
    NoLinkDrawn(db.State());
    NoTreeDrawn(db.associations, g, names, group);
    ghost var d := db.State();
    ghost var all := KeysOfForest(group.trees);
    ghost var fits := ForestLinkable(ImportScene(d, c, g), g, names, group.trees);
    DrawnNone(d, names, all);
    NoTreeLinked(ImportScene(d, c, g), names, group.trees);
    if fits {
      ForestIsApart(ImportScene(d, c, g), g, names, group.trees);
      assert group.trees[0..] == group.trees;
    }
    for x := 0 to |group.trees|
      invariant FreshData(db.State()) && Drawn(d, db.State(), names, all)
      invariant LinksDrawn(d, db.State(), drawn) && TreesDraw(db.associations, g, names, group, x, drawn)
      invariant fits ==> ForestLinkable(ImportScene(db.State(), c, g), g, names, group.trees[x..])
      invariant fits ==> ForestLinked(ImportScene(db.State(), c, g), names, group.trees[..x])
    {
      ghost var e := db.State();
      if fits {
        FirstLinkable(ImportScene(e, c, g), g, names, group.trees[x..]);
      }
      ghost var last := CreateLinksRecursive(db, g, group.trees[x], names, c);
      LinksDrawnTwice(d, e, db.State(), drawn, last);
      NextTreeDrawn(db.associations, g, names, group, x, drawn, last);
      drawn := drawn + last;
      TreeKeysOfForest(group.trees, x);
      DrawnTwice(d, e, db.State(), names, all, KeysOf(group.trees[x]), all);
      if fits {
        NextLinked(e, db.State(), c, g, names, group.trees, x);
      }
    }
    assert group.trees[..|group.trees|] == group.trees;
  }

  lemma NoTreeDrawn(associations: map<Id, Association>, g: Target, names: map<string, Id>, group: Group)
    ensures TreesDraw(associations, g, names, group, 0, [])
  {
  }

  lemma ForestIsApart(s: Scene, g: Target, names: map<string, Id>, trees: seq<ExportInstance>)
    requires ForestLinkable(s, g, names, trees)
    ensures ForestApart(trees)
  {
  }

  lemma NoTreeLinked(s: Scene, names: map<string, Id>, trees: seq<ExportInstance>)
    ensures ForestLinked(s, names, trees[..0])
  {
  }

  lemma TreeKeysOfForest(trees: seq<ExportInstance>, x: nat)
    requires x < |trees|
    ensures KeysOf(trees[x]) <= KeysOfForest(trees)
  {
    hide KeyIn;
  }

  lemma FirstLinkable(s: Scene, g: Target, names: map<string, Id>, trees: seq<ExportInstance>)
    requires ForestLinkable(s, g, names, trees) && trees != []
    ensures TreeLinkable(s, g, names, trees[0])
  {
    hide KeyIn, Linkable, DistinctKeys, NoLinksFrom;
    TreeKeysOfForest(trees, 0);
  }

  lemma NextLinked(d: Db, e: Db, c: Id, g: Target, names: map<string, Id>, trees: seq<ExportInstance>, x: nat)
    requires TargetSound(g) && x < |trees| && Drawn(d, e, names, KeysOf(trees[x]))
    requires ForestApart(trees)
    requires ForestLinkable(ImportScene(d, c, g), g, names, trees[x..]) && ForestLinked(ImportScene(d, c, g), names, trees[..x])
    requires DepictsLinks(ImportScene(e, c, g), names, trees[x])
    ensures ForestLinkable(ImportScene(e, c, g), g, names, trees[x + 1..])
    ensures ForestLinked(ImportScene(e, c, g), names, trees[..x + 1])
  {
    hide KeyIn, Linkable, DistinctKeys, NoLinksFrom, TypeNames, VersionsOf, MembersOf, TargetSound, SchemaSame, DepictsLinks;
    var rest, next := trees[x..], trees[x + 1..];
    var others := KeysOf(trees[x]);
    assert rest[0] == trees[x] && forall y :: 0 <= y < |next| ==> next[y] == rest[y + 1] && next[y] == trees[x + 1 + y];
    TreeKeysOfForest(rest, 0);
    LaterKeys(trees, x);
    BlankStill(d, e, c, g, names, KeysOfForest(next), others);
    DrawnKeepsSchema(d, e, names, others);
    forall y | 0 <= y < |next|
      ensures Linkable(ImportScene(e, c, g), g, Known(names), next[y]) && DistinctKeys(next[y])
    {
      assert next[y] == rest[y + 1];
      LinkableStill(ImportScene(d, c, g), ImportScene(e, c, g), g, Known(names), Known(names), next[y]);
    }
    var sofar := trees[..x + 1];
    forall y | 0 <= y < |sofar|
      ensures DepictsLinks(ImportScene(e, c, g), names, sofar[y])
    {
      assert sofar[y] == trees[y];
      if y < x {
        assert trees[..x][y] == trees[y];
        forall key | key in others
          ensures key in names && !KeyIn(trees[y], key)
        {
          assert key in KeysOfForest(rest);
        }
        LinksDepictedStill(d, e, c, g, names, others, trees[y]);
      }
    }
  }

  lemma LaterKeys(trees: seq<ExportInstance>, x: nat)
    requires ForestApart(trees) && x < |trees|
    ensures KeysOfForest(trees[x + 1..]) !! KeysOf(trees[x])
    ensures KeysOfForest(trees[x + 1..]) <= KeysOfForest(trees[x..])
    ensures ForestApart(trees[x + 1..])
  {
    hide KeyIn;
    var rest, next := trees[x..], trees[x + 1..];
    forall key | KeyInForest(next, key)
      ensures KeyInForest(rest, key) && !KeyIn(trees[x], key)
    {
      var y :| 0 <= y < |next| && KeyIn(next[y], key);
      assert next[y] == rest[y + 1] && next[y] == trees[x + 1 + y];
      assert KeyIn(rest[y + 1], key);
    }
    forall y, z, key | 0 <= y < |next| && 0 <= z < |next| && KeyIn(next[y], key) && KeyIn(next[z], key)
      ensures y == z
    {
      assert next[y] == trees[x + 1 + y] && next[z] == trees[x + 1 + z];
    }
  }
}
