/** A catalog exported, written as JSON, read back and imported is the same catalog up to ids,
    valid or not, as long as its instances are of pinned types, legally placed and told apart by
    type and name. */
module RoundTrip {
  import opened Domain
  import opened Database
  import opened Conformance
  import opened Cardinality
  import opened DataSteps
  import opened Instances
  import opened Partition
  import opened Digraph
  import opened Forest
  import opened SchemaHistory
  import opened ExportJson
  import opened ExportTree
  import opened CatalogExport
  import opened ImportNodes
  import opened ImportRows
  import opened CatalogImport
  import opened ImportLinks
  import opened DataImport
  import ValidForest

  // ---- what an export reads ----

  predicate PinnedVersion(d: Db, cv: Id, ver: Id) {
    ver in d.versions && Pin(cv, ver) in d.pins.Values
  }

  /** Every pinned entity type with its name and a pinned version of it. */
  ghost predicate TypesResolved(d: Db, cv: Id, typeName: map<Id, string>, versionOf: map<Id, Id>) {
    && typeName.Keys == versionOf.Keys
    && (forall t :: t in typeName ==> t in d.types && typeName[t] == d.types[t])
    && (forall t :: t in versionOf ==> PinnedVersion(d, cv, versionOf[t]) && d.versions[versionOf[t]].typeId == t)
    && forall ver :: PinnedVersion(d, cv, ver) ==> d.versions[ver].typeId in versionOf
  }

  predicate PinnedContainment(d: Db, cv: Id, s: Id) {
    s in d.associations && d.associations[s].kind.Containment? && PinnedVersion(d, cv, d.associations[s].versionId)
  }

  function HolderKey(d: Db, cv: Id, s: Id): (Id, Id)
    requires PinnedContainment(d, cv, s)
  {
    (d.versions[d.associations[s].versionId].typeId, d.associations[s].target)
  }

  /** Each pair of types joined by a pinned containment, with the name of one. */
  ghost predicate HoldersResolved(d: Db, cv: Id, holders: Holders) {
    && (forall s :: PinnedContainment(d, cv, s) ==> HolderKey(d, cv, s) in holders)
    && forall key :: key in holders ==>
         exists s :: PinnedContainment(d, cv, s) && HolderKey(d, cv, s) == key && d.associations[s].name == holders[key]
  }

  /** The containment names a reader of the file knows. */
  ghost predicate KindsRead(d: Db, cv: Id, kinds: map<string, string>) {
    forall n :: n in kinds <==> exists s :: PinnedContainment(d, cv, s) && d.associations[s].name == n
  }

  predicate DanglingPin(d: Db, cv: Id, p: Id) {
    p in d.pins && d.pins[p].cvId == cv && (d.pins[p].versionId in d.versions ==> d.versions[d.pins[p].versionId].typeId !in d.types)
  }

  method ResolveTypes(db: Store, cv: Id) returns (res: Result<(map<Id, string>, map<Id, Id>)>)
    ensures res.Ok? ==> TypesResolved(db.State(), cv, res.value.0, res.value.1)
    ensures res.Err? <==> exists p :: DanglingPin(db.State(), cv, p)
  {
    var typeName: map<Id, string>, versionOf: map<Id, Id> := map[], map[];
    var all := set p | p in db.pins && db.pins[p].cvId == cv;
    var todo := all;
    while todo != {}
      invariant todo <= all
      invariant typeName.Keys == versionOf.Keys
      invariant forall t :: t in typeName ==> t in db.types && typeName[t] == db.types[t]
      invariant forall t :: t in versionOf ==> PinnedVersion(db.State(), cv, versionOf[t]) && db.versions[versionOf[t]].typeId == t
      invariant forall p :: p in all - todo ==> db.pins[p].versionId in db.versions && db.versions[db.pins[p].versionId].typeId in versionOf
      decreases todo
    {
      var p :| p in todo;
      var ver := db.pins[p].versionId;
      if ver !in db.versions || db.versions[ver].typeId !in db.types {
        assert DanglingPin(db.State(), cv, p);
        return Err(NotFound);
      }
      assert db.pins[p] == Pin(cv, ver);
      var t := db.versions[ver].typeId;
      typeName, versionOf := typeName[t := db.types[t]], versionOf[t := ver];
      todo := todo - {p};
    }
    assert forall p :: DanglingPin(db.State(), cv, p) ==> p in all;
    forall ver | PinnedVersion(db.State(), cv, ver)
      ensures db.versions[ver].typeId in versionOf
    {
      var p :| p in db.pins && db.pins[p] == Pin(cv, ver);
      assert p in all;
    }
    return Ok((typeName, versionOf));
  }

  method ResolveHolders(db: Store, cv: Id) returns (holders: Holders)
    ensures HoldersResolved(db.State(), cv, holders)
  {
    holders := map[];
    var all := set s | s in db.associations && PinnedContainment(db.State(), cv, s);
    var todo := all;
    while todo != {}
      invariant todo <= all
      invariant forall s :: s in all - todo ==> HolderKey(db.State(), cv, s) in holders
      invariant forall key :: key in holders ==>
                  exists s :: s in all && HolderKey(db.State(), cv, s) == key && db.associations[s].name == holders[key]
      decreases todo
    {
      var s :| s in todo;
      holders := holders[HolderKey(db.State(), cv, s) := db.associations[s].name];
      todo := todo - {s};
    }
  }

  /** The catalog as an export sees it. */
  function SceneOf(d: Db, c: Id, typeName: map<Id, string>, versionOf: map<Id, Id>): Scene {
    Scene(typeName, versionOf, MembersOf(d, c), d.values, d.links, d.attributes, d.typeDefs, d.associations)
  }

  // ---- keys ----

  /** The last slash of a key is the one between type and name. */
  lemma NoLaterSlash(t: string, n: string, k: nat)
    requires IsDnsLabel(n) && |t| < k < |KeyText(t, n)|
    ensures KeyText(t, n)[k] != '/'
  {
    assert KeyText(t, n)[k] == n[k - |t| - 1];
  }

  lemma KeyTextSplits(t: string, n: string, u: string, m: string)
    requires KeyText(t, n) == KeyText(u, m) && IsDnsLabel(n) && IsDnsLabel(m)
    ensures t == u && n == m
  {
    hide IsDnsLabel;
    var key := KeyText(t, n);
    assert key[|t|] == '/' && key[|u|] == '/';
    if |t| != |u| {
      NoLaterSlash(if |t| < |u| then t else u, if |t| < |u| then n else m, if |t| < |u| then |u| else |t|);
    }
    assert key[..|t|] == t && key[..|u|] == u && key[|t| + 1..] == n && key[|u| + 1..] == m;
  }

  // ---- where the instances stand ----

  ghost predicate TypePinned(d: Db, cv: Id, t: Id) {
    exists ver :: PinnedVersion(d, cv, ver) && d.versions[ver].typeId == t
  }

  ghost predicate ContainedLegally(d: Db, c: Id, p: Id, i: Id)
    requires c in d.catalogs
  {
    && p in MembersOf(d, c) && i in MembersOf(d, c)
    && exists s :: PinnedContainment(d, d.catalogs[c].cvId, s)
                   && HolderKey(d, d.catalogs[c].cvId, s) == (MembersOf(d, c)[p].typeId, MembersOf(d, c)[i].typeId)
  }

  /** Every instance is of a pinned type, and a parent is a member that may contain it. */
  ghost predicate LegallyPlaced(d: Db, c: Id)
    requires c in d.catalogs
  {
    forall i :: i in MembersOf(d, c) ==>
      && TypePinned(d, d.catalogs[c].cvId, MembersOf(d, c)[i].typeId)
      && (MembersOf(d, c)[i].parent.Some? ==> ContainedLegally(d, c, MembersOf(d, c)[i].parent.value, i))
  }

  ghost predicate AllRooted(m: map<Id, Instance>) {
    forall i :: i in m ==> RootReached(m, i)
  }

  /** The keys links are resolved by, type name and instance name, tell the instances apart. */
  ghost predicate KeysApart(d: Db, c: Id) {
    forall i, j :: i in MembersOf(d, c) && j in MembersOf(d, c) && SameKey(d, MembersOf(d, c)[i], MembersOf(d, c)[j]) ==> i == j
  }

  predicate SameKey(d: Db, x: Instance, y: Instance) {
    x.typeId in d.types && y.typeId in d.types && KeyText(d.types[x.typeId], x.name) == KeyText(d.types[y.typeId], y.name)
  }

  /** The types of the catalog's instances have names, and so have the pinned containments that
      hold one of its instances in another. */
  ghost predicate NamesGiven(d: Db, c: Id)
    requires c in d.catalogs
  {
    && (forall i :: i in MembersOf(d, c) && MembersOf(d, c)[i].typeId in d.types ==> d.types[MembersOf(d, c)[i].typeId] != "")
    && forall s, p, i {:trigger HolderKey(d, d.catalogs[c].cvId, s), IsChild(d, c, p, i)} ::
         PinnedContainment(d, d.catalogs[c].cvId, s) && IsChild(d, c, p, i)
         && HolderKey(d, d.catalogs[c].cvId, s) == (MembersOf(d, c)[p].typeId, MembersOf(d, c)[i].typeId) ==>
           d.associations[s].name != ""
  }

  predicate IsChild(d: Db, c: Id, p: Id, i: Id) {
    p in MembersOf(d, c) && i in MembersOf(d, c) && MembersOf(d, c)[i].parent == Some(p)
  }

  /** Type and name tell the instances of the catalog apart, wherever they are contained. */
  ghost predicate NamesApart(m: map<Id, Instance>) {
    forall i, j :: i in m && j in m && m[i].typeId == m[j].typeId && m[i].name == m[j].name ==> i == j
  }

  /** What a file must keep apart to be read back: containments with names, none of them a
      field's, and types with names. */
  ghost predicate Readable(d: Db, c: Id, kinds: map<string, string>)
    requires c in d.catalogs
  {
    NamesGiven(d, c) && KindsRead(d, d.catalogs[c].cvId, kinds) && kinds.Keys !! FIELDS
  }

  ghost predicate Shippable(d: Db, c: Id, kinds: map<string, string>)
    requires c in d.catalogs
  {
    LegallyPlaced(d, c) && AllRooted(MembersOf(d, c)) && KeysApart(d, c) && Readable(d, c, kinds)
  }

  ghost function Keys(s: Scene): map<string, Id>
    requires forall i :: i in s.members ==> s.members[i].typeId in s.typeName
    requires forall i, j :: i in s.members && j in s.members && InstanceKey(s, i) == InstanceKey(s, j) ==> i == j
  {
    map i | i in s.members :: InstanceKey(s, i) := i
  }

  lemma KeysAreReady(s: Scene)
    requires forall i :: i in s.members ==> s.members[i].typeId in s.typeName
    requires forall i, j :: i in s.members && j in s.members && InstanceKey(s, i) == InstanceKey(s, j) ==> i == j
    ensures Ready(s, Keys(s))
  {
    hide InstanceKey;
  }

  /** The instances of a legally placed catalog are told apart by their keys when their keys differ. */
  lemma PlacedIsReady(d: Db, c: Id, typeName: map<Id, string>, versionOf: map<Id, Id>) returns (names: map<string, Id>)
    requires c in d.catalogs && LegallyPlaced(d, c) && KeysApart(d, c)
    requires TypesResolved(d, d.catalogs[c].cvId, typeName, versionOf)
    ensures Ready(SceneOf(d, c, typeName, versionOf), names)
  {
    hide KeyText, MembersOf, ContainedLegally, Ready;
    var s := SceneOf(d, c, typeName, versionOf);
    forall i | i in s.members
      ensures s.members[i].typeId in s.typeName
    {
      var ver :| PinnedVersion(d, d.catalogs[c].cvId, ver) && d.versions[ver].typeId == s.members[i].typeId;
    }
    forall i, j | i in s.members && j in s.members && InstanceKey(s, i) == InstanceKey(s, j)
      ensures i == j
    {
      assert SameKey(d, s.members[i], s.members[j]);
    }
    names := Keys(s);
    KeysAreReady(s);
  }

  lemma PlacedIsLabelled(d: Db, c: Id, typeName: map<Id, string>, versionOf: map<Id, Id>, holders: Holders, kinds: map<string, string>)
    requires c in d.catalogs && LegallyPlaced(d, c) && NamesGiven(d, c)
    requires TypesResolved(d, d.catalogs[c].cvId, typeName, versionOf)
    requires HoldersResolved(d, d.catalogs[c].cvId, holders) && KindsRead(d, d.catalogs[c].cvId, kinds)
    ensures Labelled(SceneOf(d, c, typeName, versionOf), holders, kinds)
  {
    hide MembersOf, PinnedVersion, TypePinned;
    var s := SceneOf(d, c, typeName, versionOf);
    forall p, i | p in s.members && i in s.members && s.members[i].parent == Some(p)
      ensures Held(s, holders, kinds, p, i)
    {
      assert ContainedLegally(d, c, p, i) && IsChild(d, c, p, i);
    }
  }

  /** Over the acyclic graph of the store's containments, legal parents lead to roots. */
  lemma PlacedIsRooted(d: Db, c: Id)
    requires c in d.catalogs && SchemaInv(d) && LegallyPlaced(d, c)
    ensures AllRooted(MembersOf(d, c))
  {
    hide SchemaInv, Acyclic, ValidForest.PinnedEdges, LinksTouching, CurrentRows, TypePinned, RootReached;
    var v := ViewOf(d, c);
    forall i | i in v.members
      ensures ValidForest.LegalParent(v, i)
      ensures v.members[i].parent.Some? ==> v.members[i].parent.value in v.members
    {
      if v.members[i].parent.Some? {
        var p := v.members[i].parent.value;
        assert ContainedLegally(d, c, p, i);
        var s :| PinnedContainment(d, d.catalogs[c].cvId, s)
                 && HolderKey(d, d.catalogs[c].cvId, s) == (v.members[p].typeId, v.members[i].typeId);
        assert ValidForest.IsPinnedEdge(v, s);
        ValidForest.PinnedEdgeMembership(v, (v.members[p].typeId, v.members[i].typeId));
      }
    }
    ValidForest.PinnedGraphIsAcyclic(d, c);
    ValidForest.LegalIsForest(v);
    forall i | i in v.members
      ensures RootReached(v.members, i)
    {
      ReachesSelf(ParentEdges(v.members), i);
      ClimbEnds(v.members, i, {i}, i, 0);
    }
  }

  // ---- valid catalogs ----

  lemma ConformingFacts(d: Db, c: Id, r: Rules, i: Id)
    requires c in d.catalogs && Conforms(ViewOf(d, c), r) && i in MembersOf(d, c)
    ensures IsDnsLabel(MembersOf(d, c)[i].name)
    ensures TypePinned(d, d.catalogs[c].cvId, MembersOf(d, c)[i].typeId)
    ensures MembersOf(d, c)[i].parent.Some? ==> ContainedLegally(d, c, MembersOf(d, c)[i].parent.value, i)
  {
    hide IsDnsLabel, CurrentRows, LinksTouching, SchemaSound, ValueSound, SourceRange, TargetRange, SourceChecked, InRange, InfoOf;
    var v := ViewOf(d, c);
    assert InstanceConforms(v, r, i);
    var ver :| ver in v.pinned && v.pinned[ver] == v.members[i].typeId;
    assert PinnedVersion(d, d.catalogs[c].cvId, ver);
    if v.members[i].parent.Some? {
      var p := v.members[i].parent.value;
      var s :| AssociationOf(v, s, p) && v.associations[s].kind.Containment? && v.associations[s].target == v.members[i].typeId;
      assert PinnedContainment(d, d.catalogs[c].cvId, s);
    }
  }

  /** Instance names that are DNS labels keep keys apart when type and name do. */
  lemma LabelsKeepKeysApart(d: Db, c: Id)
    requires UniqueTypeNames(d) && NamesApart(MembersOf(d, c))
    requires forall i :: i in MembersOf(d, c) ==> IsDnsLabel(MembersOf(d, c)[i].name)
    ensures KeysApart(d, c)
  {
    hide IsDnsLabel, KeyText, MembersOf;
    var m := MembersOf(d, c);
    forall i, j | i in m && j in m && SameKey(d, m[i], m[j])
      ensures i == j
    {
      KeyTextSplits(d.types[m[i].typeId], m[i].name, d.types[m[j].typeId], m[j].name);
    }
  }

  /** A valid catalog is well placed, and only names have to be told apart. */
  lemma ValidIsShippable(d: Db, c: Id, r: Rules, kinds: map<string, string>)
    requires c in d.catalogs && SchemaInv(d) && Conforms(ViewOf(d, c), r) && NamesApart(MembersOf(d, c)) && Readable(d, c, kinds)
    ensures Shippable(d, c, kinds)
  {
    hide Conforms, ViewOf, SchemaInv, IsDnsLabel, MembersOf, TypePinned, ContainedLegally, AllRooted, KeysApart, NamesApart, KindsRead;
    forall i | i in MembersOf(d, c)
      ensures IsDnsLabel(MembersOf(d, c)[i].name) && TypePinned(d, d.catalogs[c].cvId, MembersOf(d, c)[i].typeId)
      ensures MembersOf(d, c)[i].parent.Some? ==> ContainedLegally(d, c, MembersOf(d, c)[i].parent.value, i)
    {
      ConformingFacts(d, c, r, i);
    }
    PlacedIsRooted(d, c);
    ValidForest.NamesAreUnique(d);
    LabelsKeepKeysApart(d, c);
  }

  // ---- what the target must offer ----

  ghost predicate ValuePortable(s: Scene, w: Scene, codec: TextCodec, ver: Id, i: Id, a: Id)
    requires AttributeHere(s, i, a) && RowKey(i, s.members[i].version, a) in s.values
  {
    && Survives(codec, BaseHere(s, a), s.values[RowKey(i, s.members[i].version, a)])
    && exists b :: b in w.attributes && w.attributes[b].versionId == ver && w.attributes[b].name == s.attributes[a].name
                   && BaseHere(w, b) == BaseHere(s, a)
  }

  ghost predicate InstancePortable(s: Scene, w: Scene, g: Target, codec: TextCodec, i: Id)
    requires i in s.members
  {
    && s.members[i].typeId in s.typeName && s.typeName[s.members[i].typeId] in g.versionIds
    && (forall a :: AttributeHere(s, i, a) && ExportedAt(s, codec, i, a).Some? ==>
          ValuePortable(s, w, codec, g.versionIds[s.typeName[s.members[i].typeId]], i, a))
    && forall l, name, j :: PlainLink(s, l, i, name, j) ==> LinkFits(w, g, s.typeName[s.members[i].typeId], name)
  }

  /** Each type has a target version with an attribute of the same name and kind for every
      stored value, the value survives, and each link's association is found again by name. */
  ghost predicate Portable(s: Scene, w: Scene, g: Target, codec: TextCodec) {
    forall i :: i in s.members ==> InstancePortable(s, w, g, codec, i)
  }

  lemma ValueIsFit(s: Scene, w: Scene, g: Target, codec: TextCodec, i: Id, a: Id)
    requires JsonTextSound(codec) && AttributeHere(s, i, a) && ExportedAt(s, codec, i, a).Some?
    requires i in s.members && InstancePortable(s, w, g, codec, i)
    ensures ValueFits(w, codec, g.versionIds[s.typeName[s.members[i].typeId]], s.attributes[a].name, ExportedAt(s, codec, i, a).value)
  {
    hide ExportValue, ImportValue, Survives, PlainLink, LinkFits, JsonTextSound;
    var ver := g.versionIds[s.typeName[s.members[i].typeId]];
    var v := s.values[RowKey(i, s.members[i].version, a)];
    assert ValuePortable(s, w, codec, ver, i, a);
    ValueRoundTrip(codec, BaseHere(s, a), v);
    var b :| b in w.attributes && w.attributes[b].versionId == ver && w.attributes[b].name == s.attributes[a].name
             && BaseHere(w, b) == BaseHere(s, a);
    assert ExportValue(codec, BaseHere(w, b), ImportValue(codec, BaseHere(w, b), ExportedAt(s, codec, i, a).value))
        == Some(ExportedAt(s, codec, i, a).value);
  }

  lemma NodeValuesFit(s: Scene, w: Scene, g: Target, codec: TextCodec, i: Id, shown: map<string, Json>, n: string)
    requires JsonTextSound(codec) && i in s.members && InstancePortable(s, w, g, codec, i)
    requires ShowsAttributes(s, codec, i, shown) && n in shown
    ensures ValueFits(w, codec, g.versionIds[s.typeName[s.members[i].typeId]], n, shown[n])
  {
    hide InstancePortable, ValueFits, ExportedAt, JsonTextSound;
    var a :| AttributeHere(s, i, a) && s.attributes[a].name == n;
    ValueIsFit(s, w, g, codec, i, a);
  }

  lemma {:induction false} TreeIsImportable(s: Scene, w: Scene, g: Target, codec: TextCodec, names: map<string, Id>,
                                            t: ExportInstance, parent: Option<Id>)
    requires JsonTextSound(codec) && Portable(s, w, g, codec) && DepictsNodes(s, codec, names, t, parent)
    ensures Importable(w, g, codec, t)
    decreases t
  {
    hide ValueFits, ShowsAttributes, JsonTextSound, ValuePortable, LinkFits, PlainLink, ExportedAt;
    var i := names[NodeKey(t)];
    assert InstancePortable(s, w, g, codec, i);
    forall n | n in t.attributes
      ensures ValueFits(w, codec, g.versionIds[t.entityType], n, t.attributes[n])
    {
      NodeValuesFit(s, w, g, codec, i, t.attributes, n);
    }
    forall k, x | k in t.children && 0 <= x < |t.children[k].trees|
      ensures Importable(w, g, codec, t.children[k].trees[x])
    {
      TreeIsImportable(s, w, g, codec, names, t.children[k].trees[x], Some(i));
    }
  }

  lemma {:induction false} CountedAtLeastOnce(links: seq<ExportLink>, k: nat)
    requires k < |links|
    ensures CountLinks(links, links[k].association, TargetKey(links[k])) > 0
  {
    hide TargetKey;
    if k < |links| - 1 {
      CountedAtLeastOnce(links[..|links| - 1], k);
    }
  }

  lemma LinkIsFit(s: Scene, w: Scene, g: Target, codec: TextCodec, names: map<string, Id>, i: Id, links: seq<ExportLink>, k: nat)
    requires i in s.members && InstancePortable(s, w, g, codec, i) && ShowsLinks(s, names, i, links) && k < |links|
    ensures LinkFits(w, g, s.typeName[s.members[i].typeId], links[k].association)
  {
    hide TargetKey, LinkFits, ValuePortable, CountLinks;
    CountedAtLeastOnce(links, k);
    var name, key := links[k].association, TargetKey(links[k]);
    var count := CountLinks(links, name, key);
    assert count == |LinkSet(s, i, name, names[key])|;
    var l :| l in LinkSet(s, i, name, names[key]);
    assert PlainLink(s, l, i, name, names[key]);
  }

  lemma {:induction false} TreeLinksFit(s: Scene, w: Scene, g: Target, codec: TextCodec, names: map<string, Id>,
                                        known: iset<string>, t: ExportInstance, parent: Option<Id>)
    requires Portable(s, w, g, codec) && DepictsNodes(s, codec, names, t, parent) && DepictsLinks(s, names, t)
    requires forall key :: key in names ==> key in known
    ensures Linkable(w, g, known, t)
    decreases t
  {
    hide InstancePortable, ShowsAttributes, LinkFits, LinkSet;
    var i := names[NodeKey(t)];
    assert InstancePortable(s, w, g, codec, i);
    forall k | 0 <= k < |t.links|
      ensures LinkFits(w, g, t.entityType, t.links[k].association)
    {
      LinkIsFit(s, w, g, codec, names, i, t.links, k);
    }
    forall k, x | k in t.children && 0 <= x < |t.children[k].trees|
      ensures Linkable(w, g, known, t.children[k].trees[x])
    {
      TreeLinksFit(s, w, g, codec, names, known, t.children[k].trees[x], Some(i));
    }
  }

  /** The target reuses the types and versions the catalog is read with. */
  ghost predicate Reuses(s: Scene, g: Target) {
    forall t :: t in s.typeName ==>
      s.typeName[t] in g.versionIds && t in s.versionOf && g.versionIds[s.typeName[t]] == s.versionOf[t]
  }

  /** Every link that is exported is found again: it is drawn under an association of its source's
      own version, or that version has none of the name and the reader's table has the link's own,
      as for a link drawn backwards over a bidirectional association of the target's version. */
  ghost predicate LinksFoundAgain(s: Scene, g: Target) {
    forall l, i, name, j {:trigger PlainLink(s, l, i, name, j)} :: PlainLink(s, l, i, name, j) && i in s.members ==>
      s.members[i].typeId in s.versionOf && LinkFoundAgain(s, g, s.versionOf[s.members[i].typeId], name, s.links[l].assoc)
  }

  ghost predicate LinkFoundAgain(s: Scene, g: Target, ver: Id, name: string, a: Id) {
    || OwnAssociation(s.associations, ver, name, a)
    || ((forall x :: !OwnAssociation(s.associations, ver, name, x)) && name in g.associations && g.associations[name] == a)
  }

  ghost predicate ValuesSurvive(s: Scene, codec: TextCodec) {
    forall i, a :: AttributeHere(s, i, a) && RowKey(i, s.members[i].version, a) in s.values ==>
      Survives(codec, BaseHere(s, a), s.values[RowKey(i, s.members[i].version, a)])
  }

  /** Into the schema it came from, a catalog is portable when its values survive and its links
      are its versions' own. */
  lemma OwnSchemaIsPortable(s: Scene, w: Scene, g: Target, codec: TextCodec)
    requires w.attributes == s.attributes && w.typeDefs == s.typeDefs && w.associations == s.associations
    requires UniqueAssociationNames(s.associations) && Reuses(s, g) && LinksFoundAgain(s, g) && ValuesSurvive(s, codec)
    requires forall i :: i in s.members ==> s.members[i].typeId in s.typeName
    ensures Portable(s, w, g, codec)
  {
    hide Survives, ExportValue;
    forall i | i in s.members
      ensures InstancePortable(s, w, g, codec, i)
    {
      var ver := g.versionIds[s.typeName[s.members[i].typeId]];
      forall a | AttributeHere(s, i, a) && ExportedAt(s, codec, i, a).Some?
        ensures ValuePortable(s, w, codec, ver, i, a)
      {
        assert BaseHere(w, a) == BaseHere(s, a);
      }
      forall l, name, j | PlainLink(s, l, i, name, j)
        ensures LinkFits(w, g, s.typeName[s.members[i].typeId], name)
      {
        FoundIsFit(w, g, s.typeName[s.members[i].typeId], name, s.links[l].assoc);
      }
    }
  }

  lemma FoundIsFit(w: Scene, g: Target, typeName: string, name: string, a: Id)
    requires UniqueAssociationNames(w.associations) && typeName in g.versionIds && PlainAssociation(w.associations, name, a)
    requires LinkFoundAgain(w, g, g.versionIds[typeName], name, a)
    ensures LinkFits(w, g, typeName, name)
  {
    var ver := g.versionIds[typeName];
    forall x | OwnAssociation(w.associations, ver, name, x) && OwnAssociation(w.associations, ver, name, a)
      ensures x == a
    {
      assert SameAssocSlot(w.associations[x], w.associations[a]);
    }
  }

  /** What is exported of a catalog can be imported wherever the catalog is portable to. */
  lemma ExportIsAcceptable(s: Scene, w: Scene, g: Target, codec: TextCodec, names: map<string, Id>, forest: seq<ExportInstance>)
    requires JsonTextSound(codec) && Portable(s, w, g, codec) && Depicts(s, codec, names, forest) && ForestApart(forest)
    requires forall x :: 0 <= x < |forest| ==> DistinctKeys(forest[x])
    ensures Acceptable(w, g, codec, forest)
  {
    hide JsonTextSound, Portable, DepictsNodes, DepictsLinks, ForestApart, DistinctKeys, Importable, Linkable, KeyInForest,
         ExportTree.DistinctIds;
    forall x | 0 <= x < |forest|
      ensures Importable(w, g, codec, forest[x]) && Linkable(w, g, KeysOfForest(forest), forest[x])
    {
      TreeIsImportable(s, w, g, codec, names, forest[x], None);
      TreeLinksFit(s, w, g, codec, names, KeysOfForest(forest), forest[x], None);
    }
  }

  // ---- there and back ----

  function MarshalAll(forest: seq<ExportInstance>): seq<Json> {
    seq(|forest|, k requires 0 <= k < |forest| => Marshal(forest[k]))
  }

  lemma ForestIsReadBack(forest: seq<ExportInstance>, kinds: map<string, string>)
    requires (forall x :: 0 <= x < |forest| ==> Plain(forest[x], kinds)) && kinds.Keys !! FIELDS
    ensures forall x :: 0 <= x < |forest| ==> Parse(MarshalAll(forest)[x], kinds, "") == Some(forest[x])
  {
    hide Marshal, Parse, Plain, Faithful;
    forall x | 0 <= x < |forest|
      ensures Parse(MarshalAll(forest)[x], kinds, "") == Some(forest[x])
    {
      PlainIsFaithful(forest[x], kinds, "");
      ParseUndoesMarshal(forest[x], kinds, "");
    }
  }

  predicate DanglingAttribute(d: Db, cv: Id, a: Id) {
    a in d.attributes && PinnedVersion(d, cv, d.attributes[a].versionId) && d.attributes[a].typeDef !in d.typeDefs
  }

  predicate DanglingAssociation(d: Db, cv: Id, s: Id) {
    s in d.associations && PinnedVersion(d, cv, d.associations[s].versionId) && d.associations[s].target !in d.types
  }

  /** The schema part of an export finds everything it refers to. */
  ghost predicate Exportable(d: Db, cv: Id) {
    && (forall p :: !DanglingPin(d, cv, p)) && (forall a :: !DanglingAttribute(d, cv, a))
    && forall s :: !DanglingAssociation(d, cv, s)
  }

  /** The instances of a catalog as the JSON values of an export file. A shippable catalog is
      depicted, and what is written is read back as it was. */
  method ExportCatalog(db: Store, codec: TextCodec, c: Id, ghost kinds: map<string, string>)
    returns (res: Result<seq<Json>>, ghost s: Scene, ghost names: map<string, Id>, ghost forest: seq<ExportInstance>)
    requires c in db.catalogs && UniqueAttributeNames(db.attributes)
    ensures res.Ok? <==> Exportable(db.State(), db.catalogs[c].cvId)
    ensures res.Ok? ==> && TypesResolved(db.State(), db.catalogs[c].cvId, s.typeName, s.versionOf)
                        && s == SceneOf(db.State(), c, s.typeName, s.versionOf)
                        && res.value == MarshalAll(forest)
    ensures res.Ok? && Shippable(db.State(), c, kinds) ==>
              && Depicts(s, codec, names, forest) && ForestApart(forest)
              && (forall x :: 0 <= x < |forest| ==> DistinctKeys(forest[x]))
              && forall x :: 0 <= x < |forest| ==> Parse(res.value[x], kinds, "") == Some(forest[x])
  {
    hide KindsRead, TypesResolved, HoldersResolved, KeysApart, LegallyPlaced, Ready, Depicts, ForestApart, NamesGiven, DistinctKeys,
         Plain, Labelled, UniqueAttributeNames, RootReached, Parse, MembersOf, Marshal;
    ghost var d := db.State();
    s, names, forest := Scene(map[], map[], map[], map[], map[], map[], map[], map[]), map[], [];
    var cv := db.catalogs[c].cvId;
    var types := ResolveTypes(db, cv);
    if types.Err? {
      return Err(types.error), s, names, forest;
    }
    if a :| a in db.attributes && DanglingAttribute(db.State(), cv, a) {
      return Err(NotFound), s, names, forest;
    }
    if a :| a in db.associations && DanglingAssociation(db.State(), cv, a) {
      return Err(NotFound), s, names, forest;
    }
    var holders := ResolveHolders(db, cv);
    var scene := SceneOf(db.State(), c, types.value.0, types.value.1);
    s := scene;
    SameTypes(d, cv, types.value.0, types.value.1);
    if Shippable(d, c, kinds) {
      names := PlacedIsReady(d, c, types.value.0, types.value.1);
      PlacedIsLabelled(d, c, types.value.0, types.value.1, holders, kinds);
    }
    var trees := BuildExportInstances(scene, codec, holders, names, kinds);
    forest := trees;
    if Shippable(d, c, kinds) {
      ForestIsReadBack(trees, kinds);
    }
    return Ok(MarshalAll(trees)), s, names, forest;
  }

  lemma SameTypes(d: Db, cv: Id, typeName: map<Id, string>, versionOf: map<Id, Id>)
    requires TypesResolved(d, cv, typeName, versionOf)
    ensures typeName.Keys <= versionOf.Keys
  {
    hide PinnedVersion;
  }

  /** What the round trip needs of the catalog: legally placed, told apart by keys, and at home
      in the target schema. */
  ghost predicate Transferable(d: Db, c: Id, s: Scene, g: Target, codec: TextCodec, kinds: map<string, string>)
    requires c in d.catalogs && TargetSound(g)
  {
    Shippable(d, c, kinds) && Exportable(d, d.catalogs[c].cvId) && Portable(s, ImportScene(d, d.nextId, g), g, codec)
  }

  /** What a portable row says has an attribute to go to. */
  lemma ValueHasHome(s: Scene, x: Scene, g: Target, codec: TextCodec, i: Id, a: Id, base: BaseType) returns (b: Id)
    requires i in s.members && InstancePortable(s, x, g, codec, i) && Owns(s, i, a) && OfBase(s, a, base)
    requires !SaysSame(codec, base, RowOf(s, i, a), NO_VALUE)
    ensures s.members[i].typeId in s.typeName && s.typeName[s.members[i].typeId] in g.versionIds
    ensures b in x.attributes && x.attributes[b].versionId == g.versionIds[s.typeName[s.members[i].typeId]]
    ensures x.attributes[b].name == s.attributes[a].name && OfBase(x, b, base)
  {
    hide ExportValue, SaysSame, Survives, LinkFits, PlainLink;
    RowIsExported(s, codec, i, a);
    ExportedMeans(codec, base, RowOf(s, i, a), NO_VALUE);
    var ver := g.versionIds[s.typeName[s.members[i].typeId]];
    assert ValuePortable(s, x, codec, ver, i, a);
    b :| b in x.attributes && x.attributes[b].versionId == ver && x.attributes[b].name == s.attributes[a].name
         && BaseHere(x, b) == BaseHere(s, a);
  }

  /** The version a type of the target is read by. */
  lemma ReadByTarget(g: Target, w: Scene, t: Id)
    requires TargetSound(g) && w.typeName == TypeNames(g) && w.versionOf == VersionsOf(g) && t in w.typeName
    ensures w.typeName[t] in g.versionIds && t in w.versionOf && w.versionOf[t] == g.versionIds[w.typeName[t]]
  {
    var n :| n in g.typeIds && g.typeIds[n] == t;
    assert w.typeName[t] == n;
  }

  lemma InstanceHasHomes(s: Scene, x: Scene, w: Scene, g: Target, codec: TextCodec, i: Id, j: Id)
    requires TargetSound(g) && i in s.members && InstancePortable(s, x, g, codec, i)
    requires x.attributes == w.attributes && x.typeDefs == w.typeDefs && w.typeName == TypeNames(g) && w.versionOf == VersionsOf(g)
    requires j in w.members && w.members[j].typeId in w.typeName && s.members[i].typeId in s.typeName
    requires w.typeName[w.members[j].typeId] == s.typeName[s.members[i].typeId]
    ensures ValuesHaveHomes(s, w, codec, i, j)
  {
    hide InstancePortable, SaysSame, TypeNames, VersionsOf;
    ReadByTarget(g, w, w.members[j].typeId);
    forall a, base | Owns(s, i, a) && OfBase(s, a, base) && !SaysSame(codec, base, RowOf(s, i, a), NO_VALUE)
      ensures exists b :: Owns(w, j, b) && w.attributes[b].name == s.attributes[a].name && OfBase(w, b, base)
    {
      var b := ValueHasHome(s, x, g, codec, i, a, base);
      assert Owns(w, j, b) && OfBase(w, b, base);
    }
  }

  /** Every value of a portable catalog has an attribute to go to. */
  lemma PortableHasHomes(s: Scene, x: Scene, w: Scene, g: Target, codec: TextCodec, f: map<Id, Id>)
    requires TargetSound(g) && Portable(s, x, g, codec) && x.attributes == w.attributes && x.typeDefs == w.typeDefs
    requires w.typeName == TypeNames(g) && w.versionOf == VersionsOf(g) && SameUpToIds(s, w, codec, f)
    ensures AllHaveHomes(s, w, codec, f)
  {
    hide InstancePortable, ValuesHaveHomes, LinkSet, SameValues, TypeNames, VersionsOf;
    forall i | i in f && i in s.members && f[i] in w.members
      ensures ValuesHaveHomes(s, w, codec, i, f[i])
    {
      assert SameUnder(s, w, codec, f, i);
      InstanceHasHomes(s, x, w, g, codec, i, f[i]);
    }
  }

  lemma SceneParts(d: Db, c: Id, typeName: map<Id, string>, versionOf: map<Id, Id>)
    ensures var s := SceneOf(d, c, typeName, versionOf);
            && s.values == d.values && s.links == d.links
            && s.members == map i | i in d.instances && d.instances[i].catalogId == c :: d.instances[i]
  {
  }

  lemma ArrivedHasHomes(s: Scene, d: Db, e: Db, g: Target, codec: TextCodec, f: map<Id, Id>, c: Id)
    requires TargetSound(g) && Portable(s, ImportScene(d, d.nextId, g), g, codec) && SchemaSame(d, e)
    requires SameUpToIds(s, ImportScene(e, c, g), codec, f)
    ensures AllHaveHomes(s, ImportScene(e, c, g), codec, f)
  {
    hide Portable, SameUpToIds, AllHaveHomes, TypeNames, VersionsOf, MembersOf;
    PortableHasHomes(s, ImportScene(d, d.nextId, g), ImportScene(e, c, g), g, codec, f);
  }

  /** Exported and imported under a free name, a transferable catalog comes back as a draft that
      is the same up to ids, and the original is left as it was. */
  method ExportThenImport(db: Store, codec: TextCodec, g: Target, c: Id, kinds: map<string, string>, name: string,
                          description: string, cvId: Id)
    returns (res: Result<Id>, ghost s: Scene, ghost f: map<Id, Id>)
    requires c in db.catalogs && UniqueAttributeNames(db.attributes) && FreshData(db.State()) && LinksInside(db.State())
    requires TargetSound(g) && JsonTextSound(codec)
    modifies db`catalogs, db`instances, db`values, db`links, db`nextId
    ensures res.Err? ==> db.State() == old(db.State())
    ensures res.Ok? ==> Imported(old(db.State()), db.State(), Catalog(name, description, cvId, Draft, false))
    ensures Exportable(old(db.State()), old(db.catalogs)[c].cvId) ==>
              && TypesResolved(old(db.State()), old(db.catalogs)[c].cvId, s.typeName, s.versionOf)
              && s == SceneOf(old(db.State()), c, s.typeName, s.versionOf)
              && s.values == old(db.values) && s.links == old(db.links)
              && s.members == map i | i in old(db.instances) && old(db.instances)[i].catalogId == c :: old(db.instances)[i]
    ensures Transferable(old(db.State()), c, s, g, codec, kinds) && (forall x :: x in old(db.catalogs) ==> old(db.catalogs)[x].name != name) ==>
              && res.Ok? && SameUpToIds(s, ImportScene(db.State(), res.value, g), codec, f)
              && AllHaveHomes(s, ImportScene(db.State(), res.value, g), codec, f)
  {
    hide Shippable, TypesResolved, Depicts, ForestApart, DistinctKeys, Parse, Marshal, MembersOf, Portable, Exportable, Imported,
         FreshData, LinksInside, ImportScene, TargetSound, Acceptable, SameUpToIds, Renaming, UniqueAttributeNames, JsonTextSound,
         AllHaveHomes, TypeNames, VersionsOf;
    ghost var d := db.State();
    f := map[];
    ghost var names, forest;
    var file;
    file, s, names, forest := ExportCatalog(db, codec, c, kinds);
    SceneParts(d, c, s.typeName, s.versionOf);
    if file.Err? {
      return Err(file.error), s, f;
    }
    var read := ParseExportInstances(file.value, kinds);
    if read.Err? {
      return Err(read.error), s, f;
    }
    ghost var fits := Transferable(d, c, s, g, codec, kinds);
    if fits {
      assert read.value == forest;
      ExportIsAcceptable(s, ImportScene(d, d.nextId, g), g, codec, names, forest);
    }
    ghost var ids;
    ghost var drawn;
    res, ids, drawn := ImportData(db, codec, g, name, description, cvId, read.value);
    if fits && res.Ok? && Depicts(ImportScene(db.State(), res.value, g), codec, ids, forest) {
      DepictedTwice(s, ImportScene(db.State(), res.value, g), codec, names, ids, forest);
      f := Renaming(names, ids);
      ArrivedHasHomes(s, d, db.State(), g, codec, f, res.value);
    }
  }
}
