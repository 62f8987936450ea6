/** How the attributes of one entity type version are matched with those of another when a
    pin moves: by name first, then by ordinal, with a report of what becomes of each. */
module AttributeMapping {
  import opened Domain

  /** An attribute row with its id. */
  datatype Attr = Attr(id: Id, name: string, typeDef: Id, ordinal: int, required: bool)

  datatype Entry = Remapped(oldName: string, newName: string) | Orphaned(oldName: string) | Added(newName: string)

  datatype Warning =
    | TypeChanged(name: string, oldType: Id, newType: Id)
    | Deleted(name: string)
    | NewRequired(name: string)
    | RenamedTo(oldName: string, newName: string)

  /** Which new attribute each old one becomes, by position. */
  type Pairing = map<nat, nat>

  predicate SameNameOrId(x: Attr, y: Attr) {
    x.name == y.name || x.id == y.id
  }

  /** Names and ids are not repeated; ordinals may be. */
  ghost predicate Listed(attrs: seq<Attr>) {
    forall j, k :: 0 <= j < |attrs| && 0 <= k < |attrs| && SameNameOrId(attrs[j], attrs[k]) ==> j == k
  }

  ghost predicate HasName(attrs: seq<Attr>, name: string) {
    exists k :: 0 <= k < |attrs| && attrs[k].name == name
  }

  /** The last attribute at an ordinal. */
  ghost predicate LastAt(attrs: seq<Attr>, ordinal: int, j: nat) {
    j < |attrs| && attrs[j].ordinal == ordinal && forall i :: j < i < |attrs| ==> attrs[i].ordinal != ordinal
  }

  ghost predicate SameName(olds: seq<Attr>, news: seq<Attr>, j: nat, k: nat) {
    j < |olds| && k < |news| && olds[j].name == news[k].name
  }

  /** The new attribute is the first at its ordinal whose name is new. */
  ghost predicate FirstNewcomer(olds: seq<Attr>, news: seq<Attr>, k: nat) {
    && k < |news| && !HasName(olds, news[k].name)
    && forall i :: 0 <= i < k && news[i].ordinal == news[k].ordinal ==> HasName(olds, news[i].name)
  }

  /** New attribute k renames old attribute j: j's name is gone, j is the last old attribute
      at their ordinal and k the first newcomer there. */
  ghost predicate Renames(olds: seq<Attr>, news: seq<Attr>, j: nat, k: nat) {
    && FirstNewcomer(olds, news, k) && LastAt(olds, news[k].ordinal, j)
    && !HasName(news, olds[j].name)
  }

  ghost predicate Matches(olds: seq<Attr>, news: seq<Attr>, j: nat, k: nat) {
    SameName(olds, news, j, k) || Renames(olds, news, j, k)
  }

  /** A match pairs each side at most once. */
  lemma MatchingIsOneToOne(olds: seq<Attr>, news: seq<Attr>, i: nat, j: nat, k: nat, l: nat)
    requires Listed(olds) && Listed(news)
    requires Matches(olds, news, i, k) && Matches(olds, news, j, l)
    ensures i == j <==> k == l
  {
    if i == j && Renames(olds, news, i, k) {
      assert news[k].ordinal == news[l].ordinal;
    }
  }

  // ---- what a pairing says ----

  /** The pairing holds the matches by name among the first "upto" old attributes and the
      renamings among the first "limit" new ones. */
  ghost predicate Pairs(olds: seq<Attr>, news: seq<Attr>, p: Pairing, upto: nat, limit: nat) {
    forall j: nat, k: nat :: (j in p && p[j] == k) <==>
      (j < upto && SameName(olds, news, j, k)) || (k < limit && Renames(olds, news, j, k))
  }

  ghost predicate InBounds(olds: seq<Attr>, news: seq<Attr>, p: Pairing) {
    forall j :: j in p ==> j < |olds| && p[j] < |news|
  }

  /** The id map is the pairing, in ids. */
  ghost predicate MapsBy(olds: seq<Attr>, news: seq<Attr>, p: Pairing, mapping: map<Id, Id>)
    requires InBounds(olds, news, p)
  {
    && (forall j :: j in p ==> olds[j].id in mapping && mapping[olds[j].id] == news[p[j]].id)
    && (forall id :: id in mapping ==> exists j :: j in p && olds[j].id == id)
  }

  function LineFor(olds: seq<Attr>, news: seq<Attr>, p: Pairing, j: nat): Entry
    requires j < |olds| && (j in p ==> p[j] < |news|)
  {
    if j in p then Remapped(olds[j].name, news[p[j]].name) else Orphaned(olds[j].name)
  }

  ghost predicate ReportsOld(olds: seq<Attr>, news: seq<Attr>, p: Pairing, report: seq<Entry>, upto: nat)
    requires InBounds(olds, news, p) && upto <= |olds|
  {
    |report| == upto && forall j :: 0 <= j < upto ==> report[j] == LineFor(olds, news, p, j)
  }

  /** The lines for the first "upto" new attributes outside the pairing, in order. */
  function AddedLines(news: seq<Attr>, taken: set<nat>, upto: nat): seq<Entry>
    requires upto <= |news|
  {
    if upto == 0 then []
    else
      var before := AddedLines(news, taken, upto - 1);
      if upto - 1 in taken then before else before + [Added(news[upto - 1].name)]
  }

  /** The warnings that hold of a pairing; "upto" old and "limit" new attributes are accounted for. */
  ghost predicate Warned(olds: seq<Attr>, news: seq<Attr>, p: Pairing, w: Warning, upto: nat, limit: nat)
    requires InBounds(olds, news, p)
  {
    match w
    case TypeChanged(name, t, u) =>
      exists j :: j in p && news[p[j]].name == name && olds[j].typeDef == t && news[p[j]].typeDef == u && t != u
    case Deleted(name) => exists j: nat :: j < |olds| && j < upto && j !in p && olds[j].name == name
    case NewRequired(name) =>
      exists k: nat :: k < |news| && k < limit && k !in p.Values && news[k].name == name && news[k].required
    case RenamedTo(a, b) =>
      exists j :: j in p && olds[j].name == a && news[p[j]].name == b && a != b
  }

  ghost predicate Warns(olds: seq<Attr>, news: seq<Attr>, p: Pairing, warnings: seq<Warning>, upto: nat, limit: nat)
    requires InBounds(olds, news, p)
  {
    forall w :: w in warnings <==> Warned(olds, news, p, w, upto, limit)
  }

  datatype Progress = Progress(mapping: map<Id, Id>, report: seq<Entry>, warnings: seq<Warning>)

  lemma TypeChangeWarned(olds: seq<Attr>, news: seq<Attr>, p: Pairing, warnings: seq<Warning>, j: nat)
    requires InBounds(olds, news, p) && Warns(olds, news, p, warnings, |olds|, |news|) && j in p
    ensures TypeChanged(news[p[j]].name, olds[j].typeDef, news[p[j]].typeDef) in warnings <==> olds[j].typeDef != news[p[j]].typeDef
  {
    var w := TypeChanged(news[p[j]].name, olds[j].typeDef, news[p[j]].typeDef);
    assert w in warnings <==> Warned(olds, news, p, w, |olds|, |news|);
  }

  ghost predicate Decided(olds: seq<Attr>, news: seq<Attr>, p: Pairing, g: Progress, upto: nat, limit: nat) {
    && upto <= |olds| && InBounds(olds, news, p) && Injective(p)
    && Pairs(olds, news, p, upto, limit)
    && MapsBy(olds, news, p, g.mapping)
    && ReportsOld(olds, news, p, g.report, upto)
    && Warns(olds, news, p, g.warnings, upto, 0)
  }

  // ---- the indexes ----

  method IndexNames(attrs: seq<Attr>) returns (index: map<string, nat>)
    ensures forall n :: n in index <==> HasName(attrs, n)
    ensures forall n :: n in index ==> index[n] < |attrs| && attrs[index[n]].name == n
  {
    index := map[];
    for k := 0 to |attrs|
      invariant forall n :: n in index ==> index[n] < k && attrs[index[n]].name == n
      invariant forall i :: 0 <= i < k ==> attrs[i].name in index
    {
      index := index[attrs[k].name := k];
    }
  }

  method IndexOrdinals(attrs: seq<Attr>) returns (index: map<int, nat>)
    ensures forall o, j: nat :: (o in index && index[o] == j) <==> LastAt(attrs, o, j)
    ensures forall o :: o in index ==> index[o] < |attrs|
  {
    index := map[];
    for k := 0 to |attrs|
      invariant forall o :: o in index ==> index[o] < k && attrs[index[o]].ordinal == o
                                           && forall i :: index[o] < i < k ==> attrs[i].ordinal != o
      invariant forall i :: 0 <= i < k ==> attrs[i].ordinal in index
    {
      index := index[attrs[k].ordinal := k];
    }
  }

  method FindByName(attrs: seq<Attr>, name: string) returns (found: Option<nat>)
    ensures found.Some? ==> found.value < |attrs| && attrs[found.value].name == name
    ensures found.None? ==> !HasName(attrs, name)
  {
    for k := 0 to |attrs|
      invariant forall i :: 0 <= i < k ==> attrs[i].name != name
    {
      if attrs[k].name == name {
        return Some(k);
      }
    }
    return None;
  }

  // ---- the name pass ----

  method NamePass(olds: seq<Attr>, news: seq<Attr>, byName: map<string, nat>)
    returns (g: Progress, ghost p: Pairing)
    requires Listed(olds) && Listed(news)
    requires forall n :: n in byName <==> HasName(news, n)
    requires forall n :: n in byName ==> byName[n] < |news| && news[byName[n]].name == n
    ensures Decided(olds, news, p, g, |olds|, 0)
  {
    g, p := Progress(map[], [], []), map[];
    for j := 0 to |olds|
      invariant Decided(olds, news, p, g, j, 0)
    {
      var o := olds[j];
      if o.name in byName {
        var n := news[byName[o.name]];
        NamePaired(olds, news, p, g, j, byName[o.name]);
        g := Progress(g.mapping[o.id := n.id], g.report + [Remapped(o.name, n.name)],
                      g.warnings + if o.typeDef != n.typeDef then [TypeChanged(o.name, o.typeDef, n.typeDef)] else []);
        p := p[j := byName[o.name]];
      } else {
        NameMissing(olds, news, p, g, j);
        g := Progress(g.mapping, g.report + [Orphaned(o.name)], g.warnings + [Deleted(o.name)]);
      }
    }
  }

  lemma NamePaired(olds: seq<Attr>, news: seq<Attr>, p: Pairing, g: Progress, j: nat, k: nat)
    requires Listed(olds) && Listed(news) && Decided(olds, news, p, g, j, 0) && SameName(olds, news, j, k)
    ensures Decided(olds, news, p[j := k],
              Progress(g.mapping[olds[j].id := news[k].id],
                       g.report + [Remapped(olds[j].name, news[k].name)],
                       g.warnings + if olds[j].typeDef != news[k].typeDef
                                    then [TypeChanged(olds[j].name, olds[j].typeDef, news[k].typeDef)] else []),
              j + 1, 0)
  {
    hide LastAt, HasName, Renames, Warned;
    PairedBelow(olds, news, p, j);
    MapMore(olds, news, p, g.mapping, j, k);
    PairedByName(olds, news, p, j, k);
    hide SameName, MapsBy, Pairs;
    var warnings := g.warnings + if olds[j].typeDef != news[k].typeDef
                                 then [TypeChanged(olds[j].name, olds[j].typeDef, news[k].typeDef)] else [];
    forall w
      ensures w in warnings <==> Warned(olds, news, p[j := k], w, j + 1, 0)
    {
      WarnedMore(olds, news, p, j, k, j, w);
      assert olds[j].name == news[k].name;
      assert w in g.warnings <==> Warned(olds, news, p, w, j, 0);
      NotYetDeleted(olds, news, p, j);
    }
  }

  lemma NotYetDeleted(olds: seq<Attr>, news: seq<Attr>, p: Pairing, j: nat)
    requires Listed(olds) && j < |olds| && InBounds(olds, news, p)
    ensures !Warned(olds, news, p, Deleted(olds[j].name), j, 0)
  {
  }

  lemma PairedByName(olds: seq<Attr>, news: seq<Attr>, p: Pairing, j: nat, k: nat)
    requires Listed(olds) && Listed(news) && SameName(olds, news, j, k)
    requires InBounds(olds, news, p) && Injective(p) && Pairs(olds, news, p, j, 0)
    ensures Injective(p[j := k]) && Pairs(olds, news, p[j := k], j + 1, 0)
  {
    hide Renames;
    PairedBelow(olds, news, p, j);
    forall i: nat, l: nat
      ensures (i in p[j := k] && p[j := k][i] == l) <==> (i < j + 1 && SameName(olds, news, i, l))
    {
      assert (i in p && p[i] == l) <==> (i < j && SameName(olds, news, i, l));
    }
  }

  lemma PairedBelow(olds: seq<Attr>, news: seq<Attr>, p: Pairing, upto: nat)
    requires Pairs(olds, news, p, upto, 0)
    ensures forall i :: i in p ==> i < upto && SameName(olds, news, i, p[i])
  {
    hide SameName, Renames;
    forall i | i in p
      ensures i < upto && SameName(olds, news, i, p[i])
    {
      var k := p[i];
      assert (i in p && p[i] == k) <==> i < upto && SameName(olds, news, i, k);
    }
  }

  /** One more pair, seen by the id map. */
  lemma MapMore(olds: seq<Attr>, news: seq<Attr>, p: Pairing, mapping: map<Id, Id>, j: nat, k: nat)
    requires Listed(olds) && InBounds(olds, news, p) && MapsBy(olds, news, p, mapping)
    requires j < |olds| && k < |news| && j !in p
    ensures MapsBy(olds, news, p[j := k], mapping[olds[j].id := news[k].id])
  {
    var q := p[j := k];
    forall id: Id | id in mapping || id == olds[j].id
      ensures exists i :: i in q && olds[i].id == id
    {
      if id == olds[j].id {
        assert j in q;
      } else {
        var i :| i in p && olds[i].id == id;
        assert i in q;
      }
    }
  }

  ghost predicate WarnedBefore(olds: seq<Attr>, news: seq<Attr>, p: Pairing, w: Warning, j: nat, k: nat, upto: nat)
    requires InBounds(olds, news, p) && j < |olds| && k < |news|
  {
    || (Warned(olds, news, p, w, upto, 0) && w != Deleted(olds[j].name))
    || (w == RenamedTo(olds[j].name, news[k].name) && olds[j].name != news[k].name)
  }

  /** One more pair, seen by the warnings. */
  lemma WarnedMore(olds: seq<Attr>, news: seq<Attr>, p: Pairing, j: nat, k: nat, upto: nat, w: Warning)
    requires Listed(olds) && InBounds(olds, news, p) && j < |olds| && k < |news| && j !in p
    requires upto == |olds| || upto == j
    ensures Warned(olds, news, p[j := k], w, if upto == j then j + 1 else upto, 0) <==>
              || WarnedBefore(olds, news, p, w, j, k, upto)
              || (w == TypeChanged(news[k].name, olds[j].typeDef, news[k].typeDef) && olds[j].typeDef != news[k].typeDef)
  {
    var q := p[j := k];
    assert j in q && q[j] == k;
    assert forall i :: i in q ==> i == j || (i in p && q[i] == p[i]);
    assert forall i :: i in p ==> i in q && q[i] == p[i];
  }

  lemma NameMissing(olds: seq<Attr>, news: seq<Attr>, p: Pairing, g: Progress, j: nat)
    requires Listed(olds) && Listed(news) && Decided(olds, news, p, g, j, 0) && j < |olds|
    requires !HasName(news, olds[j].name)
    ensures Decided(olds, news, p,
              Progress(g.mapping, g.report + [Orphaned(olds[j].name)], g.warnings + [Deleted(olds[j].name)]), j + 1, 0)
  {
    hide LastAt, Renames;
    PairedBelow(olds, news, p, j);
    forall w
      ensures w in g.warnings + [Deleted(olds[j].name)] <==> Warned(olds, news, p, w, j + 1, 0)
    {
      assert w in g.warnings <==> Warned(olds, news, p, w, j, 0);
    }
  }

  // ---- the rename pass ----

  method MarkRemapped(report: seq<Entry>, oldName: string, newName: string) returns (out: seq<Entry>)
    ensures |out| == |report|
    ensures forall i :: 0 <= i < |report| ==>
              out[i] == report[i]
              || (report[i] == Orphaned(oldName) && out[i] == Remapped(oldName, newName)
                  && forall h :: 0 <= h < i ==> report[h] != Orphaned(oldName))
    ensures Orphaned(oldName) in report ==> exists i :: 0 <= i < |report| && out[i] == Remapped(oldName, newName)
                                                      && report[i] == Orphaned(oldName)
  {
    for i := 0 to |report|
      invariant forall h :: 0 <= h < i ==> report[h] != Orphaned(oldName)
    {
      if report[i] == Orphaned(oldName) {
        return report[i := Remapped(oldName, newName)];
      }
    }
    return report;
  }

  method WithoutDeleted(warnings: seq<Warning>, name: string) returns (out: seq<Warning>)
    ensures forall w :: w in out <==> w in warnings && w != Deleted(name)
  {
    out := [];
    for i := 0 to |warnings|
      invariant forall w :: w in out <==> w in warnings[..i] && w != Deleted(name)
    {
      if warnings[i] != Deleted(name) {
        out := out + [warnings[i]];
      }
      assert warnings[..i + 1] == warnings[..i] + [warnings[i]];
    }
    assert warnings[..|warnings|] == warnings;
  }

  method RenamePass(olds: seq<Attr>, news: seq<Attr>, byOrdinal: map<int, nat>, start: Progress, ghost from: Pairing)
    returns (g: Progress, ghost p: Pairing)
    requires Listed(olds) && Listed(news) && Decided(olds, news, from, start, |olds|, 0)
    requires forall o, j: nat :: (o in byOrdinal && byOrdinal[o] == j) <==> LastAt(olds, o, j)
    requires forall o :: o in byOrdinal ==> byOrdinal[o] < |olds|
    ensures Decided(olds, news, p, g, |olds|, |news|)
  {
    hide LastAt, Warns;
    g, p := start, from;
    for k := 0 to |news|
      invariant Decided(olds, news, p, g, |olds|, k)
    {
      var n := news[k];
      var known := FindByName(olds, n.name);
      NamedAreMapped(olds, news, p, g, k);
      if known.Some? && olds[known.value].id in g.mapping {
        NotRenaming(olds, news, p, g, k);
        continue;
      }
      if n.ordinal in byOrdinal && olds[byOrdinal[n.ordinal]].id !in g.mapping {
        var j := byOrdinal[n.ordinal];
        var o := olds[j];
        IsRenaming(olds, news, p, g, j, k);
        var report := MarkRemapped(g.report, o.name, n.name);
        var warnings := g.warnings + [RenamedTo(o.name, n.name)]
                        + if o.typeDef != n.typeDef then [TypeChanged(n.name, o.typeDef, n.typeDef)] else [];
        warnings := WithoutDeleted(warnings, o.name);
        PairedByOrdinal(olds, news, p, g, j, k, report, warnings);
        g, p := Progress(g.mapping[o.id := n.id], report, warnings), p[j := k];
      } else {
        NothingToRename(olds, news, p, g, byOrdinal, k);
      }
    }
  }

  lemma InMapping(olds: seq<Attr>, news: seq<Attr>, p: Pairing, mapping: map<Id, Id>, j: nat)
    requires Listed(olds) && InBounds(olds, news, p) && MapsBy(olds, news, p, mapping) && j < |olds|
    ensures olds[j].id in mapping <==> j in p
  {
  }

  lemma NotRenaming(olds: seq<Attr>, news: seq<Attr>, p: Pairing, g: Progress, k: nat)
    requires Decided(olds, news, p, g, |olds|, k) && k < |news| && HasName(olds, news[k].name)
    ensures Decided(olds, news, p, g, |olds|, k + 1)
  {
    hide LastAt, Warns, MapsBy, ReportsOld;
    assert forall j: nat :: !Renames(olds, news, j, k);
  }

  lemma NamedAreMapped(olds: seq<Attr>, news: seq<Attr>, p: Pairing, g: Progress, k: nat)
    requires Listed(olds) && Decided(olds, news, p, g, |olds|, k) && k < |news|
    ensures forall j :: 0 <= j < |olds| && olds[j].name == news[k].name ==> olds[j].id in g.mapping
  {
    hide Warns, Renames, ReportsOld;
    forall j: nat | j < |olds| && olds[j].name == news[k].name
      ensures olds[j].id in g.mapping
    {
      assert SameName(olds, news, j, k);
    }
  }

  lemma IsRenaming(olds: seq<Attr>, news: seq<Attr>, p: Pairing, g: Progress, j: nat, k: nat)
    requires Listed(olds) && Decided(olds, news, p, g, |olds|, k) && k < |news|
    requires !HasName(olds, news[k].name) && LastAt(olds, news[k].ordinal, j) && olds[j].id !in g.mapping
    ensures j !in p && Renames(olds, news, j, k)
  {
    hide Warns, ReportsOld;
    InMapping(olds, news, p, g.mapping, j);
    forall l: nat | l < |news|
      ensures news[l].name != olds[j].name
    {
      assert !SameName(olds, news, j, l);
    }
    forall i: nat | i < k && news[i].ordinal == news[k].ordinal
      ensures !FirstNewcomer(olds, news, i)
    {
      assert !Renames(olds, news, j, i);
    }
    forall i | 0 <= i < k && news[i].ordinal == news[k].ordinal
      ensures HasName(olds, news[i].name)
    {
      if !HasName(olds, news[i].name) {
        var first := FirstUnknown(olds, news, i);
      }
    }
  }

  /** The first newcomer at the ordinal of a newcomer. */
  lemma {:induction false} FirstUnknown(olds: seq<Attr>, news: seq<Attr>, i: nat) returns (first: nat)
    requires i < |news| && !HasName(olds, news[i].name)
    ensures first <= i && news[first].ordinal == news[i].ordinal && FirstNewcomer(olds, news, first)
  {
    if FirstNewcomer(olds, news, i) {
      first := i;
    } else {
      var h: nat :| h < i && news[h].ordinal == news[i].ordinal && !HasName(olds, news[h].name);
      first := FirstUnknown(olds, news, h);
    }
  }

  lemma PairedByOrdinal(olds: seq<Attr>, news: seq<Attr>, p: Pairing, g: Progress, j: nat, k: nat,
                report: seq<Entry>, warnings: seq<Warning>)
    requires Listed(olds) && Listed(news) && Decided(olds, news, p, g, |olds|, k)
    requires j !in p && Renames(olds, news, j, k)
    requires |report| == |g.report|
    requires forall i :: 0 <= i < |report| ==>
               report[i] == g.report[i]
               || (g.report[i] == Orphaned(olds[j].name) && report[i] == Remapped(olds[j].name, news[k].name))
    requires Orphaned(olds[j].name) in g.report ==>
               exists i :: 0 <= i < |report| && report[i] == Remapped(olds[j].name, news[k].name)
                           && g.report[i] == Orphaned(olds[j].name)
    requires forall w :: w in warnings <==>
               && w != Deleted(olds[j].name)
               && (w in g.warnings || w == RenamedTo(olds[j].name, news[k].name)
                   || (w == TypeChanged(news[k].name, olds[j].typeDef, news[k].typeDef)
                       && olds[j].typeDef != news[k].typeDef))
    ensures Decided(olds, news, p[j := k], Progress(g.mapping[olds[j].id := news[k].id], report, warnings), |olds|, k + 1)
  {
    hide Warned;
    MapMore(olds, news, p, g.mapping, j, k);
    RenameReported(olds, news, p, g.report, j, k, report);
    RenamePairs(olds, news, p, j, k);
    assert olds[j].name != news[k].name;
    forall w
      ensures w in warnings <==> Warned(olds, news, p[j := k], w, |olds|, 0)
    {
      WarnedMore(olds, news, p, j, k, |olds|, w);
    }
  }

  lemma RenamePairs(olds: seq<Attr>, news: seq<Attr>, p: Pairing, j: nat, k: nat)
    requires Listed(olds) && Listed(news) && j !in p && Renames(olds, news, j, k)
    requires InBounds(olds, news, p) && Injective(p) && Pairs(olds, news, p, |olds|, k)
    ensures Injective(p[j := k]) && Pairs(olds, news, p[j := k], |olds|, k + 1)
  {
    forall i: nat, l: nat | Matches(olds, news, i, l)
      ensures i == j <==> l == k
    {
      MatchingIsOneToOne(olds, news, i, j, l, k);
    }
    hide Renames, SameName;
    forall i: nat | i in p
      ensures p[i] != k
    {
      assert Matches(olds, news, i, p[i]);
    }
  }

  lemma RenameReported(olds: seq<Attr>, news: seq<Attr>, p: Pairing, was: seq<Entry>, j: nat, k: nat, report: seq<Entry>)
    requires Listed(olds) && InBounds(olds, news, p) && ReportsOld(olds, news, p, was, |olds|)
    requires j < |olds| && k < |news| && j !in p && |report| == |was|
    requires forall i :: 0 <= i < |report| ==>
               report[i] == was[i]
               || (was[i] == Orphaned(olds[j].name) && report[i] == Remapped(olds[j].name, news[k].name))
    requires Orphaned(olds[j].name) in was ==>
               exists i :: 0 <= i < |report| && report[i] == Remapped(olds[j].name, news[k].name)
                           && was[i] == Orphaned(olds[j].name)
    ensures ReportsOld(olds, news, p[j := k], report, |olds|)
  {
    assert was[j] == Orphaned(olds[j].name);
    var i :| 0 <= i < |report| && report[i] == Remapped(olds[j].name, news[k].name) && was[i] == Orphaned(olds[j].name);
    assert olds[i].name == olds[j].name;
  }

  lemma NothingToRename(olds: seq<Attr>, news: seq<Attr>, p: Pairing, g: Progress, byOrdinal: map<int, nat>, k: nat)
    requires Listed(olds) && Listed(news) && Decided(olds, news, p, g, |olds|, k) && k < |news|
    requires forall o, j: nat :: (o in byOrdinal && byOrdinal[o] == j) <==> LastAt(olds, o, j)
    requires news[k].ordinal in byOrdinal ==> LastAt(olds, news[k].ordinal, byOrdinal[news[k].ordinal])
                                              && olds[byOrdinal[news[k].ordinal]].id in g.mapping
    ensures Decided(olds, news, p, g, |olds|, k + 1)
  {
    hide Warns, ReportsOld;
    forall j: nat
      ensures !Renames(olds, news, j, k)
    {
      if Renames(olds, news, j, k) {
        InMapping(olds, news, p, g.mapping, j);
        assert Matches(olds, news, j, p[j]) && Matches(olds, news, j, k);
        MatchingIsOneToOne(olds, news, j, j, p[j], k);
      }
    }
  }

  // ---- the additions ----

  method AddedPass(olds: seq<Attr>, news: seq<Attr>, start: Progress, ghost p: Pairing) returns (g: Progress)
    requires Listed(olds) && Listed(news) && Decided(olds, news, p, start, |olds|, |news|)
    ensures g.mapping == start.mapping
    ensures g.report == start.report + AddedLines(news, p.Values, |news|)
    ensures Warns(olds, news, p, g.warnings, |olds|, |news|)
  {
    var renamed: set<string> := set w | w in start.warnings && w.RenamedTo? :: w.newName;
    g := start;
    for k := 0 to |news|
      invariant g.mapping == start.mapping
      invariant g.report == start.report + AddedLines(news, p.Values, k)
      invariant Warns(olds, news, p, g.warnings, |olds|, k)
    {
      var n := news[k];
      var known := FindByName(olds, n.name);
      IsTaken(olds, news, p, start, known, renamed, k);
      if (known.Some? && olds[known.value].id in start.mapping) || n.name in renamed {
        MoreTaken(olds, news, p, g.warnings, k);
      } else {
        MoreAdded(olds, news, p, g.warnings, k);
        g := g.(report := g.report + [Added(n.name)],
                warnings := g.warnings + if n.required then [NewRequired(n.name)] else []);
      }
    }
  }

  lemma IsTaken(olds: seq<Attr>, news: seq<Attr>, p: Pairing, g: Progress, known: Option<nat>,
                renamed: set<string>, k: nat)
    requires Listed(olds) && Listed(news) && Decided(olds, news, p, g, |olds|, |news|) && k < |news|
    requires known.Some? ==> known.value < |olds| && olds[known.value].name == news[k].name
    requires known.None? ==> !HasName(olds, news[k].name)
    requires renamed == set w | w in g.warnings && w.RenamedTo? :: w.newName
    ensures k in p.Values <==> (known.Some? && olds[known.value].id in g.mapping) || news[k].name in renamed
  {
    hide LastAt;
    if known.Some? {
      InMapping(olds, news, p, g.mapping, known.value);
      assert SameName(olds, news, known.value, k);
      assert known.value in p && p[known.value] == k;
    } else {
      if k in p.Values {
        var j :| j in p && p[j] == k;
        var w := RenamedTo(olds[j].name, news[k].name);
        assert olds[j].name != news[k].name;
        assert Warned(olds, news, p, w, |olds|, 0);
        assert w in g.warnings;
      }
      if news[k].name in renamed {
        var w :| w in g.warnings && w.RenamedTo? && w.newName == news[k].name;
        assert Warned(olds, news, p, w, |olds|, 0);
      }
    }
  }

  lemma MoreTaken(olds: seq<Attr>, news: seq<Attr>, p: Pairing, warnings: seq<Warning>, k: nat)
    requires InBounds(olds, news, p) && Warns(olds, news, p, warnings, |olds|, k) && k in p.Values
    ensures Warns(olds, news, p, warnings, |olds|, k + 1)
  {
    forall w
      ensures Warned(olds, news, p, w, |olds|, k + 1) <==> Warned(olds, news, p, w, |olds|, k)
    {
    }
  }

  lemma MoreAdded(olds: seq<Attr>, news: seq<Attr>, p: Pairing, warnings: seq<Warning>, k: nat)
    requires InBounds(olds, news, p) && Warns(olds, news, p, warnings, |olds|, k) && k < |news| && k !in p.Values
    ensures Warns(olds, news, p, warnings + if news[k].required then [NewRequired(news[k].name)] else [], |olds|, k + 1)
  {
    var more := warnings + if news[k].required then [NewRequired(news[k].name)] else [];
    forall w
      ensures w in more <==> Warned(olds, news, p, w, |olds|, k + 1)
    {
      assert w in warnings <==> Warned(olds, news, p, w, |olds|, k);
    }
  }

  // ---- the whole ----

  /** The pairing is the matching; the id map, the report and the warnings say it and nothing else. */
  method BuildAttributeMapping(olds: seq<Attr>, news: seq<Attr>) returns (g: Progress, ghost p: Pairing)
    requires Listed(olds) && Listed(news)
    ensures InBounds(olds, news, p)
    ensures forall j: nat, k: nat :: (j in p && p[j] == k) <==> Matches(olds, news, j, k)
    ensures MapsBy(olds, news, p, g.mapping)
    ensures |olds| <= |g.report| && ReportsOld(olds, news, p, g.report[..|olds|], |olds|)
    ensures g.report[|olds|..] == AddedLines(news, p.Values, |news|)
    ensures Warns(olds, news, p, g.warnings, |olds|, |news|)
  {
    var byName := IndexNames(news);
    var byOrdinal := IndexOrdinals(olds);
    g, p := NamePass(olds, news, byName);
    g, p := RenamePass(olds, news, byOrdinal, g, p);
    hide HasName, LastAt, Warns, MapsBy;
    var report := g.report;
    g := AddedPass(olds, news, g, p);
    assert g.report[..|olds|] == report;
  }

  /** The id map of a matching is one-to-one, from old ids to new ids. */
  lemma MappingIsInjective(olds: seq<Attr>, news: seq<Attr>, p: Pairing, mapping: map<Id, Id>, x: Id, y: Id)
    requires Listed(olds) && Listed(news) && InBounds(olds, news, p) && MapsBy(olds, news, p, mapping)
    requires forall j: nat, k: nat :: (j in p && p[j] == k) <==> Matches(olds, news, j, k)
    requires x in mapping && y in mapping && mapping[x] == mapping[y]
    ensures x == y
  {
    hide Matches;
    var i :| i in p && olds[i].id == x;
    var j :| j in p && olds[j].id == y;
    assert news[p[i]].id == news[p[j]].id;
    MatchingIsOneToOne(olds, news, i, j, p[i], p[j]);
  }

  ghost predicate NamesNew(e: Entry, name: string) {
    !e.Orphaned? && e.newName == name
  }

  ghost predicate Named(lines: seq<Entry>, name: string) {
    exists i :: 0 <= i < |lines| && NamesNew(lines[i], name)
  }

  ghost predicate NamedOnce(lines: seq<Entry>, name: string) {
    forall i, j :: 0 <= i < |lines| && 0 <= j < |lines| && NamesNew(lines[i], name) && NamesNew(lines[j], name) ==> i == j
  }

  ghost predicate NamesOld(e: Entry, name: string) {
    !e.Added? && e.oldName == name
  }

  lemma {:induction false} OnlyAdded(news: seq<Attr>, taken: set<nat>, upto: nat)
    requires upto <= |news|
    ensures forall i :: 0 <= i < |AddedLines(news, taken, upto)| ==> AddedLines(news, taken, upto)[i].Added?
  {
    if upto > 0 {
      OnlyAdded(news, taken, upto - 1);
    }
  }

  lemma {:induction false} AddedLinesListEach(news: seq<Attr>, taken: set<nat>, upto: nat, k: nat)
    requires Listed(news) && upto <= |news| && k < |news|
    ensures Named(AddedLines(news, taken, upto), news[k].name) <==> k < upto && k !in taken
    ensures NamedOnce(AddedLines(news, taken, upto), news[k].name)
  {
    if upto > 0 {
      AddedLinesListEach(news, taken, upto - 1, k);
      var before := AddedLines(news, taken, upto - 1);
      var lines := AddedLines(news, taken, upto);
      assert forall i :: 0 <= i < |before| ==> lines[i] == before[i];
      if upto - 1 !in taken {
        assert lines[|before|] == Added(news[upto - 1].name);
        if k == upto - 1 {
          assert NamesNew(lines[|before|], news[k].name);
        }
      }
    }
  }

  /** The report is a partition: one line about each old attribute, one about each new one. */
  lemma ReportIsPartition(olds: seq<Attr>, news: seq<Attr>, p: Pairing, report: seq<Entry>, k: nat)
    requires Listed(olds) && Listed(news) && InBounds(olds, news, p) && Injective(p)
    requires |olds| <= |report| && ReportsOld(olds, news, p, report[..|olds|], |olds|)
    requires report[|olds|..] == AddedLines(news, p.Values, |news|)
    ensures k < |olds| ==> NamesOld(report[k], olds[k].name)
                           && forall i :: 0 <= i < |report| && NamesOld(report[i], olds[k].name) ==> i == k
    ensures k < |news| ==> Named(report, news[k].name) && NamedOnce(report, news[k].name)
  {
    hide AddedLines, NamedOnce;
    forall i | 0 <= i < |report|
      ensures i < |olds| ==> report[i] == LineFor(olds, news, p, i)
      ensures |olds| <= i ==> report[i].Added?
    {
      if i < |olds| {
        assert report[i] == report[..|olds|][i];
      } else {
        assert report[i] == AddedLines(news, p.Values, |news|)[i - |olds|];
        OnlyAdded(news, p.Values, |news|);
      }
    }
    if k < |news| {
      NewNamedOnce(olds, news, p, report, k);
    }
  }

  lemma NewNamedOnce(olds: seq<Attr>, news: seq<Attr>, p: Pairing, report: seq<Entry>, k: nat)
    requires Listed(olds) && Listed(news) && InBounds(olds, news, p) && Injective(p)
    requires |olds| <= |report| && k < |news|
    requires forall i :: 0 <= i < |olds| ==> report[i] == LineFor(olds, news, p, i)
    requires report[|olds|..] == AddedLines(news, p.Values, |news|)
    ensures Named(report, news[k].name) && NamedOnce(report, news[k].name)
  {
    hide AddedLines;
    var tail := report[|olds|..];
    AddedLinesListEach(news, p.Values, |news|, k);
    assert forall i :: |olds| <= i < |report| ==> report[i] == tail[i - |olds|];
    if k in p.Values {
      var j :| j in p && p[j] == k;
      assert NamesNew(report[j], news[k].name);
    } else {
      var i :| 0 <= i < |tail| && NamesNew(tail[i], news[k].name);
      assert NamesNew(report[|olds| + i], news[k].name);
    }
    forall i | 0 <= i < |report| && NamesNew(report[i], news[k].name)
      ensures if k in p.Values then i in p && p[i] == k else |olds| <= i && NamesNew(tail[i - |olds|], news[k].name)
    {
      if i >= |olds| {
        assert Named(tail, news[k].name);
      }
    }
  }
}
