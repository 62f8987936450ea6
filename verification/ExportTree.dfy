/** A catalog's instances as trees: what it means for a forest of exported instances to
    depict a catalog, and why two catalogs depicted by one forest are the same up to ids. */
module ExportTree {
  import opened Domain
  import opened ExportJson

  // ---- values ----

  /** The text forms of JSON and numbers. */
  datatype TextCodec = TextCodec(
    parseJson: string -> Option<Json>, marshal: Json -> string,
    formatNumber: real -> string, parseNumber: string -> Option<real>, show: Json -> string)

  /** What a stored value is exported as; nothing if it is empty. */
  function ExportValue(codec: TextCodec, base: BaseType, v: Value): Option<Json> {
    match base
    case ListT | JsonT =>
      if v.json == "" then None
      else Some(match codec.parseJson(v.json) case Some(j) => j case None => JStr(v.json))
    case NumberT | IntegerT =>
      if v.num.Some? then Some(JNum(v.num.value)) else if v.str != "" then Some(JStr(v.str)) else None
    case _ => if v.str != "" then Some(JStr(v.str)) else None
  }

  /** What an exported value is stored as. */
  function ImportValue(codec: TextCodec, base: BaseType, j: Json): Value {
    match base
    case ListT | JsonT => if j.JStr? then Value("", None, j.s) else Value("", None, codec.marshal(j))
    case NumberT | IntegerT =>
      (match j
       case JNum(x) => Value(codec.formatNumber(x), Some(x), "")
       case JStr(s) => Value(s, codec.parseNumber(s), "")
       case _ => Value(codec.show(j), None, ""))
    case _ => Value(if j.JStr? then j.s else codec.show(j), None, "")
  }

  /** What is stored for an exported value: a number with its text, or a text with the number it
      may be; JSON as text, a string as it stands; any other value in its text form. */
  lemma ImportedMeans(codec: TextCodec, base: BaseType, j: Json)
    ensures var u := ImportValue(codec, base, j);
            if base.ListT? || base.JsonT? then
              u.str == "" && u.num.None? && u.json == (if j.JStr? then j.s else codec.marshal(j))
            else
              && u.json == "" && u.str == (if j.JStr? then j.s else if j.JNum? && (base.NumberT? || base.IntegerT?)
                                           then codec.formatNumber(j.n) else codec.show(j))
              && u.num == (if !base.NumberT? && !base.IntegerT? then None else if j.JNum? then Some(j.n)
                           else if j.JStr? then codec.parseNumber(j.s) else None)
  {
  }

  /** What has been read from JSON text (RFC 8259) is written as text again, which is never empty,
      and read back from it. Nothing is asked of values that no text has, such as the numbers that
      have no decimal form. */
  ghost predicate JsonTextSound(codec: TextCodec) {
    forall t {:trigger codec.parseJson(t)} :: codec.parseJson(t).Some? ==>
      var j := codec.parseJson(t).value;
      codec.marshal(j) != "" && codec.parseJson(codec.marshal(j)) == Some(j)
  }

  /** A number without a number, kept as text that is one, or JSON text that is a bare string
      whose content is JSON too, comes back as something else. */
  predicate Survives(codec: TextCodec, base: BaseType, v: Value) {
    match base
    case ListT | JsonT =>
      var parsed := codec.parseJson(v.json);
      v.json != "" && parsed.Some? && parsed.value.JStr? ==>
        parsed.value.s != "" && (codec.parseJson(parsed.value.s).None? || codec.parseJson(parsed.value.s) == parsed)
    case NumberT | IntegerT => v.num.None? && v.str != "" ==> codec.parseNumber(v.str).None?
    case _ => true
  }

  /** The texts are one JSON value; a text that is none stands for itself, as a string. */
  ghost predicate SameJson(codec: TextCodec, t: string, u: string) {
    if t == "" || u == "" then t == u
    else match (codec.parseJson(t), codec.parseJson(u))
      case (Some(j), Some(k)) => j == k
      case (None, None) => t == u
      case (Some(j), None) => j == JStr(u)
      case (None, Some(k)) => k == JStr(t)
  }

  /** Two stored values say the same: one number, or one text where there is none; one text; one
      JSON value. */
  ghost predicate SaysSame(codec: TextCodec, base: BaseType, v: Value, u: Value) {
    match base
    case ListT | JsonT => SameJson(codec, v.json, u.json)
    case NumberT | IntegerT => v.num == u.num && (v.num.None? ==> v.str == u.str)
    case _ => v.str == u.str
  }

  const NO_VALUE := Value("", None, "")

  /** The file tells apart exactly the values that say something else, and has nothing for those
      that say nothing; a number is written as itself, and so is a text. */
  lemma ExportedMeans(codec: TextCodec, base: BaseType, v: Value, u: Value)
    ensures ExportValue(codec, base, v) == ExportValue(codec, base, u) <==> SaysSame(codec, base, v, u)
    ensures ExportValue(codec, base, v).None? <==> SaysSame(codec, base, v, NO_VALUE)
    ensures forall x: real :: base.NumberT? || base.IntegerT? ==> (ExportValue(codec, base, v) == Some(JNum(x)) <==> v.num == Some(x))
    ensures forall j: Json :: (base.ListT? || base.JsonT?) && v.json != "" && codec.parseJson(v.json) == Some(j) ==> ExportValue(codec, base, v) == Some(j)
    ensures !base.ListT? && !base.JsonT? && !base.NumberT? && !base.IntegerT? && v.str != "" ==> ExportValue(codec, base, v) == Some(JStr(v.str))
  {
  }

  /** Exactly the values that survive are exported the same after an import, and what is stored
      then says what was stored before. */
  lemma ValueRoundTrip(codec: TextCodec, base: BaseType, v: Value)
    requires JsonTextSound(codec) && ExportValue(codec, base, v).Some?
    ensures var u := ImportValue(codec, base, ExportValue(codec, base, v).value);
            && (ExportValue(codec, base, u) == ExportValue(codec, base, v) <==> Survives(codec, base, v))
            && (SaysSame(codec, base, v, u) <==> Survives(codec, base, v))
  {
    ExportedMeans(codec, base, v, ImportValue(codec, base, ExportValue(codec, base, v).value));
    if base.ListT? || base.JsonT? {
      var j := ExportValue(codec, base, v).value;
      if !j.JStr? {
        assert codec.parseJson(codec.marshal(j)) == Some(j);
      }
    }
  }

  /** A JSON value that is a string holding JSON text comes back as what that text says: the
      string "null" as no value at all. */
  lemma QuotedJsonIsUnquoted(codec: TextCodec)
    requires codec.parseJson("null") == Some(JNull) && codec.parseJson("\"null\"") == Some(JStr("null"))
    ensures var v := Value("", None, "\"null\"");
            && ExportValue(codec, JsonT, v) == Some(JStr("null")) && !Survives(codec, JsonT, v)
            && ExportValue(codec, JsonT, ImportValue(codec, JsonT, JStr("null"))) == Some(JNull)
  {
  }

  /** A codec that reads two texts, to show that both hypotheses can be met at once. */
  const TWO_TEXTS := TextCodec(
    (t: string) => if t == "null" then Some(JNull) else if t == "\"null\"" then Some(JStr("null")) else None,
    (j: Json) => if j == JNull then "null" else "\"null\"",
    (x: real) => "0", (t: string) => None, (j: Json) => "")

  lemma TwoTextsAreSound()
    ensures JsonTextSound(TWO_TEXTS)
    ensures TWO_TEXTS.parseJson("null") == Some(JNull) && TWO_TEXTS.parseJson("\"null\"") == Some(JStr("null"))
  {
    assert "null"[0] == 'n' && "\"null\""[0] == '"';
  }

  // ---- scenes ----

  /** What export and import see of a catalog: its instances, and the names, versions and
      tables that give them meaning. */
  datatype Scene = Scene(
    typeName: map<Id, string>, versionOf: map<Id, Id>, members: map<Id, Instance>, values: map<RowKey, Value>,
    links: map<Id, Link>, attributes: map<Id, Attribute>, typeDefs: map<Id, TypeInfo>, associations: map<Id, Association>)

  predicate AttributeHere(s: Scene, i: Id, a: Id) {
    && i in s.members && s.members[i].typeId in s.versionOf
    && a in s.attributes && s.attributes[a].versionId == s.versionOf[s.members[i].typeId]
  }

  /** A type that cannot be resolved is treated as text. */
  function BaseHere(s: Scene, a: Id): BaseType
    requires a in s.attributes
  {
    if s.attributes[a].typeDef in s.typeDefs then s.typeDefs[s.attributes[a].typeDef].base else StringT
  }

  function ExportedAt(s: Scene, codec: TextCodec, i: Id, a: Id): Option<Json>
    requires AttributeHere(s, i, a)
  {
    var key := RowKey(i, s.members[i].version, a);
    if key in s.values then ExportValue(codec, BaseHere(s, a), s.values[key]) else None
  }

  /** The map holds exactly the instance's non-empty values, by attribute name. */
  ghost predicate ShowsAttributes(s: Scene, codec: TextCodec, i: Id, shown: map<string, Json>) {
    && (forall a :: AttributeHere(s, i, a) ==>
          var n := s.attributes[a].name;
          if ExportedAt(s, codec, i, a).Some? then n in shown && shown[n] == ExportedAt(s, codec, i, a).value else n !in shown)
    && (forall n :: n in shown ==> exists a :: AttributeHere(s, i, a) && s.attributes[a].name == n)
  }

  // ---- what is stored ----

  /** The attribute is read as the base type of its type definition, or as text if it has none. */
  ghost predicate OfBase(s: Scene, a: Id, base: BaseType) {
    a in s.attributes &&
    var t := s.attributes[a].typeDef;
    if t in s.typeDefs then s.typeDefs[t].base == base else base == StringT
  }

  /** The attribute is one of the version the instance is read by. */
  ghost predicate Owns(s: Scene, i: Id, a: Id) {
    && i in s.members && s.members[i].typeId in s.versionOf && a in s.attributes
    && s.attributes[a].versionId == s.versionOf[s.members[i].typeId]
  }

  /** The row at the instance's version; one that says nothing if there is none. */
  ghost function RowOf(s: Scene, i: Id, a: Id): Value
    requires i in s.members
  {
    var key := RowKey(i, s.members[i].version, a);
    if key in s.values then s.values[key] else NO_VALUE
  }

  /** Under attributes of one name and base type, the rows of the two instances say the same. */
  ghost predicate SameValues(s: Scene, w: Scene, codec: TextCodec, i: Id, j: Id) {
    forall a, b, base {:trigger OfBase(s, a, base), OfBase(w, b, base)} ::
      Owns(s, i, a) && Owns(w, j, b) && w.attributes[b].name == s.attributes[a].name && OfBase(s, a, base) && OfBase(w, b, base) ==>
        SaysSame(codec, base, RowOf(s, i, a), RowOf(w, j, b))
  }

  /** Whatever a row says, there is an attribute of the name and base type to say it on the other
      side. */
  ghost predicate ValuesHaveHomes(s: Scene, w: Scene, codec: TextCodec, i: Id, j: Id) {
    forall a, base {:trigger OfBase(s, a, base)} :: Owns(s, i, a) && OfBase(s, a, base) && !SaysSame(codec, base, RowOf(s, i, a), NO_VALUE) ==>
      exists b :: Owns(w, j, b) && w.attributes[b].name == s.attributes[a].name && OfBase(w, b, base)
  }

  ghost predicate AllHaveHomes(s: Scene, w: Scene, codec: TextCodec, f: map<Id, Id>) {
    forall i :: i in f && i in s.members && f[i] in w.members ==> ValuesHaveHomes(s, w, codec, i, f[i])
  }

  /** What is shown alike is stored alike. */
  lemma ShownIsStored(s: Scene, w: Scene, codec: TextCodec, i: Id, j: Id, shown: map<string, Json>)
    requires i in s.members && j in w.members && ShowsAttributes(s, codec, i, shown) && ShowsAttributes(w, codec, j, shown)
    ensures SameValues(s, w, codec, i, j)
  {
    hide ExportValue, SaysSame;
    forall a, b, base | Owns(s, i, a) && Owns(w, j, b) && w.attributes[b].name == s.attributes[a].name && OfBase(s, a, base) && OfBase(w, b, base)
      ensures SaysSame(codec, base, RowOf(s, i, a), RowOf(w, j, b))
    {
      assert BaseHere(s, a) == base && BaseHere(w, b) == base;
      assert ExportedAt(s, codec, i, a) == ExportedAt(w, codec, j, b);
      RowIsExported(s, codec, i, a);
      RowIsExported(w, codec, j, b);
      ExportedMeans(codec, base, RowOf(s, i, a), RowOf(w, j, b));
    }
  }

  lemma RowIsExported(s: Scene, codec: TextCodec, i: Id, a: Id)
    requires AttributeHere(s, i, a)
    ensures ExportedAt(s, codec, i, a) == ExportValue(codec, BaseHere(s, a), RowOf(s, i, a))
  {
  }

  predicate PlainLink(s: Scene, l: Id, i: Id, name: string, j: Id) {
    && l in s.links && s.links[l].source == i && s.links[l].target == j
    && s.links[l].assoc in s.associations && s.associations[s.links[l].assoc].name == name
    && !s.associations[s.links[l].assoc].kind.Containment?
  }

  /** The links from one instance to another under associations of one name, containments aside. */
  ghost function LinkSet(s: Scene, i: Id, name: string, j: Id): set<Id> {
    set l | l in s.links && PlainLink(s, l, i, name, j)
  }

  function KeyText(typeName: string, name: string): string {
    typeName + "/" + name
  }

  function NodeKey(t: ExportInstance): string {
    KeyText(t.entityType, t.name)
  }

  function TargetKey(l: ExportLink): string {
    KeyText(l.targetType, l.targetName)
  }

  function CountLinks(links: seq<ExportLink>, name: string, key: string): nat {
    if links == [] then 0
    else
      var last := links[|links| - 1];
      CountLinks(links[..|links| - 1], name, key) + if last.association == name && TargetKey(last) == key then 1 else 0
  }

  /** Link for link: as many entries per association name and target as there are links. */
  ghost predicate ShowsLinks(s: Scene, names: map<string, Id>, i: Id, links: seq<ExportLink>) {
    && (forall k :: 0 <= k < |links| ==> TargetKey(links[k]) in names)
    && forall name: string, key: string {:trigger CountLinks(links, name, key)} :: key in names ==>
         CountLinks(links, name, key) == |LinkSet(s, i, name, names[key])|
  }

  // ---- depiction ----

  /** The instance is what the node says, its links aside. */
  ghost predicate ShowsNode(s: Scene, codec: TextCodec, i: Id, t: ExportInstance, parent: Option<Id>) {
    && i in s.members && s.members[i].typeId in s.typeName && s.typeName[s.members[i].typeId] == t.entityType
    && s.members[i].name == t.name && s.members[i].description == t.description && s.members[i].parent == parent
    && ShowsAttributes(s, codec, i, t.attributes)
  }

  /** Every node of the tree stands for the instance its key names, under the instance of the
      node above. */
  ghost predicate DepictsNodes(s: Scene, codec: TextCodec, names: map<string, Id>, t: ExportInstance, parent: Option<Id>)
    decreases t
  {
    && NodeKey(t) in names && ShowsNode(s, codec, names[NodeKey(t)], t, parent)
    && forall k, x :: k in t.children && 0 <= x < |t.children[k].trees| ==>
         DepictsNodes(s, codec, names, t.children[k].trees[x], Some(names[NodeKey(t)]))
  }

  ghost predicate DepictsLinks(s: Scene, names: map<string, Id>, t: ExportInstance)
    decreases t
  {
    && NodeKey(t) in names && ShowsLinks(s, names, names[NodeKey(t)], t.links)
    && forall k, x :: k in t.children && 0 <= x < |t.children[k].trees| ==> DepictsLinks(s, names, t.children[k].trees[x])
  }

  ghost predicate KeyIn(t: ExportInstance, key: string)
    decreases t
  {
    key == NodeKey(t)
    || exists k, x :: k in t.children && 0 <= x < |t.children[k].trees| && KeyIn(t.children[k].trees[x], key)
  }

  ghost predicate KeyInForest(forest: seq<ExportInstance>, key: string) {
    exists x :: 0 <= x < |forest| && KeyIn(forest[x], key)
  }

  ghost predicate DistinctIds(names: map<string, Id>) {
    forall k, l :: k in names && l in names && names[k] == names[l] ==> k == l
  }

  /** The forest depicts the scene: every node its instance, every instance its node. */
  ghost predicate Depicts(s: Scene, codec: TextCodec, names: map<string, Id>, forest: seq<ExportInstance>) {
    && (forall x :: 0 <= x < |forest| ==> DepictsNodes(s, codec, names, forest[x], None) && DepictsLinks(s, names, forest[x]))
    && DistinctIds(names) && names.Values == s.members.Keys
    && forall key :: key in names ==> KeyInForest(forest, key)
  }

  // ---- two depictions of one forest ----

  /** The parents stand for one node. */
  ghost predicate SameAbove(m: map<string, Id>, n: map<string, Id>, p: Option<Id>, q: Option<Id>) {
    (p.None? && q.None?) || exists key :: key in m && key in n && p == Some(m[key]) && q == Some(n[key])
  }

  /** The two instances are the same but for ids. */
  ghost predicate SameInstance(s: Scene, w: Scene, codec: TextCodec, m: map<string, Id>, n: map<string, Id>, i: Id, j: Id) {
    && i in s.members && j in w.members
    && s.members[i].typeId in s.typeName && w.members[j].typeId in w.typeName
    && w.typeName[w.members[j].typeId] == s.typeName[s.members[i].typeId]
    && w.members[j].name == s.members[i].name && w.members[j].description == s.members[i].description
    && SameAbove(m, n, s.members[i].parent, w.members[j].parent)
    && (exists shown :: ShowsAttributes(s, codec, i, shown) && ShowsAttributes(w, codec, j, shown))
    && forall name: string, key: string {:trigger LinkSet(s, i, name, m[key])} :: key in m && key in n ==>
         |LinkSet(w, j, name, n[key])| == |LinkSet(s, i, name, m[key])|
  }

  lemma LinksAgree(s: Scene, w: Scene, m: map<string, Id>, n: map<string, Id>, i: Id, j: Id, links: seq<ExportLink>,
                   name: string, key: string)
    requires ShowsLinks(s, m, i, links) && ShowsLinks(w, n, j, links) && key in m && key in n
    ensures |LinkSet(w, j, name, n[key])| == |LinkSet(s, i, name, m[key])|
  {
    hide LinkSet;
    var count := CountLinks(links, name, key);
    assert count == |LinkSet(s, i, name, m[key])|;
  }

  lemma {:induction false} SameAtKey(s: Scene, w: Scene, codec: TextCodec, m: map<string, Id>, n: map<string, Id>,
                                     t: ExportInstance, p: Option<Id>, q: Option<Id>, key: string)
    requires DepictsNodes(s, codec, m, t, p) && DepictsNodes(w, codec, n, t, q) && SameAbove(m, n, p, q)
    requires DepictsLinks(s, m, t) && DepictsLinks(w, n, t) && KeyIn(t, key)
    ensures key in m && key in n && SameInstance(s, w, codec, m, n, m[key], n[key])
    decreases t
  {
    hide ShowsAttributes, LinkSet;
    if key == NodeKey(t) {
      forall name: string, other: string | other in m && other in n
        ensures |LinkSet(w, n[key], name, n[other])| == |LinkSet(s, m[key], name, m[other])|
      {
        LinksAgree(s, w, m, n, m[key], n[key], t.links, name, other);
      }
    } else {
      var k, x :| k in t.children && 0 <= x < |t.children[k].trees| && KeyIn(t.children[k].trees[x], key);
      SameAtKey(s, w, codec, m, n, t.children[k].trees[x], Some(m[NodeKey(t)]), Some(n[NodeKey(t)]), key);
    }
  }

  /** The renaming of ids that two depictions of one forest give. */
  function Renaming(m: map<string, Id>, n: map<string, Id>): map<Id, Id>
    requires DistinctIds(m) && n.Keys == m.Keys
  {
    map k | k in m :: m[k] := n[k]
  }

  /** The scenes are the same under the renaming: same instances, same containment forest, stored
      values that say the same and same links, association name for association name. */
  ghost predicate SameUpToIds(s: Scene, w: Scene, codec: TextCodec, f: map<Id, Id>) {
    && f.Keys == s.members.Keys && f.Values == w.members.Keys
    && (forall i, j :: i in f && j in f && f[i] == f[j] ==> i == j)
    && forall i :: i in f && f[i] in w.members && i in s.members ==> SameUnder(s, w, codec, f, i)
  }

  ghost predicate SameUnder(s: Scene, w: Scene, codec: TextCodec, f: map<Id, Id>, i: Id)
    requires i in f && i in s.members && f[i] in w.members
  {
    var x, y := s.members[i], w.members[f[i]];
    && x.typeId in s.typeName && y.typeId in w.typeName && w.typeName[y.typeId] == s.typeName[x.typeId]
    && y.name == x.name && y.description == x.description
    && (x.parent.None? <==> y.parent.None?)
    && (x.parent.Some? ==> x.parent.value in f && y.parent == Some(f[x.parent.value]))
    && SameValues(s, w, codec, i, f[i])
    && forall name: string, j: Id {:trigger LinkSet(s, i, name, j)} :: j in f ==>
         |LinkSet(w, f[i], name, f[j])| == |LinkSet(s, i, name, j)|
  }

  lemma KeysAreTheForest(s: Scene, codec: TextCodec, names: map<string, Id>, forest: seq<ExportInstance>, key: string)
    requires Depicts(s, codec, names, forest)
    ensures key in names <==> KeyInForest(forest, key)
  {
    hide ShowsNode;
    if KeyInForest(forest, key) {
      var x :| 0 <= x < |forest| && KeyIn(forest[x], key);
      KeysAreNamed(s, codec, names, forest[x], None, key);
    }
  }

  lemma {:induction false} KeysAreNamed(s: Scene, codec: TextCodec, names: map<string, Id>, t: ExportInstance,
                                        parent: Option<Id>, key: string)
    requires DepictsNodes(s, codec, names, t, parent) && KeyIn(t, key)
    ensures key in names
    decreases t
  {
    hide ShowsNode;
    if key != NodeKey(t) {
      var k, x :| k in t.children && 0 <= x < |t.children[k].trees| && KeyIn(t.children[k].trees[x], key);
      KeysAreNamed(s, codec, names, t.children[k].trees[x], Some(names[NodeKey(t)]), key);
    }
  }

  /** Two catalogs depicted by one forest are the same up to ids. */
  lemma DepictedTwice(s: Scene, w: Scene, codec: TextCodec, m: map<string, Id>, n: map<string, Id>, forest: seq<ExportInstance>)
    requires Depicts(s, codec, m, forest) && Depicts(w, codec, n, forest)
    ensures n.Keys == m.Keys && DistinctIds(m) && SameUpToIds(s, w, codec, Renaming(m, n))
  {
    hide DepictsNodes, DepictsLinks, KeyInForest, DistinctIds, SameUnder;
    forall key
      ensures key in m <==> key in n
    {
      KeysAreTheForest(s, codec, m, forest, key);
      KeysAreTheForest(w, codec, n, forest, key);
    }
    assert n.Keys == m.Keys;
    RenamingFacts(m, n);
    forall i | i in Renaming(m, n)
      ensures i in s.members && Renaming(m, n)[i] in w.members && SameUnder(s, w, codec, Renaming(m, n), i)
    {
      var key := SameAtSomeKey(s, w, codec, m, n, forest, i);
      Translate(s, w, codec, m, n, Renaming(m, n), key);
    }
  }

  lemma RenamingFacts(m: map<string, Id>, n: map<string, Id>)
    requires DistinctIds(m) && DistinctIds(n) && n.Keys == m.Keys
    ensures Renaming(m, n).Keys == m.Values && Renaming(m, n).Values == n.Values
    ensures forall key :: key in m ==> m[key] in Renaming(m, n) && Renaming(m, n)[m[key]] == n[key]
    ensures forall i, j :: i in Renaming(m, n) && j in Renaming(m, n) && Renaming(m, n)[i] == Renaming(m, n)[j] ==> i == j
  {
    var f := Renaming(m, n);
    forall y | y in n.Values
      ensures y in f.Values
    {
      var key :| key in n && n[key] == y;
      assert f[m[key]] == y;
    }
    forall y | y in f.Values
      ensures y in n.Values
    {
      var i :| i in f && f[i] == y;
      var key :| key in m && m[key] == i;
      assert n[key] == y;
    }
  }

  lemma SameAtSomeKey(s: Scene, w: Scene, codec: TextCodec, m: map<string, Id>, n: map<string, Id>,
                      forest: seq<ExportInstance>, i: Id) returns (key: string)
    requires Depicts(s, codec, m, forest) && Depicts(w, codec, n, forest) && i in m.Values
    ensures key in m && key in n && m[key] == i && SameInstance(s, w, codec, m, n, m[key], n[key])
  {
    hide DepictsNodes, DepictsLinks, KeyIn, SameInstance, DistinctIds;
    key :| key in m && m[key] == i;
    var x :| 0 <= x < |forest| && KeyIn(forest[x], key);
    SameAtKey(s, w, codec, m, n, forest[x], None, None, key);
  }

  lemma Translate(s: Scene, w: Scene, codec: TextCodec, m: map<string, Id>, n: map<string, Id>, f: map<Id, Id>, key: string)
    requires DistinctIds(m) && n.Keys == m.Keys && f == Renaming(m, n) && key in m && m[key] in f && f[m[key]] == n[key]
    requires forall k :: k in m ==> m[k] in f && f[m[k]] == n[k]
    requires SameInstance(s, w, codec, m, n, m[key], n[key])
    ensures m[key] in s.members && f[m[key]] in w.members && SameUnder(s, w, codec, f, m[key])
  {
    hide LinkSet, ShowsAttributes, SameValues;
    var i := m[key];
    var shown :| ShowsAttributes(s, codec, i, shown) && ShowsAttributes(w, codec, n[key], shown);
    ShownIsStored(s, w, codec, i, n[key], shown);
    forall name: string, j: Id | j in f
      ensures |LinkSet(w, f[i], name, f[j])| == |LinkSet(s, i, name, j)|
    {
      var other :| other in m && m[other] == j;
      assert f[j] == n[other];
      assert |LinkSet(w, n[key], name, n[other])| == |LinkSet(s, m[key], name, m[other])|;
    }
  }
}
