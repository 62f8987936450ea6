/** What each finding of a validation says about the tables, and with it what a conforming catalog
    holds: said of rows, pins and links, and of cardinalities by the bounds their texts write. */
module FindingsMeaning {
  import opened Domain
  import opened Database
  import opened Cardinality
  import opened Conformance
  import opened Revisions
  import opened Migration

  // ---- what belongs to what ----

  ghost predicate Member(d: Db, c: Id, i: Id) {
    i in d.instances && d.instances[i].catalogId == c
  }

  /** The catalog's version pins this version of the type. */
  ghost predicate PinsVersion(d: Db, c: Id, ver: Id, typeId: Id)
    requires c in d.catalogs
  {
    && ver in d.versions && d.versions[ver].typeId == typeId
    && exists p :: p in d.pins && d.pins[p].cvId == d.catalogs[c].cvId && d.pins[p].versionId == ver
  }

  ghost predicate PinsType(d: Db, c: Id, typeId: Id)
    requires c in d.catalogs
  {
    exists ver :: PinsVersion(d, c, ver, typeId)
  }

  ghost predicate OwnAttribute(d: Db, c: Id, i: Id, a: Id)
    requires c in d.catalogs
  {
    Member(d, c, i) && a in d.attributes && PinsVersion(d, c, d.attributes[a].versionId, d.instances[i].typeId)
  }

  ghost predicate OwnAssociation(d: Db, c: Id, i: Id, s: Id)
    requires c in d.catalogs
  {
    Member(d, c, i) && s in d.associations && PinsVersion(d, c, d.associations[s].versionId, d.instances[i].typeId)
  }

  /** The association belongs to some pinned version. */
  ghost predicate Pinned(d: Db, c: Id, s: Id)
    requires c in d.catalogs
  {
    s in d.associations && exists t :: PinsVersion(d, c, d.associations[s].versionId, t)
  }

  lemma PinnedInView(d: Db, c: Id, ver: Id, t: Id)
    requires c in d.catalogs
    ensures PinsVersion(d, c, ver, t) <==> ver in ViewOf(d, c).pinned && ViewOf(d, c).pinned[ver] == t
  {
    if PinsVersion(d, c, ver, t) {
      var p :| p in d.pins && d.pins[p].cvId == d.catalogs[c].cvId && d.pins[p].versionId == ver;
      assert d.pins[p] == Pin(d.catalogs[c].cvId, ver);
    }
  }

  lemma OwnInView(d: Db, c: Id, i: Id, x: Id)
    requires c in d.catalogs
    ensures OwnAttribute(d, c, i, x) <==> AttributeOf(ViewOf(d, c), x, i)
    ensures OwnAssociation(d, c, i, x) <==> AssociationOf(ViewOf(d, c), x, i)
    ensures Pinned(d, c, x) <==> x in ViewOf(d, c).associations
  {
    hide PinsVersion;
    if x in d.attributes && i in d.instances {
      PinnedInView(d, c, d.attributes[x].versionId, d.instances[i].typeId);
    }
    if x in d.associations {
      var ver := d.associations[x].versionId;
      if i in d.instances {
        PinnedInView(d, c, ver, d.instances[i].typeId);
      }
      forall t: Id
        ensures PinsVersion(d, c, ver, t) <==> ver in ViewOf(d, c).pinned && ViewOf(d, c).pinned[ver] == t
      {
        PinnedInView(d, c, ver, t);
      }
      assert ver in ViewOf(d, c).pinned ==> PinsVersion(d, c, ver, ViewOf(d, c).pinned[ver]);
    }
  }

  // ---- names and types ----

  /** White space, by code point. */
  lemma SpaceCodes(c: char)
    ensures var n := c as int;
            IsSpace(c) <==>
              || n in {0x20, 0x85, 0xA0, 0x1680, 0x2028, 0x2029, 0x202F, 0x205F, 0x3000}
              || 0x09 <= n <= 0x0D || 0x2000 <= n <= 0x200A
  {
  }

  lemma NameFindings(d: Db, c: Id, r: Rules, i: Id)
    requires c in d.catalogs
    ensures Violates(ViewOf(d, c), r, MissingName(i)) <==>
              Member(d, c, i) && forall k :: 0 <= k < |d.instances[i].name| ==> IsSpace(d.instances[i].name[k])
    ensures Violates(ViewOf(d, c), r, MalformedName(i)) <==>
              && Member(d, c, i) && !Violates(ViewOf(d, c), r, MissingName(i))
              && !(|d.instances[i].name| <= 63 && MatchesLabel(d.instances[i].name))
  {
    if i in d.instances {
      LabelIsMatched(d.instances[i].name);
    }
  }

  /** What may come next: a first or an inner character, after a letter or digit or after a hyphen. */
  datatype Reading = Start | AfterAlnum | AfterHyphen | Stuck

  function Read(at: Reading, c: char): Reading {
    if at.Stuck? then Stuck
    else if 'a' <= c <= 'z' || '0' <= c <= '9' then AfterAlnum
    else if c == '-' && !at.Start? then AfterHyphen
    else Stuck
  }

  function ReadAll(s: string): Reading {
    if s == "" then Start else Read(ReadAll(s[..|s| - 1]), s[|s| - 1])
  }

  /** The source's pattern, read from left to right: letters, digits and inner hyphens. */
  predicate MatchesLabel(s: string) {
    ReadAll(s).AfterAlnum?
  }

  lemma {:induction false} ReadSoFar(s: string)
    requires s != ""
    ensures ReadAll(s).Stuck? <==> !IsLabelChar(s[0]) || exists k :: 0 <= k < |s| && !IsLabelChar(s[k]) && s[k] != '-'
    ensures !ReadAll(s).Stuck? ==> ReadAll(s) == if IsLabelChar(s[|s| - 1]) then AfterAlnum else AfterHyphen
  {
    var front := s[..|s| - 1];
    if front == "" {
      assert ReadAll(front) == Start;
    } else {
      ReadSoFar(front);
      assert forall k :: 0 <= k < |front| ==> front[k] == s[k];
    }
  }

  lemma LabelIsMatched(s: string)
    ensures IsDnsLabel(s) <==> |s| <= 63 && MatchesLabel(s)
  {
    if s != "" {
      ReadSoFar(s);
    }
  }

  lemma TypeFindings(d: Db, c: Id, r: Rules, i: Id)
    requires c in d.catalogs
    ensures Violates(ViewOf(d, c), r, UnpinnedType(i)) <==> Member(d, c, i) && !PinsType(d, c, d.instances[i].typeId)
  {
    TypeInView(d, c, if i in d.instances then d.instances[i].typeId else 0);
  }

  lemma TypeInView(d: Db, c: Id, t: Id)
    requires c in d.catalogs
    ensures PinsType(d, c, t) <==> IsPinned(ViewOf(d, c), t)
  {
    hide PinsVersion;
    forall ver: Id
      ensures PinsVersion(d, c, ver, t) <==> ver in ViewOf(d, c).pinned && ViewOf(d, c).pinned[ver] == t
    {
      PinnedInView(d, c, ver, t);
    }
  }

  // ---- values ----

  /** The type of an attribute; one that cannot be resolved is plain text. */
  ghost function TypeOf(d: Db, a: Id): TypeInfo
    requires a in d.attributes
  {
    var t := d.attributes[a].typeDef;
    if t in d.typeDefs then d.typeDefs[t] else TypeInfo(StringT, Constraints(false, {}, None, None, None, None, None))
  }

  /** What the instance shows under the attribute, at its current version. */
  ghost function Shows(d: Db, i: Id, a: Id): Shown
    requires i in d.instances && a in d.attributes
  {
    Show(TypeOf(d, a).base, RowsAt(d.values, i, d.instances[i].version), a)
  }

  ghost predicate ShowsNothing(d: Db, i: Id, a: Id)
    requires i in d.instances && a in d.attributes
  {
    Shows(d, i, a) in {Blank, Text("")}
  }

  lemma ValueInView(d: Db, c: Id, i: Id, a: Id)
    requires c in d.catalogs && OwnAttribute(d, c, i, a)
    ensures AttributeOf(ViewOf(d, c), a, i) && InfoOf(ViewOf(d, c), a) == TypeOf(d, a)
    ensures ViewOf(d, c).attributes[a].required == d.attributes[a].required
    ensures HasValue(ViewOf(d, c), i, a) <==> !ShowsNothing(d, i, a)
    ensures var k := RowKey(i, d.instances[i].version, a);
            && KeyOf(ViewOf(d, c), i, a) == k && (HasValue(ViewOf(d, c), i, a) ==> k in d.values)
            && (k in d.values ==> k in ViewOf(d, c).rows && ViewOf(d, c).rows[k] == d.values[k])
  {
    OwnInView(d, c, i, a);
  }

  lemma ValueFindings(d: Db, c: Id, r: Rules, i: Id, a: Id)
    requires c in d.catalogs
    ensures Violates(ViewOf(d, c), r, MissingValue(i, a)) <==>
              OwnAttribute(d, c, i, a) && d.attributes[a].required && ShowsNothing(d, i, a)
    ensures Violates(ViewOf(d, c), r, IllegalEnum(i, a)) <==>
              && OwnAttribute(d, c, i, a) && !ShowsNothing(d, i, a) && TypeOf(d, a).base.EnumT?
              && d.values[RowKey(i, d.instances[i].version, a)].str !in TypeOf(d, a).constraints.values
    ensures (exists rule :: Violates(ViewOf(d, c), r, BrokenRule(i, a, rule))) <==>
              && OwnAttribute(d, c, i, a) && !ShowsNothing(d, i, a) && !TypeOf(d, a).base.EnumT?
              && !TypeOf(d, a).constraints.corrupted
              && !WithinType(r, TypeOf(d, a), d.values[RowKey(i, d.instances[i].version, a)])
  {
    hide ViewOf, OwnAttribute, ShowsNothing, WithinType, BrokenRules, TypeOf, HasValue, AttributeOf, InfoOf, KeyOf;
    OwnInView(d, c, i, a);
    if OwnAttribute(d, c, i, a) {
      OwnIsThere(d, c, i, a);
      ValueInView(d, c, i, a);
      var k := RowKey(i, d.instances[i].version, a);
      if k in d.values && !TypeOf(d, a).base.EnumT? {
        NoBrokenRuleMeansWithinType(r, TypeOf(d, a), d.values[k]);
        var broken := BrokenRules(r, TypeOf(d, a), d.values[k]);
        assert broken != [] ==> broken[0] in broken;
        forall rule
          ensures rule in broken && HasValue(ViewOf(d, c), i, a) && !TypeOf(d, a).constraints.corrupted <==>
                    Violates(ViewOf(d, c), r, BrokenRule(i, a, rule))
        {
        }
      }
    }
  }

  /** Which rules a value of the type breaks. */
  ghost predicate Breaks(r: Rules, info: TypeInfo, v: Value, rule: Rule) {
    var c := info.constraints;
    match rule
    case Minimum => (info.base.NumberT? || info.base.IntegerT?) && v.num.Some? && c.min.Some? && v.num.value < c.min.value
    case Maximum => (info.base.NumberT? || info.base.IntegerT?) && v.num.Some? && c.max.Some? && c.max.value < v.num.value
    case Whole => info.base.IntegerT? && v.num.Some? && (v.num.value.Floor as real) < v.num.value
    case Pattern => info.base.StringT? && c.pattern.Some? && r.compiles(c.pattern.value) && !r.matches(c.pattern.value, v.str)
    case Truth => info.base.BooleanT? && v.str !in {"true", "false"}
    case Date => info.base.DateT? && !r.isDate(v.str)
    case Url => info.base.UrlT? && !r.isUrl(v.str)
    case JsonText => info.base.JsonT? && !r.isJson(v.json)
    case ListText => info.base.ListT? && r.listItems(v.json).None?
    case Length =>
      && c.maxLength.Some?
      && ((info.base.StringT? && c.maxLength.value < |v.str| as real)
          || (info.base.ListT? && r.listItems(v.json).Some? && c.maxLength.value < |r.listItems(v.json).value| as real))
    case Element(k) =>
      && info.base.ListT? && r.listItems(v.json).Some? && c.elementType.Some? && k < |r.listItems(v.json).value|
      && !r.isElement(c.elementType.value, r.listItems(v.json).value[k])
  }

  lemma {:induction false} ElementsFound(r: Rules, kind: string, items: seq<Json>, from: nat, rule: Rule)
    requires from <= |items|
    ensures rule in ElementRules(r, kind, items, from) <==>
              rule.Element? && from <= rule.index < |items| && !r.isElement(kind, items[rule.index])
    decreases |items| - from
  {
    if from < |items| {
      ElementsFound(r, kind, items, from + 1, rule);
    }
  }

  lemma RuleFindings(r: Rules, info: TypeInfo, v: Value, rule: Rule)
    ensures rule in BrokenRules(r, info, v) <==> Breaks(r, info, v, rule)
  {
    if info.base.ListT? && r.listItems(v.json).Some? && info.constraints.elementType.Some? {
      ElementsFound(r, info.constraints.elementType.value, r.listItems(v.json).value, 0, rule);
    }
  }

  lemma OwnIsThere(d: Db, c: Id, i: Id, a: Id)
    requires c in d.catalogs && OwnAttribute(d, c, i, a)
    ensures i in d.instances && a in d.attributes
  {
  }

  lemma SchemaFindings(d: Db, c: Id, r: Rules, a: Id)
    requires c in d.catalogs
    ensures Violates(ViewOf(d, c), r, CorruptConstraints(a)) <==>
              (exists i :: OwnAttribute(d, c, i, a)) && TypeOf(d, a).constraints.corrupted
    ensures Violates(ViewOf(d, c), r, BadPattern(a)) <==>
              && (exists i :: OwnAttribute(d, c, i, a)) && TypeOf(d, a).base.StringT? && !TypeOf(d, a).constraints.corrupted
              && TypeOf(d, a).constraints.pattern.Some? && !r.compiles(TypeOf(d, a).constraints.pattern.value)
  {
    hide PinsVersion;
    var v := ViewOf(d, c);
    forall i: Id
      ensures OwnAttribute(d, c, i, a) <==> AttributeOf(v, a, i)
    {
      OwnInView(d, c, i, a);
    }
    if exists i :: OwnAttribute(d, c, i, a) {
      var i :| OwnAttribute(d, c, i, a);
      assert AttributeOf(v, a, i);
      assert InUse(v, v.attributes[a].versionId);
    }
    if a in v.attributes && InUse(v, v.attributes[a].versionId) {
      var i :| i in v.members && Governs(v, v.attributes[a].versionId, i);
      assert AttributeOf(v, a, i);
      assert OwnAttribute(d, c, i, a);
    }
  }

  // ---- counts ----

  ghost function LinksFrom(d: Db, i: Id, s: Id): set<Id> {
    set l | l in d.links && d.links[l].source == i && d.links[l].assoc == s
  }

  ghost function LinksInto(d: Db, i: Id, s: Id): set<Id> {
    set l | l in d.links && d.links[l].target == i && d.links[l].assoc == s
  }

  ghost function ChildrenUnder(d: Db, c: Id, i: Id, t: Id): set<Id> {
    set x | x in d.instances && d.instances[x].catalogId == c && d.instances[x].parent == Some(i) && d.instances[x].typeId == t
  }

  lemma CountsInView(d: Db, c: Id, i: Id, s: Id, t: Id)
    requires c in d.catalogs && Member(d, c, i)
    ensures ForwardLinks(ViewOf(d, c), i, s) == LinksFrom(d, i, s)
    ensures ReverseLinks(ViewOf(d, c), i, s) == LinksInto(d, i, s)
    ensures ChildrenOf(ViewOf(d, c), i, t) == ChildrenUnder(d, c, i, t)
  {
  }

  /** More than the text allows: it writes an upper bound, and this is beyond it. */
  ghost predicate Exceeds(count: nat, h: Shape)
    requires h.WellFormed()
  {
    match h
    case Exactly(n) => count > NumeralValue(n)
    case AtLeast(_) => false
    case Between(_, hi) => count > NumeralValue(hi)
  }

  ghost predicate FallsShort(count: nat, h: Shape)
    requires h.WellFormed()
  {
    match h
    case Exactly(n) => count < NumeralValue(n)
    case AtLeast(lo) => count < NumeralValue(lo)
    case Between(lo, _) => count < NumeralValue(lo)
  }

  /** The only number the text allows is none: "0" or "0..0". */
  ghost predicate OnlyNone(h: Shape)
    requires h.WellFormed()
  {
    match h
    case Exactly(n) => NumeralValue(n) == 0
    case AtLeast(_) => false
    case Between(lo, hi) => NumeralValue(lo) == 0 && NumeralValue(hi) == 0
  }

  lemma RangeSays(h: Shape, count: nat)
    requires h.WellFormed() && h.Fits()
    ensures var r := ParseCardinality(h.Text());
            && (FallsShort(count, h) <==> count < r.min) && (Exceeds(count, h) <==> !r.unbounded && count > r.max)
            && (InRange(count, r) <==> !FallsShort(count, h) && !Exceeds(count, h))
            && (SourceChecked(r) <==> !OnlyNone(h) && !(h.AtLeast? && NumeralValue(h.lo) == 0))
            && (r.min >= 1 <==> FallsShort(0, h))
  {
    ParsedAsWritten(h);
  }

  lemma TargetFindings(d: Db, c: Id, r: Rules, i: Id, s: Id, h: Shape)
    requires c in d.catalogs && h.WellFormed() && h.Fits() && s in d.associations && d.associations[s].targetCardinality == h.Text()
    ensures Violates(ViewOf(d, c), r, TooFewTargets(i, s)) <==>
              OwnAssociation(d, c, i, s) && !d.associations[s].kind.Containment? && FallsShort(|LinksFrom(d, i, s)|, h)
    ensures Violates(ViewOf(d, c), r, TooManyTargets(i, s)) <==>
              OwnAssociation(d, c, i, s) && !d.associations[s].kind.Containment? && Exceeds(|LinksFrom(d, i, s)|, h)
  {
    hide ParseCardinality, FallsShort, Exceeds, PinsVersion;
    OwnInView(d, c, i, s);
    RangeSays(h, |LinksFrom(d, i, s)|);
    if Member(d, c, i) {
      CountsInView(d, c, i, s, 0);
    }
  }

  lemma ChildFindings(d: Db, c: Id, r: Rules, i: Id, s: Id, h: Shape)
    requires c in d.catalogs && h.WellFormed() && h.Fits() && s in d.associations && d.associations[s].targetCardinality == h.Text()
    ensures var count := |ChildrenUnder(d, c, i, d.associations[s].target)|;
            && (Violates(ViewOf(d, c), r, TooFewChildren(i, s)) <==>
                  OwnAssociation(d, c, i, s) && d.associations[s].kind.Containment? && FallsShort(count, h))
            && (Violates(ViewOf(d, c), r, TooManyChildren(i, s)) <==>
                  OwnAssociation(d, c, i, s) && d.associations[s].kind.Containment? && Exceeds(count, h))
  {
    hide ParseCardinality, FallsShort, Exceeds, PinsVersion;
    OwnInView(d, c, i, s);
    var t := d.associations[s].target;
    RangeSays(h, |ChildrenUnder(d, c, i, t)|);
    if Member(d, c, i) {
      CountsInView(d, c, i, s, t);
    }
  }

  /** An association of any pinned version ends at the instance's type. */
  ghost predicate EndsHere(d: Db, c: Id, i: Id, s: Id)
    requires c in d.catalogs
  {
    Member(d, c, i) && Pinned(d, c, s) && !d.associations[s].kind.Containment? && d.associations[s].target == d.instances[i].typeId
  }

  /** The links into an instance must be as many as the source cardinality writes, unless it
      allows none: then nothing is checked. */
  lemma SourceFindings(d: Db, c: Id, r: Rules, i: Id, s: Id, h: Shape)
    requires c in d.catalogs && h.WellFormed() && h.Fits() && s in d.associations && d.associations[s].sourceCardinality == h.Text()
    ensures Violates(ViewOf(d, c), r, TooFewSources(i, s)) <==> EndsHere(d, c, i, s) && FallsShort(|LinksInto(d, i, s)|, h)
    ensures Violates(ViewOf(d, c), r, TooManySources(i, s)) <==>
              EndsHere(d, c, i, s) && !OnlyNone(h) && Exceeds(|LinksInto(d, i, s)|, h)
  {
    hide ParseCardinality, PinsVersion;
    OwnInView(d, c, i, s);
    RangeSays(h, |LinksInto(d, i, s)|);
    if Member(d, c, i) {
      CountsInView(d, c, i, s, 0);
    }
  }

  /** So in a conforming catalog they are within the bounds written, */
  lemma ConformingSourceCount(d: Db, c: Id, r: Rules, i: Id, s: Id, h: Shape)
    requires c in d.catalogs && Conforms(ViewOf(d, c), r) && EndsHere(d, c, i, s)
    requires h.WellFormed() && h.Fits() && d.associations[s].sourceCardinality == h.Text()
    requires h.Meaning() != Range(0, 0, false)
    ensures h.Meaning().min <= |LinksInto(d, i, s)|
    ensures h.Meaning().unbounded || |LinksInto(d, i, s)| <= h.Meaning().max
  {
    hide Violates, Conforms, ViewOf, PinsVersion;
    SourceFindings(d, c, r, i, s, h);
    ConformsMeansNoFindings(ViewOf(d, c), r);
  }

  /** while one that allows none, or any number, asks nothing. */
  lemma NothingAsked(d: Db, c: Id, r: Rules, i: Id, s: Id, h: Shape)
    requires c in d.catalogs && h.WellFormed() && h.Fits() && s in d.associations && d.associations[s].sourceCardinality == h.Text()
    requires h.Meaning() in {Range(0, 0, false), Range(0, 0, true)}
    ensures !Violates(ViewOf(d, c), r, TooFewSources(i, s)) && !Violates(ViewOf(d, c), r, TooManySources(i, s))
  {
    hide Violates, ViewOf, EndsHere;
    SourceFindings(d, c, r, i, s, h);
  }

  /** Two links into one instance over "0..1" do not conform. */
  lemma LinkedTwice(d: Db, c: Id, r: Rules, i: Id, s: Id, l: Id, m: Id)
    requires c in d.catalogs && EndsHere(d, c, i, s) && d.associations[s].sourceCardinality == "0..1"
    requires l in d.links && m in d.links && l != m
    requires d.links[l].target == i && d.links[l].assoc == s && d.links[m].target == i && d.links[m].assoc == s
    ensures !Conforms(ViewOf(d, c), r)
  {
    hide Conforms, ViewOf, EndsHere;
    var h := Between("0", "1");
    assert "0"[..0] == "" && "1"[..0] == "";
    assert NumeralValue("0") == 0 && NumeralValue("1") == 1;
    assert h.Text() == "0..1";
    assert {l, m} <= LinksInto(d, i, s);
    FewerMembers({l, m}, LinksInto(d, i, s));
    if Conforms(ViewOf(d, c), r) {
      ConformingSourceCount(d, c, r, i, s, h);
    }
  }

  lemma FewerMembers(a: set<Id>, b: set<Id>)
    requires a <= b
    ensures |a| <= |b|
  {
    assert |b| == |a| + |b - a|;
  }

  // ---- parents ----

  /** A pinned containment of the type asks for a container. */
  ghost predicate AsksForContainer(d: Db, c: Id, t: Id)
    requires c in d.catalogs
  {
    exists s :: Pinned(d, c, s) && d.associations[s].kind.Containment? && d.associations[s].target == t
                && ParseCardinality(d.associations[s].sourceCardinality).min >= 1
  }

  lemma AllInView(d: Db, c: Id)
    requires c in d.catalogs
    ensures forall j: Id, s: Id :: OwnAssociation(d, c, j, s) <==> AssociationOf(ViewOf(d, c), s, j)
    ensures forall s: Id :: Pinned(d, c, s) <==> s in ViewOf(d, c).associations
    ensures forall t: Id :: PinsType(d, c, t) <==> IsPinned(ViewOf(d, c), t)
  {
    hide OwnAssociation, Pinned, AssociationOf, PinsType, IsPinned, ViewOf;
    forall j: Id, s: Id
      ensures OwnAssociation(d, c, j, s) <==> AssociationOf(ViewOf(d, c), s, j)
    {
      OwnInView(d, c, j, s);
    }
    forall s: Id
      ensures Pinned(d, c, s) <==> s in ViewOf(d, c).associations
    {
      OwnInView(d, c, 0, s);
    }
    forall t: Id
      ensures PinsType(d, c, t) <==> IsPinned(ViewOf(d, c), t)
    {
      TypeInView(d, c, t);
    }
  }

  lemma PartsInView(d: Db, c: Id)
    requires c in d.catalogs
    ensures forall i :: i in ViewOf(d, c).members <==> Member(d, c, i)
    ensures forall i :: Member(d, c, i) ==> ViewOf(d, c).members[i] == d.instances[i]
    ensures forall s :: s in ViewOf(d, c).associations ==> s in d.associations && ViewOf(d, c).associations[s] == d.associations[s]
  {
  }

  lemma ParentFindings(d: Db, c: Id, r: Rules, i: Id)
    requires c in d.catalogs
    ensures Violates(ViewOf(d, c), r, MissingParent(i)) <==>
              Member(d, c, i) && d.instances[i].parent.None? && AsksForContainer(d, c, d.instances[i].typeId)
    ensures Violates(ViewOf(d, c), r, OrphanedParent(i)) <==>
              Member(d, c, i) && d.instances[i].parent.Some? && !Member(d, c, d.instances[i].parent.value)
    ensures Violates(ViewOf(d, c), r, UnpinnedParent(i)) <==>
              && Member(d, c, i) && d.instances[i].parent.Some? && Member(d, c, d.instances[i].parent.value)
              && !PinsType(d, c, d.instances[d.instances[i].parent.value].typeId)
  {
    hide ParseCardinality, PinsType, IsPinned, ViewOf, Member, Pinned;
    AllInView(d, c);
    PartsInView(d, c);
    MembersAreThere(d, c);
  }

  lemma MembersAreThere(d: Db, c: Id)
    ensures forall i :: Member(d, c, i) ==> i in d.instances
  {
  }

  ghost predicate TypeHolds(d: Db, c: Id, p: Id, t: Id)
    requires c in d.catalogs
  {
    exists s :: OwnAssociation(d, c, p, s) && d.associations[s].kind.Containment? && d.associations[s].target == t
  }

  lemma IllegalParentFindings(d: Db, c: Id, r: Rules, i: Id)
    requires c in d.catalogs
    ensures Violates(ViewOf(d, c), r, IllegalParent(i)) <==>
              && Member(d, c, i) && d.instances[i].parent.Some? && Member(d, c, d.instances[i].parent.value)
              && PinsType(d, c, d.instances[d.instances[i].parent.value].typeId)
              && !TypeHolds(d, c, d.instances[i].parent.value, d.instances[i].typeId)
  {
    hide PinsType, IsPinned, ViewOf, Member, PinsVersion, AssociationOf;
    AllInView(d, c);
    PartsInView(d, c);
    MembersAreThere(d, c);
    var v := ViewOf(d, c);
    if KnownParent(v, i) {
      HoldsInView(d, c, v.members[i].parent.value, i);
    }
  }

  lemma HoldsInView(d: Db, c: Id, p: Id, i: Id)
    requires c in d.catalogs && p in ViewOf(d, c).members && i in ViewOf(d, c).members
    ensures i in d.instances && (MayContain(ViewOf(d, c), p, i) <==> TypeHolds(d, c, p, d.instances[i].typeId))
  {
    hide ViewOf, Member, PinsVersion, AssociationOf;
    AllInView(d, c);
    PartsInView(d, c);
    MembersAreThere(d, c);
    var v := ViewOf(d, c);
    forall s | AssociationOf(v, s, p)
      ensures s in d.associations && s in v.associations && v.associations[s] == d.associations[s]
    {
      OfIsThere(v, s, p);
    }
  }

  lemma OfIsThere(v: CatalogView, s: Id, p: Id)
    requires AssociationOf(v, s, p)
    ensures s in v.associations
  {
  }
}
