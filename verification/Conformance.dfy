/** What it means for a catalog to be valid, said twice: as one positive condition on the
    data and the pinned schema, and as the list of findings a validator may report. */
module Conformance {
  import opened Domain
  import opened Database
  import opened Cardinality

  /** Everything validation of one catalog can see. */
  datatype CatalogView = CatalogView(
    members: map<Id, Instance>,
    rows: map<RowKey, Value>,
    links: map<Id, Link>,
    pinned: map<Id, Id>,
    attributes: map<Id, Attribute>,
    associations: map<Id, Association>,
    typeDefs: map<Id, TypeInfo>)

  function MembersOf(d: Db, c: Id): map<Id, Instance> {
    map i | i in d.instances && d.instances[i].catalogId == c :: d.instances[i]
  }

  /** A type that cannot be resolved is treated as text. */
  function BaseOfAttribute(d: Db, a: Id): BaseType
    requires a in d.attributes
  {
    if d.attributes[a].typeDef in d.typeDefs then d.typeDefs[d.attributes[a].typeDef].base else StringT
  }

  /** The entity type versions pinned to a catalog version, each with its entity type. */
  function PinnedTypes(d: Db, cv: Id): map<Id, Id> {
    map v | v in d.versions && Pin(cv, v) in d.pins.Values :: d.versions[v].typeId
  }

  function CurrentRows(d: Db, c: Id): map<RowKey, Value> {
    map k | k in d.values && k.inst in d.instances && d.instances[k.inst].catalogId == c
            && k.ver == d.instances[k.inst].version :: d.values[k]
  }

  predicate TouchesCatalog(d: Db, c: Id, link: Link) {
    || (link.source in d.instances && d.instances[link.source].catalogId == c)
    || (link.target in d.instances && d.instances[link.target].catalogId == c)
  }

  function LinksTouching(d: Db, c: Id): map<Id, Link> {
    map l | l in d.links && TouchesCatalog(d, c, d.links[l]) :: d.links[l]
  }

  /** Attribute order plays no part in validation, so the view forgets it. */
  function ViewOf(d: Db, c: Id): CatalogView
    requires c in d.catalogs
  {
    var pinned := PinnedTypes(d, d.catalogs[c].cvId);
    CatalogView(
      MembersOf(d, c),
      CurrentRows(d, c),
      LinksTouching(d, c),
      pinned,
      map a | a in d.attributes && d.attributes[a].versionId in pinned :: d.attributes[a].(ordinal := 0),
      map s | s in d.associations && d.associations[s].versionId in pinned :: d.associations[s],
      d.typeDefs)
  }

  // ---- names ----

  predicate IsSpace(c: char) {
    || c in {' ', '\t', '\n', '\r', '\U{0B}', '\U{0C}', '\U{85}', '\U{A0}', '\U{1680}'}
    || '\U{2000}' <= c <= '\U{200A}'
    || c in {'\U{2028}', '\U{2029}', '\U{202F}', '\U{205F}', '\U{3000}'}
  }

  predicate IsBlank(s: string) {
    forall k :: 0 <= k < |s| ==> IsSpace(s[k])
  }

  predicate IsLabelChar(c: char) {
    'a' <= c <= 'z' || '0' <= c <= '9'
  }

  /** A DNS label, section 2.1 of RFC 1123, in lower case. */
  predicate IsDnsLabel(s: string) {
    && 0 < |s| <= 63
    && IsLabelChar(s[0]) && IsLabelChar(s[|s| - 1])
    && forall k :: 0 <= k < |s| ==> IsLabelChar(s[k]) || s[k] == '-'
  }

  // ---- values ----

  /** The text formats the store does not interpret itself. */
  datatype Rules = Rules(
    compiles: string -> bool,
    matches: (string, string) -> bool,
    isDate: string -> bool,
    isUrl: string -> bool,
    isJson: string -> bool,
    listItems: string -> Option<seq<Json>>,
    isElement: (string, Json) -> bool)

  predicate IsEmptyValue(base: BaseType, v: Value) {
    match base
    case StringT | UrlT | DateT | BooleanT | EnumT => v.str == ""
    case NumberT | IntegerT => v.num.None?
    case ListT | JsonT => v.json == ""
  }

  datatype Rule = Length | Pattern | Whole | Minimum | Maximum | Truth | Date | Url | JsonText | ListText | Element(index: nat)

  function When(broken: bool, rule: Rule): seq<Rule> {
    if broken then [rule] else []
  }

  function BoundRules(c: Constraints, x: real): seq<Rule> {
    When(c.min.Some? && x < c.min.value, Minimum) + When(c.max.Some? && x > c.max.value, Maximum)
  }

  function ElementRules(r: Rules, kind: string, items: seq<Json>, from: nat): seq<Rule>
    requires from <= |items|
    decreases |items| - from
  {
    if from == |items| then []
    else When(!r.isElement(kind, items[from]), Element(from)) + ElementRules(r, kind, items, from + 1)
  }

  /** The rules of its type that a value breaks, in the order they are reported. */
  function BrokenRules(r: Rules, info: TypeInfo, v: Value): seq<Rule> {
    var c := info.constraints;
    match info.base
    case StringT =>
      When(c.maxLength.Some? && (|v.str| as real) > c.maxLength.value, Length)
      + When(c.pattern.Some? && r.compiles(c.pattern.value) && !r.matches(c.pattern.value, v.str), Pattern)
    case IntegerT =>
      if v.num.None? then [] else When(v.num.value.Floor as real != v.num.value, Whole) + BoundRules(c, v.num.value)
    case NumberT => if v.num.None? then [] else BoundRules(c, v.num.value)
    case BooleanT => When(v.str != "true" && v.str != "false", Truth)
    case DateT => When(!r.isDate(v.str), Date)
    case UrlT => When(!r.isUrl(v.str), Url)
    case JsonT => When(!r.isJson(v.json), JsonText)
    case ListT =>
      (match r.listItems(v.json)
       case None => [ListText]
       case Some(items) =>
         When(c.maxLength.Some? && (|items| as real) > c.maxLength.value, Length)
         + if c.elementType.Some? then ElementRules(r, c.elementType.value, items, 0) else [])
    case EnumT => []
  }

  /** The same as a condition: the value is one its type and constraints allow. */
  ghost predicate WithinType(r: Rules, info: TypeInfo, v: Value) {
    var c := info.constraints;
    match info.base
    case StringT =>
      && (c.maxLength.Some? ==> (|v.str| as real) <= c.maxLength.value)
      && (c.pattern.Some? && r.compiles(c.pattern.value) ==> r.matches(c.pattern.value, v.str))
    case IntegerT => v.num.Some? ==> v.num.value.Floor as real == v.num.value && WithinBounds(c, v.num.value)
    case NumberT => v.num.Some? ==> WithinBounds(c, v.num.value)
    case BooleanT => v.str in {"true", "false"}
    case DateT => r.isDate(v.str)
    case UrlT => r.isUrl(v.str)
    case JsonT => r.isJson(v.json)
    case ListT =>
      && r.listItems(v.json).Some?
      && var items := r.listItems(v.json).value;
      && (c.maxLength.Some? ==> (|items| as real) <= c.maxLength.value)
      && (c.elementType.Some? ==> forall k :: 0 <= k < |items| ==> r.isElement(c.elementType.value, items[k]))
    case EnumT => v.str in c.values
  }

  ghost predicate WithinBounds(c: Constraints, x: real) {
    (c.min.Some? ==> c.min.value <= x) && (c.max.Some? ==> x <= c.max.value)
  }

  lemma {:induction false} ElementRulesAreFailures(r: Rules, kind: string, items: seq<Json>, from: nat)
    requires from <= |items|
    ensures ElementRules(r, kind, items, from) == [] <==>
            forall k :: from <= k < |items| ==> r.isElement(kind, items[k])
    decreases |items| - from
  {
    if from < |items| {
      ElementRulesAreFailures(r, kind, items, from + 1);
    }
  }

  /** Outside enumerations, which are checked on their own, no broken rule means an allowed value. */
  lemma NoBrokenRuleMeansWithinType(r: Rules, info: TypeInfo, v: Value)
    requires !info.base.EnumT?
    ensures BrokenRules(r, info, v) == [] <==> WithinType(r, info, v)
  {
    if info.base.ListT? && r.listItems(v.json).Some? && info.constraints.elementType.Some? {
      ElementRulesAreFailures(r, info.constraints.elementType.value, r.listItems(v.json).value, 0);
    }
  }

  // ---- the parts of a view ----

  /** "version" is the pinned version of the instance's entity type. */
  predicate Governs(v: CatalogView, version: Id, i: Id)
    requires i in v.members
  {
    version in v.pinned && v.pinned[version] == v.members[i].typeId
  }

  ghost predicate IsPinned(v: CatalogView, typeId: Id) {
    exists version :: version in v.pinned && v.pinned[version] == typeId
  }

  predicate AttributeOf(v: CatalogView, a: Id, i: Id) {
    i in v.members && a in v.attributes && Governs(v, v.attributes[a].versionId, i)
  }

  predicate AssociationOf(v: CatalogView, s: Id, i: Id) {
    i in v.members && s in v.associations && Governs(v, v.associations[s].versionId, i)
  }

  /** Plain text is the fallback for a type definition that cannot be resolved. */
  function InfoOf(v: CatalogView, a: Id): TypeInfo
    requires a in v.attributes
  {
    if v.attributes[a].typeDef in v.typeDefs then v.typeDefs[v.attributes[a].typeDef]
    else TypeInfo(StringT, Constraints(false, {}, None, None, None, None, None))
  }

  function KeyOf(v: CatalogView, i: Id, a: Id): RowKey
    requires i in v.members
  {
    RowKey(i, v.members[i].version, a)
  }

  predicate HasValue(v: CatalogView, i: Id, a: Id)
    requires AttributeOf(v, a, i)
  {
    KeyOf(v, i, a) in v.rows && !IsEmptyValue(InfoOf(v, a).base, v.rows[KeyOf(v, i, a)])
  }

  function ForwardLinks(v: CatalogView, i: Id, s: Id): set<Id> {
    set l | l in v.links && v.links[l].source == i && v.links[l].assoc == s
  }

  function ReverseLinks(v: CatalogView, i: Id, s: Id): set<Id> {
    set l | l in v.links && v.links[l].target == i && v.links[l].assoc == s
  }

  function ChildrenOf(v: CatalogView, i: Id, typeId: Id): set<Id> {
    set m | m in v.members && v.members[m].parent == Some(i) && v.members[m].typeId == typeId
  }

  /** The entity type version has an instance in the catalog. */
  ghost predicate InUse(v: CatalogView, version: Id) {
    exists i :: i in v.members && Governs(v, version, i)
  }

  function SourceRange(v: CatalogView, s: Id): Range
    requires s in v.associations
  {
    ParseCardinality(v.associations[s].sourceCardinality)
  }

  function TargetRange(v: CatalogView, s: Id): Range
    requires s in v.associations
  {
    ParseCardinality(v.associations[s].targetCardinality)
  }

  /** A source cardinality that says nothing, or whose maximum is 0, is not checked. */
  predicate SourceChecked(r: Range) {
    r.min > 0 || (!r.unbounded && r.max > 0)
  }

  ghost predicate MustBeContained(v: CatalogView, typeId: Id) {
    exists s :: s in v.associations && v.associations[s].kind.Containment?
                && v.associations[s].target == typeId && SourceRange(v, s).min >= 1
  }

  ghost predicate MayContain(v: CatalogView, parent: Id, child: Id)
    requires parent in v.members && child in v.members
  {
    exists s :: AssociationOf(v, s, parent) && v.associations[s].kind.Containment?
                && v.associations[s].target == v.members[child].typeId
  }

  // ---- the declarative condition ----

  ghost predicate SchemaSound(v: CatalogView, r: Rules, a: Id)
    requires a in v.attributes
  {
    var info := InfoOf(v, a);
    && !info.constraints.corrupted
    && (info.base.StringT? && info.constraints.pattern.Some? ==> r.compiles(info.constraints.pattern.value))
  }

  ghost predicate ValueSound(v: CatalogView, r: Rules, i: Id, a: Id)
    requires AttributeOf(v, a, i)
  {
    if HasValue(v, i, a) then WithinType(r, InfoOf(v, a), v.rows[KeyOf(v, i, a)])
    else !v.attributes[a].required
  }

  ghost predicate ParentSound(v: CatalogView, i: Id)
    requires i in v.members
  {
    match v.members[i].parent
    case None => !MustBeContained(v, v.members[i].typeId)
    case Some(p) => p in v.members && MayContain(v, p, i)
  }

  ghost predicate InstanceConforms(v: CatalogView, r: Rules, i: Id)
    requires i in v.members
  {
    && IsDnsLabel(v.members[i].name)
    && IsPinned(v, v.members[i].typeId)
    && ParentSound(v, i)
    && (forall a :: AttributeOf(v, a, i) ==> SchemaSound(v, r, a) && ValueSound(v, r, i, a))
    && (forall s :: AssociationOf(v, s, i) ==>
          if v.associations[s].kind.Containment?
          then InRange(|ChildrenOf(v, i, v.associations[s].target)|, TargetRange(v, s))
          else InRange(|ForwardLinks(v, i, s)|, TargetRange(v, s)))
    && (forall s :: s in v.associations && !v.associations[s].kind.Containment?
                    && v.associations[s].target == v.members[i].typeId && SourceChecked(SourceRange(v, s)) ==>
          InRange(|ReverseLinks(v, i, s)|, SourceRange(v, s)))
  }

  /** The catalog meets the schema its catalog version pins. */
  ghost predicate Conforms(v: CatalogView, r: Rules) {
    forall i :: i in v.members ==> InstanceConforms(v, r, i)
  }

  // ---- the findings ----

  datatype Finding =
    | MissingName(inst: Id)
    | MalformedName(inst: Id)
    | UnpinnedType(inst: Id)
    | CorruptConstraints(attr: Id)
    | BadPattern(attr: Id)
    | MissingValue(inst: Id, attr: Id)
    | IllegalEnum(inst: Id, attr: Id)
    | BrokenRule(inst: Id, attr: Id, rule: Rule)
    | TooFewTargets(inst: Id, assoc: Id)
    | TooManyTargets(inst: Id, assoc: Id)
    | TooFewSources(inst: Id, assoc: Id)
    | TooManySources(inst: Id, assoc: Id)
    | MissingParent(inst: Id)
    | OrphanedParent(inst: Id)
    | UnpinnedParent(inst: Id)
    | IllegalParent(inst: Id)
    | TooFewChildren(inst: Id, assoc: Id)
    | TooManyChildren(inst: Id, assoc: Id)

  ghost predicate Linking(v: CatalogView, s: Id, i: Id) {
    AssociationOf(v, s, i) && !v.associations[s].kind.Containment?
  }

  ghost predicate Containing(v: CatalogView, s: Id, i: Id) {
    AssociationOf(v, s, i) && v.associations[s].kind.Containment?
  }

  ghost predicate CheckedSource(v: CatalogView, s: Id, i: Id) {
    && i in v.members && s in v.associations && !v.associations[s].kind.Containment?
    && v.associations[s].target == v.members[i].typeId && SourceChecked(SourceRange(v, s))
  }

  ghost predicate KnownParent(v: CatalogView, i: Id) {
    i in v.members && v.members[i].parent.Some? && v.members[i].parent.value in v.members
  }

  /** The finding holds of the catalog. */
  ghost predicate Violates(v: CatalogView, r: Rules, f: Finding) {
    match f
    case MissingName(i) => i in v.members && IsBlank(v.members[i].name)
    case MalformedName(i) => i in v.members && !IsBlank(v.members[i].name) && !IsDnsLabel(v.members[i].name)
    case UnpinnedType(i) => i in v.members && !IsPinned(v, v.members[i].typeId)
    case CorruptConstraints(a) =>
      a in v.attributes && InUse(v, v.attributes[a].versionId) && InfoOf(v, a).constraints.corrupted
    case BadPattern(a) =>
      && a in v.attributes && InUse(v, v.attributes[a].versionId)
      && InfoOf(v, a).base.StringT? && !InfoOf(v, a).constraints.corrupted
      && InfoOf(v, a).constraints.pattern.Some? && !r.compiles(InfoOf(v, a).constraints.pattern.value)
    case MissingValue(i, a) => AttributeOf(v, a, i) && v.attributes[a].required && !HasValue(v, i, a)
    case IllegalEnum(i, a) =>
      && AttributeOf(v, a, i) && HasValue(v, i, a) && InfoOf(v, a).base.EnumT?
      && v.rows[KeyOf(v, i, a)].str !in InfoOf(v, a).constraints.values
    case BrokenRule(i, a, rule) =>
      && AttributeOf(v, a, i) && HasValue(v, i, a) && !InfoOf(v, a).base.EnumT?
      && !InfoOf(v, a).constraints.corrupted
      && rule in BrokenRules(r, InfoOf(v, a), v.rows[KeyOf(v, i, a)])
    case TooFewTargets(i, s) => Linking(v, s, i) && |ForwardLinks(v, i, s)| < TargetRange(v, s).min
    case TooManyTargets(i, s) =>
      Linking(v, s, i) && !TargetRange(v, s).unbounded && |ForwardLinks(v, i, s)| > TargetRange(v, s).max
    case TooFewSources(i, s) => CheckedSource(v, s, i) && |ReverseLinks(v, i, s)| < SourceRange(v, s).min
    case TooManySources(i, s) =>
      CheckedSource(v, s, i) && !SourceRange(v, s).unbounded && |ReverseLinks(v, i, s)| > SourceRange(v, s).max
    case MissingParent(i) => i in v.members && v.members[i].parent.None? && MustBeContained(v, v.members[i].typeId)
    case OrphanedParent(i) => i in v.members && v.members[i].parent.Some? && !KnownParent(v, i)
    case UnpinnedParent(i) => KnownParent(v, i) && !IsPinned(v, v.members[v.members[i].parent.value].typeId)
    case IllegalParent(i) =>
      && KnownParent(v, i) && IsPinned(v, v.members[v.members[i].parent.value].typeId)
      && !MayContain(v, v.members[i].parent.value, i)
    case TooFewChildren(i, s) =>
      Containing(v, s, i) && |ChildrenOf(v, i, v.associations[s].target)| < TargetRange(v, s).min
    case TooManyChildren(i, s) =>
      && Containing(v, s, i) && !TargetRange(v, s).unbounded
      && |ChildrenOf(v, i, v.associations[s].target)| > TargetRange(v, s).max
  }

  /** Attributes and associations of the view belong to pinned versions. */
  ghost predicate WellFormedView(v: CatalogView) {
    && (forall a :: a in v.attributes ==> v.attributes[a].versionId in v.pinned)
    && (forall s :: s in v.associations ==> v.associations[s].versionId in v.pinned)
  }

  ghost predicate NoFindings(v: CatalogView, r: Rules) {
    forall f :: !Violates(v, r, f)
  }

  lemma ViewIsWellFormed(d: Db, c: Id)
    requires c in d.catalogs
    ensures WellFormedView(ViewOf(d, c))
  {
  }

  /** A catalog conforms exactly when nothing can be found against it. */
  lemma ConformsMeansNoFindings(v: CatalogView, r: Rules)
    ensures Conforms(v, r) <==> NoFindings(v, r)
  {
    if Conforms(v, r) {
      forall f
        ensures !Violates(v, r, f)
      {
        ConformingHasNo(v, r, f);
      }
    }
    if NoFindings(v, r) {
      forall i | i in v.members
        ensures InstanceConforms(v, r, i)
      {
        CleanInstanceConforms(v, r, i);
      }
    }
  }

  lemma ConformingHasNo(v: CatalogView, r: Rules, f: Finding)
    requires Conforms(v, r)
    ensures !Violates(v, r, f)
  {
    hide ParseCardinality, BrokenRules, WithinType;
    match f
    case MissingName(i) =>
      if i in v.members {
        assert InstanceConforms(v, r, i);
        assert !IsSpace(v.members[i].name[0]);
      }
    case MalformedName(i) => assert i in v.members ==> InstanceConforms(v, r, i);
    case UnpinnedType(i) => assert i in v.members ==> InstanceConforms(v, r, i);
    case CorruptConstraints(a) => ConformingSchema(v, r, a);
    case BadPattern(a) => ConformingSchema(v, r, a);
    case MissingValue(i, a) => assert i in v.members ==> InstanceConforms(v, r, i);
    case IllegalEnum(i, a) => ConformingEnum(v, r, i, a);
    case BrokenRule(i, a, rule) => ConformingRule(v, r, i, a, rule);
    case MissingParent(i) => ConformingParent(v, r, i);
    case OrphanedParent(i) => ConformingParent(v, r, i);
    case UnpinnedParent(i) => ConformingParent(v, r, i);
    case IllegalParent(i) => ConformingParent(v, r, i);
    case TooFewTargets(i, s) => ConformingTargets(v, r, i, s);
    case TooManyTargets(i, s) => ConformingTargets(v, r, i, s);
    case TooFewSources(i, s) => ConformingSources(v, r, i, s);
    case TooManySources(i, s) => ConformingSources(v, r, i, s);
    case TooFewChildren(i, s) => ConformingChildren(v, r, i, s);
    case TooManyChildren(i, s) => ConformingChildren(v, r, i, s);
  }

  lemma ConformingSchema(v: CatalogView, r: Rules, a: Id)
    requires Conforms(v, r)
    ensures a in v.attributes && InUse(v, v.attributes[a].versionId) ==> SchemaSound(v, r, a)
  {
    hide ParseCardinality, WithinType;
    if a in v.attributes && InUse(v, v.attributes[a].versionId) {
      var i :| i in v.members && Governs(v, v.attributes[a].versionId, i);
      assert InstanceConforms(v, r, i) && AttributeOf(v, a, i);
    }
  }

  lemma ConformingEnum(v: CatalogView, r: Rules, i: Id, a: Id)
    requires Conforms(v, r)
    ensures !Violates(v, r, IllegalEnum(i, a))
  {
    hide ParseCardinality;
    if i in v.members {
      assert InstanceConforms(v, r, i);
    }
  }

  lemma ConformingRule(v: CatalogView, r: Rules, i: Id, a: Id, rule: Rule)
    requires Conforms(v, r)
    ensures !Violates(v, r, BrokenRule(i, a, rule))
  {
    hide ParseCardinality, BrokenRules, WithinType;
    if AttributeOf(v, a, i) && HasValue(v, i, a) && !InfoOf(v, a).base.EnumT? {
      assert InstanceConforms(v, r, i);
      NoBrokenRuleMeansWithinType(r, InfoOf(v, a), v.rows[KeyOf(v, i, a)]);
    }
  }

  lemma ConformingParent(v: CatalogView, r: Rules, i: Id)
    requires Conforms(v, r)
    ensures !Violates(v, r, MissingParent(i)) && !Violates(v, r, OrphanedParent(i))
    ensures !Violates(v, r, UnpinnedParent(i)) && !Violates(v, r, IllegalParent(i))
  {
    hide ParseCardinality, WithinType;
    if i in v.members {
      assert InstanceConforms(v, r, i);
      if v.members[i].parent.Some? {
        assert InstanceConforms(v, r, v.members[i].parent.value);
      }
    }
  }

  lemma ConformingTargets(v: CatalogView, r: Rules, i: Id, s: Id)
    requires Conforms(v, r)
    ensures !Violates(v, r, TooFewTargets(i, s)) && !Violates(v, r, TooManyTargets(i, s))
  {
    hide ParseCardinality, WithinType, SourceChecked;
    if i in v.members {
      assert InstanceConforms(v, r, i);
    }
  }

  lemma ConformingSources(v: CatalogView, r: Rules, i: Id, s: Id)
    requires Conforms(v, r)
    ensures !Violates(v, r, TooFewSources(i, s)) && !Violates(v, r, TooManySources(i, s))
  {
    hide ParseCardinality, WithinType, SourceChecked;
    if i in v.members {
      assert InstanceConforms(v, r, i);
    }
  }

  lemma ConformingChildren(v: CatalogView, r: Rules, i: Id, s: Id)
    requires Conforms(v, r)
    ensures !Violates(v, r, TooFewChildren(i, s)) && !Violates(v, r, TooManyChildren(i, s))
  {
    hide ParseCardinality, WithinType, SourceChecked;
    if i in v.members {
      assert InstanceConforms(v, r, i);
    }
  }

  lemma CleanInstanceConforms(v: CatalogView, r: Rules, i: Id)
    requires NoFindings(v, r) && i in v.members
    ensures InstanceConforms(v, r, i)
  {
    hide ParseCardinality, BrokenRules, WithinType;
    assert !Violates(v, r, MissingName(i)) && !Violates(v, r, MalformedName(i)) && !Violates(v, r, UnpinnedType(i));
    assert ParentSound(v, i) by {
      assert !Violates(v, r, MissingParent(i)) && !Violates(v, r, OrphanedParent(i)) && !Violates(v, r, IllegalParent(i));
      if v.members[i].parent.Some? {
        assert !Violates(v, r, UnpinnedParent(i));
      }
    }
    hide SchemaSound, ValueSound, Violates, ParentSound, IsDnsLabel, SourceChecked;
    forall a | AttributeOf(v, a, i)
      ensures SchemaSound(v, r, a) && ValueSound(v, r, i, a)
    {
      CleanAttribute(v, r, i, a);
    }
    forall s | AssociationOf(v, s, i)
      ensures if v.associations[s].kind.Containment?
              then InRange(|ChildrenOf(v, i, v.associations[s].target)|, TargetRange(v, s))
              else InRange(|ForwardLinks(v, i, s)|, TargetRange(v, s))
    {
      CleanTargets(v, r, i, s);
    }
    forall s | CheckedSource(v, s, i)
      ensures InRange(|ReverseLinks(v, i, s)|, SourceRange(v, s))
    {
      CleanSources(v, r, i, s);
    }
  }

  lemma CleanSources(v: CatalogView, r: Rules, i: Id, s: Id)
    requires NoFindings(v, r) && CheckedSource(v, s, i)
    ensures InRange(|ReverseLinks(v, i, s)|, SourceRange(v, s))
  {
    hide ParseCardinality;
    assert !Violates(v, r, TooFewSources(i, s)) && !Violates(v, r, TooManySources(i, s));
  }

  lemma CleanAttribute(v: CatalogView, r: Rules, i: Id, a: Id)
    requires NoFindings(v, r) && AttributeOf(v, a, i)
    ensures SchemaSound(v, r, a) && ValueSound(v, r, i, a)
  {
    assert !Violates(v, r, CorruptConstraints(a)) && !Violates(v, r, BadPattern(a));
    assert !Violates(v, r, MissingValue(i, a)) && !Violates(v, r, IllegalEnum(i, a));
    if HasValue(v, i, a) && !InfoOf(v, a).base.EnumT? {
      var broken := BrokenRules(r, InfoOf(v, a), v.rows[KeyOf(v, i, a)]);
      if broken != [] {
        assert Violates(v, r, BrokenRule(i, a, broken[0]));
      }
      NoBrokenRuleMeansWithinType(r, InfoOf(v, a), v.rows[KeyOf(v, i, a)]);
    }
  }

  lemma CleanTargets(v: CatalogView, r: Rules, i: Id, s: Id)
    requires NoFindings(v, r) && AssociationOf(v, s, i)
    ensures if v.associations[s].kind.Containment?
            then InRange(|ChildrenOf(v, i, v.associations[s].target)|, TargetRange(v, s))
            else InRange(|ForwardLinks(v, i, s)|, TargetRange(v, s))
  {
    hide ParseCardinality;
    assert !Violates(v, r, TooFewChildren(i, s)) && !Violates(v, r, TooManyChildren(i, s));
    assert !Violates(v, r, TooFewTargets(i, s)) && !Violates(v, r, TooManyTargets(i, s));
  }
}
