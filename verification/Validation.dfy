/** The catalog validator: one pass per family of rules, each looping over instances,
    attributes, links and associations in whatever order the maps give them. */
module Validation {
  import opened Domain
  import opened Database
  import opened Cardinality
  import opened Conformance

  /** No entity type is pinned at two versions. */
  ghost predicate UniquePins(v: CatalogView) {
    forall a, b :: a in v.pinned && b in v.pinned && v.pinned[a] == v.pinned[b] ==> a == b
  }

  /** Every attribute validation looks at has a resolvable type definition. */
  ghost predicate Resolvable(v: CatalogView) {
    forall a :: a in v.attributes && InUse(v, v.attributes[a].versionId) ==> v.attributes[a].typeDef in v.typeDefs
  }

  ghost predicate OfNames(f: Finding) {
    f.MissingName? || f.MalformedName?
  }

  ghost predicate OfSchema(f: Finding) {
    f.CorruptConstraints? || f.BadPattern?
  }

  ghost predicate OfValues(f: Finding) {
    f.MissingValue? || f.IllegalEnum? || f.BrokenRule?
  }

  ghost predicate OfTargets(f: Finding) {
    f.TooFewTargets? || f.TooManyTargets?
  }

  ghost predicate OfTypes(f: Finding) {
    f.UnpinnedType? || OfSchema(f) || OfValues(f) || OfTargets(f)
  }

  ghost predicate OfSources(f: Finding) {
    f.TooFewSources? || f.TooManySources?
  }

  ghost predicate OfParents(f: Finding) {
    f.MissingParent? || f.OrphanedParent? || f.UnpinnedParent? || f.IllegalParent?
  }

  ghost predicate OfChildren(f: Finding) {
    f.TooFewChildren? || f.TooManyChildren?
  }

  /** The entity type to pinned version map. */
  method ResolvePins(v: CatalogView) returns (versionOf: map<Id, Id>)
    requires UniquePins(v)
    ensures forall t :: t in versionOf <==> IsPinned(v, t)
    ensures forall t :: t in versionOf ==> versionOf[t] in v.pinned && v.pinned[versionOf[t]] == t
  {
    versionOf := map[];
    var todo := v.pinned.Keys;
    while todo != {}
      invariant todo <= v.pinned.Keys
      invariant forall t :: t in versionOf ==> versionOf[t] in v.pinned.Keys - todo && v.pinned[versionOf[t]] == t
      invariant forall ver :: ver in v.pinned.Keys - todo ==> v.pinned[ver] in versionOf
      decreases todo
    {
      var ver :| ver in todo;
      versionOf := versionOf[v.pinned[ver] := ver];
      todo := todo - {ver};
    }
  }

  method CheckNames(v: CatalogView, r: Rules) returns (out: seq<Finding>)
    ensures forall f :: f in out <==> OfNames(f) && Violates(v, r, f)
  {
    out := [];
    var todo := v.members.Keys;
    while todo != {}
      invariant todo <= v.members.Keys
      invariant forall f :: f in out <==> OfNames(f) && f.inst !in todo && Violates(v, r, f)
      decreases todo
    {
      var i :| i in todo;
      if IsBlank(v.members[i].name) {
        out := out + [MissingName(i)];
      } else if !IsDnsLabel(v.members[i].name) {
        out := out + [MalformedName(i)];
      }
      todo := todo - {i};
    }
  }

  /** Corrupted constraints and patterns that do not compile, once per attribute of a version in use. */
  method CheckSchema(v: CatalogView, r: Rules, version: Id) returns (out: seq<Finding>)
    requires InUse(v, version)
    ensures forall f :: f in out <==>
              OfSchema(f) && f.attr in v.attributes && v.attributes[f.attr].versionId == version && Violates(v, r, f)
  {
    out := [];
    var todo := set a | a in v.attributes && v.attributes[a].versionId == version;
    ghost var all := todo;
    while todo != {}
      invariant todo <= all
      invariant forall f :: f in out <==> OfSchema(f) && f.attr in all - todo && Violates(v, r, f)
      decreases todo
    {
      var a :| a in todo;
      var info := InfoOf(v, a);
      if info.constraints.corrupted {
        out := out + [CorruptConstraints(a)];
      } else if info.base.StringT? && info.constraints.pattern.Some? && !r.compiles(info.constraints.pattern.value) {
        out := out + [BadPattern(a)];
      }
      todo := todo - {a};
    }
  }

  /** Required values, enumerations and constraints of one attribute of one instance. */
  method CheckValue(v: CatalogView, r: Rules, i: Id, a: Id) returns (out: seq<Finding>)
    requires AttributeOf(v, a, i)
    ensures forall f :: f in out <==> OfValues(f) && f.inst == i && f.attr == a && Violates(v, r, f)
  {
    hide BrokenRules;
    out := [];
    var info := InfoOf(v, a);
    if v.attributes[a].required && !HasValue(v, i, a) {
      return [MissingValue(i, a)];
    }
    if HasValue(v, i, a) {
      var value := v.rows[KeyOf(v, i, a)];
      if info.base.EnumT? {
        if value.str !in info.constraints.values {
          out := [IllegalEnum(i, a)];
        }
      } else if !info.constraints.corrupted {
        var broken := BrokenRules(r, info, value);
        for k := 0 to |broken|
          invariant forall f :: f in out <==> f.BrokenRule? && f.inst == i && f.attr == a && f.rule in broken[..k]
        {
          out := out + [BrokenRule(i, a, broken[k])];
        }
        assert broken[..|broken|] == broken;
      }
    }
  }

  method CheckValues(v: CatalogView, r: Rules, version: Id, i: Id) returns (out: seq<Finding>)
    requires i in v.members && Governs(v, version, i) && UniquePins(v) && WellFormedView(v)
    ensures forall f :: f in out <==> OfValues(f) && f.inst == i && Violates(v, r, f)
  {
    hide BrokenRules;
    out := [];
    var todo := set a | a in v.attributes && v.attributes[a].versionId == version;
    ghost var all := todo;
    while todo != {}
      invariant todo <= all
      invariant forall f :: f in out <==> OfValues(f) && f.inst == i && f.attr in all - todo && Violates(v, r, f)
      decreases todo
    {
      var a :| a in todo;
      var found := CheckValue(v, r, i, a);
      out := out + found;
      todo := todo - {a};
    }
  }

  function CountOf(counts: map<Id, nat>, s: Id): nat {
    if s in counts then counts[s] else 0
  }

  /** The counts are those of the instance's links outside "todo". */
  ghost predicate ForwardTallied(v: CatalogView, i: Id, counts: map<Id, nat>, todo: set<Id>) {
    forall s :: CountOf(counts, s) == |ForwardLinks(v, i, s) - todo|
  }

  lemma OneMoreLink(v: CatalogView, i: Id, counts: map<Id, nat>, todo: set<Id>, l: Id)
    requires ForwardTallied(v, i, counts, todo) && l in todo && l in v.links && v.links[l].source == i
    ensures var s := v.links[l].assoc;
            ForwardTallied(v, i, counts[s := CountOf(counts, s) + 1], todo - {l})
  {
    var s := v.links[l].assoc;
    var more := counts[s := CountOf(counts, s) + 1];
    forall x
      ensures CountOf(more, x) == |ForwardLinks(v, i, x) - (todo - {l})|
    {
      var before := ForwardLinks(v, i, x) - todo;
      var after := ForwardLinks(v, i, x) - (todo - {l});
      assert after == if x == s then before + {l} else before;
      assert CountOf(counts, x) == |before|;
    }
  }

  lemma ForwardStarts(v: CatalogView, i: Id, all: set<Id>)
    requires forall l :: l in all <==> l in v.links && v.links[l].source == i
    ensures ForwardTallied(v, i, map[], all)
  {
    forall s
      ensures |ForwardLinks(v, i, s) - all| == 0
    {
      assert ForwardLinks(v, i, s) - all == {};
    }
  }

  lemma ForwardEnds(v: CatalogView, i: Id, counts: map<Id, nat>)
    requires ForwardTallied(v, i, counts, {})
    ensures forall s :: CountOf(counts, s) == |ForwardLinks(v, i, s)|
  {
    hide CountOf;
    forall s
      ensures CountOf(counts, s) == |ForwardLinks(v, i, s)|
    {
      assert CountOf(counts, s) == |ForwardLinks(v, i, s) - {}|;
      assert ForwardLinks(v, i, s) - {} == ForwardLinks(v, i, s);
    }
  }

  /** The per-association tally of an instance's outgoing links. */
  method CountForward(v: CatalogView, i: Id) returns (counts: map<Id, nat>)
    ensures forall s :: CountOf(counts, s) == |ForwardLinks(v, i, s)|
  {
    hide ForwardTallied, ForwardLinks;
    counts := map[];
    var all := set l | l in v.links && v.links[l].source == i;
    var todo := all;
    ForwardStarts(v, i, all);
    while todo != {}
      invariant todo <= all
      invariant ForwardTallied(v, i, counts, todo)
      decreases todo
    {
      var l :| l in todo;
      var s := v.links[l].assoc;
      OneMoreLink(v, i, counts, todo, l);
      counts := counts[s := CountOf(counts, s) + 1];
      todo := todo - {l};
    }
    ForwardEnds(v, i, counts);
  }

  /** Target cardinality of every non-containment association of the instance's type. */
  method CheckTargets(v: CatalogView, r: Rules, version: Id, i: Id) returns (out: seq<Finding>)
    requires i in v.members && Governs(v, version, i) && UniquePins(v) && WellFormedView(v)
    ensures forall f :: f in out <==> OfTargets(f) && f.inst == i && Violates(v, r, f)
  {
    hide ParseCardinality;
    out := [];
    var todo := set s | s in v.associations && v.associations[s].versionId == version && !v.associations[s].kind.Containment?;
    ghost var all := todo;
    forall s | Linking(v, s, i)
      ensures s in all
    {
    }
    if todo == {} {
      return;
    }
    var counts := CountForward(v, i);
    while todo != {}
      invariant todo <= all
      invariant forall f :: f in out <==> OfTargets(f) && f.inst == i && f.assoc in all - todo && Violates(v, r, f)
      decreases todo
    {
      var s :| s in todo;
      var count := CountOf(counts, s);
      var range := TargetRange(v, s);
      if count < range.min {
        out := out + [TooFewTargets(i, s)];
      }
      if !range.unbounded && count > range.max {
        out := out + [TooManyTargets(i, s)];
      }
      todo := todo - {s};
    }
  }

  /** The loop over entity types with instances: unpinned types, schema faults, values and links. */
  method CheckTypes(v: CatalogView, r: Rules, versionOf: map<Id, Id>) returns (res: Result<seq<Finding>>)
    requires UniquePins(v) && WellFormedView(v)
    requires forall t :: t in versionOf <==> IsPinned(v, t)
    requires forall t :: t in versionOf ==> versionOf[t] in v.pinned && v.pinned[versionOf[t]] == t
    ensures res.Ok? <==> Resolvable(v)
    ensures res.Ok? ==> forall f :: f in res.value <==> OfTypes(f) && Violates(v, r, f)
  {
    hide BrokenRules, ParseCardinality;
    var out: seq<Finding> := [];
    var types := set i | i in v.members :: v.members[i].typeId;
    var todo := types;
    while todo != {}
      invariant todo <= types
      invariant forall f :: f in out <==> OfTypes(f) && Violates(v, r, f) && TypeOfFinding(v, f) in types - todo
      invariant forall t :: t in types - todo ==> GroupResolvable(v, t)
      decreases todo
    {
      var t :| t in todo;
      var group := CheckGroup(v, r, versionOf, t);
      if group.Err? {
        return group;
      }
      out := out + group.value;
      todo := todo - {t};
    }
    forall f | OfTypes(f) && Violates(v, r, f)
      ensures TypeOfFinding(v, f) in types
    {
      FindingHasType(v, r, f);
    }
    forall a | a in v.attributes && InUse(v, v.attributes[a].versionId)
      ensures v.attributes[a].typeDef in v.typeDefs
    {
      var i :| i in v.members && Governs(v, v.attributes[a].versionId, i);
      assert v.members[i].typeId in types - todo;
      assert GroupResolvable(v, v.members[i].typeId);
    }
    return Ok(out);
  }

  ghost predicate GroupResolvable(v: CatalogView, t: Id)
    requires WellFormedView(v)
  {
    forall a :: a in v.attributes && v.pinned[v.attributes[a].versionId] == t ==> v.attributes[a].typeDef in v.typeDefs
  }

  /** One entity type with all its instances. */
  method CheckGroup(v: CatalogView, r: Rules, versionOf: map<Id, Id>, t: Id) returns (res: Result<seq<Finding>>)
    requires UniquePins(v) && WellFormedView(v)
    requires forall u :: u in versionOf <==> IsPinned(v, u)
    requires forall u :: u in versionOf ==> versionOf[u] in v.pinned && v.pinned[versionOf[u]] == u
    requires exists i :: i in v.members && v.members[i].typeId == t
    ensures res.Ok? <==> GroupResolvable(v, t)
    ensures res.Err? ==> !Resolvable(v)
    ensures res.Ok? ==> forall f :: f in res.value <==> OfTypes(f) && Violates(v, r, f) && TypeOfFinding(v, f) == t
  {
    hide BrokenRules, ParseCardinality;
    var insts := set i | i in v.members && v.members[i].typeId == t;
    if t !in versionOf {
      var found := FlagUnpinned(v, r, t, insts);
      UnpinnedGroup(v, r, t);
      assert GroupResolvable(v, t);
      return Ok(found);
    }
    var version := versionOf[t];
    ghost var i0 :| i0 in v.members && v.members[i0].typeId == t;
    assert Governs(v, version, i0) && InUse(v, version);
    if a :| a in v.attributes && v.attributes[a].versionId == version && v.attributes[a].typeDef !in v.typeDefs {
      return Err(NotFound);
    }
    var schema := CheckSchema(v, r, version);
    var found := CheckInstances(v, r, t, version, insts);
    PinnedGroup(v, r, t, version);
    return Ok(schema + found);
  }

  /** The group a finding of the type loop is reported in. */
  ghost function TypeOfFinding(v: CatalogView, f: Finding): Id {
    if OfSchema(f) then
      if f.attr in v.attributes && v.attributes[f.attr].versionId in v.pinned
      then v.pinned[v.attributes[f.attr].versionId] else 0
    else if !f.CorruptConstraints? && !f.BadPattern? && f.inst in v.members then v.members[f.inst].typeId
    else 0
  }

  lemma FindingHasType(v: CatalogView, r: Rules, f: Finding)
    requires WellFormedView(v) && OfTypes(f) && Violates(v, r, f)
    ensures exists i :: i in v.members && v.members[i].typeId == TypeOfFinding(v, f)
  {
    if OfSchema(f) {
      var i :| i in v.members && Governs(v, v.attributes[f.attr].versionId, i);
    }
  }

  /** Findings of the type loop about a type that is not pinned. */
  lemma UnpinnedGroup(v: CatalogView, r: Rules, t: Id)
    requires WellFormedView(v) && !IsPinned(v, t)
    ensures forall f :: OfTypes(f) && Violates(v, r, f) && TypeOfFinding(v, f) == t ==> f.UnpinnedType?
  {
    hide BrokenRules, ParseCardinality;
  }

  /** Findings of the type loop about a type pinned at "version". */
  lemma PinnedGroup(v: CatalogView, r: Rules, t: Id, version: Id)
    requires WellFormedView(v) && UniquePins(v) && version in v.pinned && v.pinned[version] == t
    ensures forall f :: OfTypes(f) && Violates(v, r, f) && TypeOfFinding(v, f) == t ==>
              if OfSchema(f) then f.attr in v.attributes && v.attributes[f.attr].versionId == version
              else (OfValues(f) || OfTargets(f)) && f.inst in v.members && v.members[f.inst].typeId == t
  {
    hide BrokenRules, ParseCardinality;
  }

  method FlagUnpinned(v: CatalogView, r: Rules, t: Id, insts: set<Id>) returns (out: seq<Finding>)
    requires insts == set i | i in v.members && v.members[i].typeId == t
    requires !IsPinned(v, t)
    ensures forall f :: f in out <==> f.UnpinnedType? && f.inst in insts
    ensures forall f :: f in out ==> Violates(v, r, f)
  {
    out := [];
    var todo := insts;
    while todo != {}
      invariant todo <= insts
      invariant forall f :: f in out <==> f.UnpinnedType? && f.inst in insts - todo
      decreases todo
    {
      var i :| i in todo;
      out := out + [UnpinnedType(i)];
      todo := todo - {i};
    }
  }

  method CheckInstances(v: CatalogView, r: Rules, t: Id, version: Id, insts: set<Id>) returns (out: seq<Finding>)
    requires insts == set i | i in v.members && v.members[i].typeId == t
    requires version in v.pinned && v.pinned[version] == t && UniquePins(v) && WellFormedView(v)
    ensures forall f :: f in out <==> (OfValues(f) || OfTargets(f)) && f.inst in insts && Violates(v, r, f)
  {
    hide BrokenRules, ParseCardinality;
    out := [];
    var todo := insts;
    while todo != {}
      invariant todo <= insts
      invariant forall f :: f in out <==>
                  (OfValues(f) || OfTargets(f)) && f.inst in insts - todo && Violates(v, r, f)
      decreases todo
    {
      var i :| i in todo;
      var values := CheckValues(v, r, version, i);
      var targets := CheckTargets(v, r, version, i);
      out := out + values + targets;
      todo := todo - {i};
    }
  }

  /** How many links of one association point at an instance. */
  method CountReverse(v: CatalogView, i: Id, s: Id) returns (count: nat)
    ensures count == |ReverseLinks(v, i, s)|
  {
    count := 0;
    var todo := set l | l in v.links && v.links[l].target == i;
    ghost var hits: set<Id> := {};
    while todo != {}
      invariant forall l :: l in todo ==> l in v.links && v.links[l].target == i
      invariant forall l :: l in hits <==> l in ReverseLinks(v, i, s) && l !in todo
      invariant count == |hits|
      decreases todo
    {
      var l :| l in todo;
      if v.links[l].assoc == s {
        count := count + 1;
        hits := hits + {l};
      }
      todo := todo - {l};
    }
    assert hits == ReverseLinks(v, i, s);
  }

  /** Source cardinality, from the side of the instances an association points at. */
  method CheckSources(v: CatalogView, r: Rules) returns (out: seq<Finding>)
    ensures forall f :: f in out <==> OfSources(f) && Violates(v, r, f)
  {
    hide ParseCardinality;
    out := [];
    var checked := set s | s in v.associations && !v.associations[s].kind.Containment? && SourceChecked(SourceRange(v, s));
    var todo := checked;
    while todo != {}
      invariant todo <= checked
      invariant forall f :: f in out <==> OfSources(f) && f.assoc !in todo && Violates(v, r, f)
      decreases todo
    {
      var s :| s in todo;
      var found := CheckSource(v, r, s);
      out := out + found;
      todo := todo - {s};
    }
  }

  method CheckSource(v: CatalogView, r: Rules, s: Id) returns (out: seq<Finding>)
    requires s in v.associations && !v.associations[s].kind.Containment? && SourceChecked(SourceRange(v, s))
    ensures forall f :: f in out <==> OfSources(f) && f.assoc == s && Violates(v, r, f)
  {
    hide ParseCardinality;
    out := [];
    var targets := set i | i in v.members && v.members[i].typeId == v.associations[s].target;
    var todo := targets;
    var range := SourceRange(v, s);
    while todo != {}
      invariant todo <= targets
      invariant forall f :: f in out <==> OfSources(f) && f.assoc == s && f.inst !in todo && Violates(v, r, f)
      decreases todo
    {
      var i :| i in todo;
      var count := CountReverse(v, i, s);
      if count < range.min {
        out := out + [TooFewSources(i, s)];
      }
      if !range.unbounded && count > range.max {
        out := out + [TooManySources(i, s)];
      }
      todo := todo - {i};
    }
  }

  ghost predicate Insists(v: CatalogView, s: Id, t: Id)
    requires s in v.associations
  {
    v.associations[s].kind.Containment? && v.associations[s].target == t && SourceRange(v, s).min >= 1
  }

  /** The entity types some pinned containment association insists on containing. */
  method ContainedTypes(v: CatalogView) returns (types: set<Id>)
    ensures forall t :: t in types <==> MustBeContained(v, t)
  {
    hide ParseCardinality;
    types := {};
    var todo := v.associations.Keys;
    while todo != {}
      invariant todo <= v.associations.Keys
      invariant forall t :: t in types <==> exists s :: s in v.associations.Keys - todo && Insists(v, s, t)
      decreases todo
    {
      var s :| s in todo;
      ghost var was, rest := types, todo;
      if v.associations[s].kind.Containment? && SourceRange(v, s).min >= 1 {
        types := types + {v.associations[s].target};
      }
      todo := todo - {s};
      forall t
        ensures t in types <==> exists x :: x in v.associations.Keys - todo && Insists(v, x, t)
      {
        assert v.associations.Keys - todo == (v.associations.Keys - rest) + {s};
        assert t in types <==> t in was || Insists(v, s, t);
      }
    }
    forall t
      ensures t in types <==> MustBeContained(v, t)
    {
      assert MustBeContained(v, t) <==> exists s :: s in v.associations && Insists(v, s, t);
      assert v.associations.Keys - todo == v.associations.Keys;
    }
  }

  /** Containment consistency: mandatory parents, missing parents, illegal parent types. */
  method CheckParents(v: CatalogView, r: Rules, versionOf: map<Id, Id>) returns (out: seq<Finding>)
    requires UniquePins(v) && WellFormedView(v)
    requires forall t :: t in versionOf <==> IsPinned(v, t)
    requires forall t :: t in versionOf ==> versionOf[t] in v.pinned && v.pinned[versionOf[t]] == t
    ensures forall f :: f in out <==> OfParents(f) && Violates(v, r, f)
  {
    hide ParseCardinality;
    out := [];
    var contained := ContainedTypes(v);
    var todo := v.members.Keys;
    while todo != {}
      invariant todo <= v.members.Keys
      invariant forall f :: f in out <==> OfParents(f) && f.inst !in todo && Violates(v, r, f)
      decreases todo
    {
      var i :| i in todo;
      var inst := v.members[i];
      if inst.parent.None? {
        if inst.typeId in contained {
          out := out + [MissingParent(i)];
        }
      } else if inst.parent.value !in v.members {
        out := out + [OrphanedParent(i)];
      } else {
        var parentType := v.members[inst.parent.value].typeId;
        if parentType !in versionOf {
          out := out + [UnpinnedParent(i)];
        } else {
          var edges := set s | s in v.associations && v.associations[s].versionId == versionOf[parentType]
                                && v.associations[s].kind.Containment? && v.associations[s].target == inst.typeId;
          forall s | AssociationOf(v, s, inst.parent.value) && v.associations[s].kind.Containment?
                     && v.associations[s].target == inst.typeId
            ensures s in edges
          {
          }
          if edges == {} {
            out := out + [IllegalParent(i)];
          } else {
            ghost var s :| s in edges;
            assert AssociationOf(v, s, inst.parent.value);
          }
        }
      }
      todo := todo - {i};
    }
  }

  function ChildCount(counts: map<(Id, Id), nat>, i: Id, t: Id): nat {
    if (i, t) in counts then counts[(i, t)] else 0
  }

  /** The counts are those of the children outside "todo". */
  ghost predicate Tallied(v: CatalogView, counts: map<(Id, Id), nat>, todo: set<Id>) {
    forall i: Id, t: Id :: ChildCount(counts, i, t) == |ChildrenOf(v, i, t) - todo|
  }

  lemma OneMoreChild(v: CatalogView, counts: map<(Id, Id), nat>, more: map<(Id, Id), nat>, todo: set<Id>, m: Id)
    requires Tallied(v, counts, todo) && m in todo && m in v.members
    requires forall i: Id, t: Id :: ChildCount(more, i, t) == ChildCount(counts, i, t)
               + if v.members[m].parent == Some(i) && v.members[m].typeId == t then 1 else 0
    ensures Tallied(v, more, todo - {m})
  {
    hide ChildCount;
    forall i: Id, t: Id
      ensures ChildCount(more, i, t) == |ChildrenOf(v, i, t) - (todo - {m})|
    {
      var before := ChildrenOf(v, i, t) - todo;
      var after := ChildrenOf(v, i, t) - (todo - {m});
      assert after == if v.members[m].parent == Some(i) && v.members[m].typeId == t then before + {m} else before;
      assert ChildCount(counts, i, t) == |before|;
    }
  }

  lemma TallyStarts(v: CatalogView)
    ensures Tallied(v, map[], v.members.Keys)
  {
    forall i: Id, t: Id
      ensures |ChildrenOf(v, i, t) - v.members.Keys| == 0
    {
      assert ChildrenOf(v, i, t) - v.members.Keys == {};
    }
  }

  lemma TallyEnds(v: CatalogView, counts: map<(Id, Id), nat>)
    requires Tallied(v, counts, {})
    ensures forall i: Id, t: Id :: ChildCount(counts, i, t) == |ChildrenOf(v, i, t)|
  {
    hide ChildCount;
    forall i: Id, t: Id
      ensures ChildCount(counts, i, t) == |ChildrenOf(v, i, t)|
    {
      assert ChildCount(counts, i, t) == |ChildrenOf(v, i, t) - {}|;
      assert ChildrenOf(v, i, t) - {} == ChildrenOf(v, i, t);
    }
  }

  /** The tally of children per parent and child type. */
  method CountChildren(v: CatalogView) returns (counts: map<(Id, Id), nat>)
    ensures forall i: Id, t: Id :: ChildCount(counts, i, t) == |ChildrenOf(v, i, t)|
  {
    hide Tallied;
    counts := map[];
    var todo := v.members.Keys;
    TallyStarts(v);
    while todo != {}
      invariant todo <= v.members.Keys
      invariant Tallied(v, counts, todo)
      decreases todo
    {
      var m :| m in todo;
      ghost var was := counts;
      var inst := v.members[m];
      if inst.parent.Some? {
        var key := (inst.parent.value, inst.typeId);
        counts := counts[key := ChildCount(counts, key.0, key.1) + 1];
      }
      OneMoreChild(v, was, counts, todo, m);
      todo := todo - {m};
    }
    TallyEnds(v, counts);
  }

  /** Target cardinality of containment: how many children a parent has. */
  method CheckChildren(v: CatalogView, r: Rules, versionOf: map<Id, Id>) returns (out: seq<Finding>)
    requires UniquePins(v) && WellFormedView(v)
    requires forall t :: t in versionOf <==> IsPinned(v, t)
    requires forall t :: t in versionOf ==> versionOf[t] in v.pinned && v.pinned[versionOf[t]] == t
    ensures forall f :: f in out <==> OfChildren(f) && Violates(v, r, f)
  {
    hide ParseCardinality;
    out := [];
    var counts := CountChildren(v);
    var todo := v.members.Keys;
    while todo != {}
      invariant todo <= v.members.Keys
      invariant forall f :: f in out <==> OfChildren(f) && f.inst !in todo && Violates(v, r, f)
      decreases todo
    {
      var i :| i in todo;
      if v.members[i].typeId in versionOf {
        var found := CheckChildrenOf(v, r, counts, versionOf[v.members[i].typeId], i);
        out := out + found;
      }
      todo := todo - {i};
    }
  }

  method CheckChildrenOf(v: CatalogView, r: Rules, counts: map<(Id, Id), nat>, version: Id, i: Id)
    returns (out: seq<Finding>)
    requires i in v.members && Governs(v, version, i) && UniquePins(v) && WellFormedView(v)
    requires forall x: Id, t: Id :: ChildCount(counts, x, t) == |ChildrenOf(v, x, t)|
    ensures forall f :: f in out <==> OfChildren(f) && f.inst == i && Violates(v, r, f)
  {
    hide ParseCardinality;
    out := [];
    var todo := set s | s in v.associations && v.associations[s].versionId == version && v.associations[s].kind.Containment?;
    ghost var all := todo;
    while todo != {}
      invariant todo <= all
      invariant forall f :: f in out <==> OfChildren(f) && f.inst == i && f.assoc in all - todo && Violates(v, r, f)
      decreases todo
    {
      var s :| s in todo;
      var range := TargetRange(v, s);
      if !(range.min < 1 && range.unbounded) {
        var count := ChildCount(counts, i, v.associations[s].target);
        if count < range.min {
          out := out + [TooFewChildren(i, s)];
        }
        if !range.unbounded && count > range.max {
          out := out + [TooManyChildren(i, s)];
        }
      }
      todo := todo - {s};
    }
  }

  /** All passes over one view. Fails only when a type definition in use cannot be resolved. */
  method CheckAll(v: CatalogView, r: Rules) returns (res: Result<seq<Finding>>)
    requires UniquePins(v) && WellFormedView(v)
    ensures res.Ok? <==> Resolvable(v)
    ensures res.Ok? ==> forall f :: f in res.value <==> Violates(v, r, f)
    ensures res.Ok? ==> (res.value == [] <==> Conforms(v, r))
  {
    var versionOf := ResolvePins(v);
    var names := CheckNames(v, r);
    var types := CheckTypes(v, r, versionOf);
    if types.Err? {
      return types;
    }
    var sources := CheckSources(v, r);
    var parents := CheckParents(v, r, versionOf);
    var children := CheckChildren(v, r, versionOf);
    var all := names + types.value + sources + parents + children;
    forall f
      ensures f in all <==> Violates(v, r, f)
    {
      assert OfNames(f) || OfTypes(f) || OfSources(f) || OfParents(f) || OfChildren(f);
    }
    ConformsMeansNoFindings(v, r);
    if all != [] {
      assert all[0] in all;
    }
    return Ok(all);
  }

  /** Every pin of the catalog version names an existing entity type version. */
  ghost predicate PinsResolve(d: Db, cv: Id) {
    forall p :: p in d.pins && d.pins[p].cvId == cv ==> d.pins[p].versionId in d.versions
  }

  /** There is nothing to check, or everything the check refers to is found. */
  ghost predicate Checkable(d: Db, c: Id)
    requires c in d.catalogs
  {
    MembersOf(d, c) == map[] || (PinsResolve(d, d.catalogs[c].cvId) && Resolvable(ViewOf(d, c)))
  }

  /** The findings are exactly the ones that hold, and the status says whether there are any. */
  ghost predicate Reported(v: CatalogView, r: Rules, status: Status, findings: seq<Finding>) {
    (forall f :: f in findings <==> Violates(v, r, f)) && status == if Conforms(v, r) then Valid else Invalid
  }

  method CheckCatalog(d: Db, c: Id, r: Rules) returns (res: Result<seq<Finding>>)
    requires c in d.catalogs && UniquePins(ViewOf(d, c))
    ensures res.Ok? <==> Checkable(d, c)
    ensures res.Ok? ==> Reported(ViewOf(d, c), r, if res.value == [] then Valid else Invalid, res.value)
  {
    hide Resolvable, Violates, Conforms, UniquePins, PinnedTypes, CurrentRows, LinksTouching;
    var v := ViewOf(d, c);
    if v.members == map[] {
      EmptyCatalogConforms(v, r);
      return Ok([]);
    }
    if p :| p in d.pins && d.pins[p].cvId == d.catalogs[c].cvId && d.pins[p].versionId !in d.versions {
      return Err(NotFound);
    }
    ViewIsWellFormed(d, c);
    res := CheckAll(v, r);
  }

  /** The validation call: reports exactly the findings that hold, and stores "valid" exactly
      when the catalog conforms. Nothing but the status of that catalog changes. */
  method Validate(db: Store, rules: Rules, name: string) returns (res: Result<(Status, seq<Finding>)>)
    requires UniqueNames(db.catalogs)
    requires forall c :: c in db.catalogs ==> UniquePins(ViewOf(db.State(), c))
    modifies db`catalogs
    ensures res.Err? ==> db.State() == old(db.State())
    ensures res.Ok? ==> exists c :: (
              && c in old(db.catalogs) && old(db.catalogs)[c].name == name
              && Reported(ViewOf(old(db.State()), c), rules, res.value.0, res.value.1)
              && db.State() == WithStatus(old(db.State()), c, res.value.0))
    ensures res.Err? <==> forall c :: c in old(db.catalogs) && old(db.catalogs)[c].name == name ==> !Checkable(old(db.State()), c)
  {
    hide Checkable, Reported, UniquePins, ViewOf;
    var found := FindCatalog(db.catalogs, name);
    if found.None? {
      return Err(NotFound);
    }
    var c := found.value;
    var checked := CheckCatalog(db.State(), c, rules);
    if checked.Err? {
      return Err(checked.error);
    }
    var status := if checked.value == [] then Valid else Invalid;
    db.catalogs := db.catalogs[c := db.catalogs[c].(status := status)];
    return Ok((status, checked.value));
  }

  lemma EmptyCatalogConforms(v: CatalogView, r: Rules)
    requires v.members == map[]
    ensures Conforms(v, r) && NoFindings(v, r)
  {
    ConformsMeansNoFindings(v, r);
  }
}
