/** Exported instances as JSON objects, and when reading such an object back gives the
    instance it was written from. */
module ExportJson {
  import opened Domain

  datatype ExportLink = ExportLink(association: string, targetType: string, targetName: string, targetPath: seq<string>)

  /** The children under one association. */
  datatype Group = Group(trees: seq<ExportInstance>)

  datatype ExportInstance = ExportInstance(
    entityType: string, name: string, description: string,
    attributes: map<string, Json>, links: seq<ExportLink>, children: map<string, Group>)

  const FIELDS: set<string> := {"entity_type", "name", "description", "attributes", "links"}

  // ---- writing ----

  function LinkJson(l: ExportLink): Json {
    var base := map["association" := JStr(l.association), "target_type" := JStr(l.targetType), "target_name" := JStr(l.targetName)];
    JObj(if l.targetPath == [] then base
         else base["target_path" := JArr(seq(|l.targetPath|, k requires 0 <= k < |l.targetPath| => JStr(l.targetPath[k])))])
  }

  function LinksJson(links: seq<ExportLink>): Json {
    JArr(seq(|links|, k requires 0 <= k < |links| => LinkJson(links[k])))
  }

  /** The five fields; no links, no key. */
  function BaseFields(ei: ExportInstance): map<string, Json> {
    var base := map["entity_type" := JStr(ei.entityType), "name" := JStr(ei.name), "description" := JStr(ei.description),
                    "attributes" := JObj(ei.attributes)];
    if ei.links == [] then base else base["links" := LinksJson(ei.links)]
  }

  /** Children are written beside the fields, and over them when the names are the same. */
  function Marshal(ei: ExportInstance): Json
    decreases ei
  {
    JObj(BaseFields(ei) + map k | k in ei.children :: MarshalGroup(ei.children[k]))
  }

  function MarshalGroup(g: Group): Json
    decreases g
  {
    JArr(seq(|g.trees|, k requires 0 <= k < |g.trees| => Marshal(g.trees[k])))
  }

  /** A written link holds each of its texts under the key of that name, the path only if there
      is one, and nothing else. */
  lemma LinkIsWritten(l: ExportLink)
    ensures LinkJson(l).JObj?
    ensures var fields := LinkJson(l).fields;
            && fields.Keys == {"association", "target_type", "target_name"} + (if l.targetPath == [] then {} else {"target_path"})
            && fields["association"] == JStr(l.association) && fields["target_type"] == JStr(l.targetType)
            && fields["target_name"] == JStr(l.targetName)
    ensures l.targetPath != [] ==> IsTextList(LinkJson(l).fields["target_path"], l.targetPath)
  {
  }

  ghost predicate IsTextList(j: Json, texts: seq<string>) {
    j.JArr? && |j.items| == |texts| && forall k :: 0 <= k < |texts| ==> j.items[k] == JStr(texts[k])
  }

  /** The texts, the values and the links each stand under the key of that name, the links only if
      there are any. */
  lemma FieldsAreWritten(ei: ExportInstance)
    ensures var fields := BaseFields(ei);
            && fields.Keys == FIELDS - (if ei.links == [] then {"links"} else {})
            && fields["entity_type"] == JStr(ei.entityType) && fields["name"] == JStr(ei.name)
            && fields["description"] == JStr(ei.description) && fields["attributes"] == JObj(ei.attributes)
    ensures ei.links != [] ==> IsLinkList(BaseFields(ei)["links"], ei.links)
  {
    hide LinkJson;
  }

  /** A written instance has those fields and, beside them or over them, each group of children
      under the name of its association. */
  lemma InstanceIsWritten(ei: ExportInstance)
    ensures Marshal(ei).JObj? && Marshal(ei).fields.Keys == FIELDS - (if ei.links == [] then {"links"} else {}) + ei.children.Keys
    ensures var fields := Marshal(ei).fields;
            && ("entity_type" !in ei.children ==> fields["entity_type"] == JStr(ei.entityType))
            && ("name" !in ei.children ==> fields["name"] == JStr(ei.name))
            && ("description" !in ei.children ==> fields["description"] == JStr(ei.description))
            && ("attributes" !in ei.children ==> fields["attributes"] == JObj(ei.attributes))
            && ("links" !in ei.children && ei.links != [] ==> IsLinkList(fields["links"], ei.links))
            && forall key :: key in ei.children ==> IsTreeList(fields[key], ei.children[key].trees)
  {
    hide BaseFields, IsLinkList;
    FieldsAreWritten(ei);
    assert Marshal(ei).fields.Keys == BaseFields(ei).Keys + ei.children.Keys;
    forall key | key in ei.children
      ensures IsTreeList(Marshal(ei).fields[key], ei.children[key].trees)
    {
      assert Marshal(ei).fields[key] == MarshalGroup(ei.children[key]);
    }
  }

  ghost predicate IsLinkList(j: Json, links: seq<ExportLink>) {
    j.JArr? && |j.items| == |links| && forall k :: 0 <= k < |links| ==> j.items[k] == LinkJson(links[k])
  }

  ghost predicate IsTreeList(j: Json, trees: seq<ExportInstance>) {
    j.JArr? && |j.items| == |trees| && forall k :: 0 <= k < |trees| ==> j.items[k] == Marshal(trees[k])
  }

  // ---- reading ----

  function TextOf(fields: map<string, Json>, key: string): string {
    if key in fields && fields[key].JStr? then fields[key].s else ""
  }

  function PathOf(fields: map<string, Json>): seq<string> {
    if "target_path" in fields && fields["target_path"].JArr? then
      var items := fields["target_path"].items;
      seq(|items|, k requires 0 <= k < |items| => if items[k].JStr? then items[k].s else "")
    else []
  }

  /** Anything but an object reads as a link of empty fields. */
  function ParseLink(j: Json): ExportLink {
    if j.JObj? then
      ExportLink(TextOf(j.fields, "association"), TextOf(j.fields, "target_type"), TextOf(j.fields, "target_name"), PathOf(j.fields))
    else ExportLink("", "", "", [])
  }

  function ParseLinks(fields: map<string, Json>): seq<ExportLink> {
    if "links" in fields && fields["links"].JArr? then
      var items := fields["links"].items;
      seq(|items|, k requires 0 <= k < |items| => ParseLink(items[k]))
    else []
  }

  function AttributesOf(fields: map<string, Json>): map<string, Json> {
    if "attributes" in fields && fields["attributes"].JObj? then fields["attributes"].fields else map[]
  }

  /** A key that names a containment and holds a non-empty list. */
  predicate HoldsChildren(fields: map<string, Json>, names: map<string, string>, key: string) {
    key in fields && key in names && fields[key].JArr? && fields[key].items != []
  }

  /** One instance; "implied" is the type it is given when its own is missing. "names" maps each
      containment association to its target type. */
  function Parse(j: Json, names: map<string, string>, implied: string): Option<ExportInstance>
    decreases j
  {
    match j
    case JNull => Some(ExportInstance(implied, "", "", map[], [], map[]))
    case JObj(fields) =>
      var groups := map key | key in fields && HoldsChildren(fields, names, key) :: ParseGroup(fields[key], names, names[key]);
      if exists key :: key in groups && groups[key].None? then None
      else
        var entityType := TextOf(fields, "entity_type");
        Some(ExportInstance(if entityType == "" then implied else entityType, TextOf(fields, "name"), TextOf(fields, "description"),
                            AttributesOf(fields), ParseLinks(fields), map key | key in groups :: groups[key].value))
    case _ => None
  }

  function ParseGroup(j: Json, names: map<string, string>, implied: string): Option<Group>
    requires j.JArr?
    decreases j
  {
    var parsed := seq(|j.items|, k requires 0 <= k < |j.items| => Parse(j.items[k], names, implied));
    if exists k :: 0 <= k < |parsed| && parsed[k].None? then None
    else Some(Group(seq(|parsed|, k requires 0 <= k < |parsed| => assert parsed[k].Some?; parsed[k].value)))
  }

  /** A missing type is filled in after the instance has been read. */
  lemma TypeIsInferred(j: Json, names: map<string, string>, implied: string)
    ensures Parse(j, names, implied) ==
            match Parse(j, names, "")
            case None => None
            case Some(ei) => Some(if ei.entityType == "" then ei.(entityType := implied) else ei)
  {
  }

  ghost predicate ReadAs(raw: seq<Json>, names: map<string, string>, implied: string, out: seq<ExportInstance>) {
    |out| == |raw| && forall k :: 0 <= k < |raw| ==> Parse(raw[k], names, implied) == Some(out[k])
  }

  /** A list of raw instances; the first one that cannot be read fails the list. */
  method ParseExportInstances(raw: seq<Json>, names: map<string, string>) returns (res: Result<seq<ExportInstance>>)
    ensures res.Ok? ==> ReadAs(raw, names, "", res.value)
    ensures res.Err? ==> exists k :: 0 <= k < |raw| && Parse(raw[k], names, "").None?
    decreases raw
  {
    hide Parse;
    var result: seq<ExportInstance> := [];
    for k := 0 to |raw|
      invariant |result| == k
      invariant forall j :: 0 <= j < k ==> Parse(raw[j], names, "") == Some(result[j])
    {
      var one := ParseExportInstance(raw[k], names);
      if one.Err? {
        return Err(one.error);
      }
      result := result + [one.value];
    }
    return Ok(result);
  }

  method ParseExportInstance(j: Json, names: map<string, string>) returns (res: Result<ExportInstance>)
    ensures res.Ok? ==> Parse(j, names, "") == Some(res.value)
    ensures res.Err? ==> Parse(j, names, "").None?
    decreases j
  {
    if j.JNull? {
      return Ok(ExportInstance("", "", "", map[], [], map[]));
    }
    if !j.JObj? {
      return Err(Rejected);
    }
    hide Parse, ParseGroup;
    var fields := j.fields;
    var children: map<string, Group> := map[];
    var todo := fields.Keys;
    while todo != {}
      invariant todo <= fields.Keys
      invariant forall key :: key in children <==> key in fields && key !in todo && HoldsChildren(fields, names, key)
      invariant forall key :: key in children ==> ParseGroup(fields[key], names, names[key]) == Some(children[key])
      decreases todo
    {
      var key :| key in todo;
      if key in names && fields[key].JArr? && fields[key].items != [] {
        var group := ParseChildren(fields[key], names, names[key]);
        if group.Err? {
          GroupFails(j, names, key);
          return Err(group.error);
        }
        children := children[key := group.value];
      }
      todo := todo - {key};
    }
    var ei := ExportInstance(TextOf(fields, "entity_type"), TextOf(fields, "name"), TextOf(fields, "description"),
                             AttributesOf(fields), ParseLinks(fields), children);
    GroupsParsed(j, names, ei);
    return Ok(ei);
  }

  lemma GroupFails(j: Json, names: map<string, string>, key: string)
    requires j.JObj? && HoldsChildren(j.fields, names, key) && ParseGroup(j.fields[key], names, names[key]).None?
    ensures Parse(j, names, "").None?
  {
    hide ParseGroup;
    var groups := map k | k in j.fields && HoldsChildren(j.fields, names, k) :: ParseGroup(j.fields[k], names, names[k]);
    assert key in groups && groups[key].None?;
  }

  lemma GroupsParsed(j: Json, names: map<string, string>, ei: ExportInstance)
    requires j.JObj?
    requires forall key :: key in ei.children <==> key in j.fields && HoldsChildren(j.fields, names, key)
    requires forall key :: key in ei.children && HoldsChildren(j.fields, names, key) ==> ParseGroup(j.fields[key], names, names[key]) == Some(ei.children[key])
    requires ei == ExportInstance(TextOf(j.fields, "entity_type"), TextOf(j.fields, "name"), TextOf(j.fields, "description"),
                                  AttributesOf(j.fields), ParseLinks(j.fields), ei.children)
    ensures Parse(j, names, "") == Some(ei)
  {
    hide ParseGroup, TextOf, AttributesOf, ParseLinks;
    var groups := map k | k in j.fields && HoldsChildren(j.fields, names, k) :: ParseGroup(j.fields[k], names, names[k]);
    assert forall k :: k in groups ==> groups[k].Some?;
    assert ei.children == map k | k in groups :: groups[k].value;
  }

  /** The children under one key, with the type their association implies. */
  method ParseChildren(j: Json, names: map<string, string>, implied: string) returns (res: Result<Group>)
    requires j.JArr?
    ensures res.Ok? ==> ParseGroup(j, names, implied) == Some(res.value)
    ensures res.Err? ==> ParseGroup(j, names, implied).None?
    decreases j, 0
  {
    hide Parse;
    var trees := ParseExportInstances(j.items, names);
    if trees.Err? {
      ItemFails(j, names, implied);
      return Err(trees.error);
    }
    var group: seq<ExportInstance> := [];
    for k := 0 to |trees.value|
      invariant |group| == k
      invariant forall i :: 0 <= i < k ==> Parse(j.items[i], names, implied) == Some(group[i])
    {
      var child := trees.value[k];
      TypeIsInferred(j.items[k], names, implied);
      group := group + [if child.entityType == "" then child.(entityType := implied) else child];
    }
    ItemsParsed(j, names, implied, group);
    return Ok(Group(group));
  }

  lemma ItemFails(j: Json, names: map<string, string>, implied: string)
    requires j.JArr? && exists k :: 0 <= k < |j.items| && Parse(j.items[k], names, "").None?
    ensures ParseGroup(j, names, implied).None?
  {
    hide Parse;
    var k :| 0 <= k < |j.items| && Parse(j.items[k], names, "").None?;
    TypeIsInferred(j.items[k], names, implied);
    var parsed := seq(|j.items|, i requires 0 <= i < |j.items| => Parse(j.items[i], names, implied));
    assert parsed[k].None?;
  }

  lemma ItemsParsed(j: Json, names: map<string, string>, implied: string, group: seq<ExportInstance>)
    requires j.JArr? && |group| == |j.items|
    requires forall k :: 0 <= k < |group| ==> Parse(j.items[k], names, implied) == Some(group[k])
    ensures ParseGroup(j, names, implied) == Some(Group(group))
  {
    hide Parse;
    var parsed := seq(|j.items|, i requires 0 <= i < |j.items| => Parse(j.items[i], names, implied));
    assert forall k :: 0 <= k < |parsed| ==> parsed[k] == Some(group[k]);
    assert ParseGroup(j, names, implied).Some?;
    assert ParseGroup(j, names, implied).value.trees == group;
  }

  // ---- the round trip ----

  lemma LinkSurvives(l: ExportLink)
    ensures ParseLink(LinkJson(l)) == l
  {
    if l.targetPath != [] {
      assert PathOf(LinkJson(l).fields) == l.targetPath;
    }
  }

  lemma LinksSurvive(fields: map<string, Json>, links: seq<ExportLink>)
    requires "links" in fields && fields["links"] == LinksJson(links)
    ensures ParseLinks(fields) == links
  {
    forall k | 0 <= k < |links|
      ensures ParseLink(LinkJson(links[k])) == links[k]
    {
      LinkSurvives(links[k]);
    }
  }

  /** A field is not lost: its key names no group, or there was nothing in it to lose. */
  ghost predicate FieldsKept(ei: ExportInstance, names: map<string, string>, implied: string) {
    && (ei.entityType == "" || "entity_type" in ei.children ==> ei.entityType == implied)
    && ("name" in ei.children ==> ei.name == "")
    && ("description" in ei.children ==> ei.description == "")
    && ("attributes" in ei.children ==> ei.attributes == map[])
    && LinksKept(ei, names)
  }

  /** An instance read as a link: nothing but a path, with an empty step for every child in the
      group that has the name of that field. */
  function NodeAsLink(t: ExportInstance): ExportLink {
    ExportLink("", "", "", if "target_path" in t.children then seq(|t.children["target_path"].trees|, _ => "") else [])
  }

  function GroupAsLinks(g: Group): seq<ExportLink> {
    seq(|g.trees|, k requires 0 <= k < |g.trees| => NodeAsLink(g.trees[k]))
  }

  lemma NodeIsReadAsLink(t: ExportInstance)
    ensures ParseLink(Marshal(t)) == NodeAsLink(t)
  {
    WrittenFields(t, "association");
    WrittenFields(t, "target_type");
    WrittenFields(t, "target_name");
    WrittenFields(t, "target_path");
    assert PathOf(Marshal(t).fields) == NodeAsLink(t).targetPath;
  }

  lemma GroupIsReadAsLinks(fields: map<string, Json>, g: Group)
    requires "links" in fields && fields["links"] == MarshalGroup(g)
    ensures ParseLinks(fields) == GroupAsLinks(g)
  {
    forall k | 0 <= k < |g.trees|
      ensures ParseLinks(fields)[k] == NodeAsLink(g.trees[k])
    {
      NodeIsReadAsLink(g.trees[k]);
    }
  }

  /** A group under the key of the links is written over them, and they must be what it reads as;
      links under the name of a containment are read as a group. */
  ghost predicate LinksKept(ei: ExportInstance, names: map<string, string>) {
    if "links" in ei.children
    then ei.links == GroupAsLinks(ei.children["links"])
    else "links" in names ==> ei.links == []
  }

  /** What an instance needs, all the way down, to be read back as it was. */
  ghost predicate Faithful(ei: ExportInstance, names: map<string, string>, implied: string)
    decreases ei
  {
    && FieldsKept(ei, names, implied)
    && forall key :: key in ei.children ==>
         && key in names && ei.children[key].trees != []
         && forall k :: 0 <= k < |ei.children[key].trees| ==> Faithful(ei.children[key].trees[k], names, names[key])
  }

  lemma WrittenFields(ei: ExportInstance, key: string)
    ensures var fields := Marshal(ei).fields;
            && (key in ei.children ==> key in fields && fields[key] == MarshalGroup(ei.children[key]))
            && (key !in ei.children ==> (key in fields <==> key in BaseFields(ei)))
            && (key !in ei.children && key in fields ==> fields[key] == BaseFields(ei)[key])
  {
  }

  /** The scalar fields read back, whatever the children. */
  lemma FieldsRead(ei: ExportInstance, names: map<string, string>, implied: string)
    ensures var fields := Marshal(ei).fields;
            var entityType := TextOf(fields, "entity_type");
            FieldsKept(ei, names, implied) <==>
              && (if entityType == "" then implied else entityType) == ei.entityType
              && TextOf(fields, "name") == ei.name && TextOf(fields, "description") == ei.description
              && AttributesOf(fields) == ei.attributes && LinksKept(ei, names)
  {
    hide LinksKept;
    WrittenFields(ei, "entity_type");
    WrittenFields(ei, "name");
    WrittenFields(ei, "description");
    WrittenFields(ei, "attributes");
  }

  lemma LinksRead(ei: ExportInstance)
    ensures var fields := Marshal(ei).fields;
            ParseLinks(fields) == if "links" in ei.children then GroupAsLinks(ei.children["links"])
                                  else ei.links
  {
    var fields := Marshal(ei).fields;
    WrittenFields(ei, "links");
    if "links" in ei.children {
      GroupIsReadAsLinks(fields, ei.children["links"]);
    } else if ei.links != [] {
      LinksSurvive(fields, ei.links);
    }
  }

  /** Which keys are read as groups. */
  lemma GroupsRead(ei: ExportInstance, names: map<string, string>, key: string)
    ensures HoldsChildren(Marshal(ei).fields, names, key) <==>
              key in names && (if key in ei.children then ei.children[key].trees != [] else key == "links" && ei.links != [])
  {
    WrittenFields(ei, key);
  }

  /** Reading undoes writing exactly for faithful instances. */
  lemma {:induction false} ParseUndoesMarshal(ei: ExportInstance, names: map<string, string>, implied: string)
    ensures Parse(Marshal(ei), names, implied) == Some(ei) <==> Faithful(ei, names, implied)
    decreases ei
  {
    var fields := Marshal(ei).fields;
    var groups := map key | key in fields && HoldsChildren(fields, names, key) :: ParseGroup(fields[key], names, names[key]);
    FieldsRead(ei, names, implied);
    LinksRead(ei);
    forall key
      ensures HoldsChildren(fields, names, key) <==>
                key in names && (if key in ei.children then ei.children[key].trees != [] else key == "links" && ei.links != [])
    {
      GroupsRead(ei, names, key);
    }
    forall key | key in ei.children && key in groups
      ensures groups[key] == Some(ei.children[key]) <==>
                forall k :: 0 <= k < |ei.children[key].trees| ==> Faithful(ei.children[key].trees[k], names, names[key])
    {
      WrittenFields(ei, key);
      GroupUndone(ei.children[key], names, names[key]);
    }
    Assemble(ei, names, implied, fields, groups);
  }

  lemma {:induction false} GroupUndone(g: Group, names: map<string, string>, implied: string)
    ensures ParseGroup(MarshalGroup(g), names, implied) == Some(g) <==>
            forall k :: 0 <= k < |g.trees| ==> Faithful(g.trees[k], names, implied)
    decreases g
  {
    var j := MarshalGroup(g);
    var parsed := seq(|j.items|, k requires 0 <= k < |j.items| => Parse(j.items[k], names, implied));
    forall k | 0 <= k < |g.trees|
      ensures parsed[k] == Some(g.trees[k]) <==> Faithful(g.trees[k], names, implied)
    {
      ParseUndoesMarshal(g.trees[k], names, implied);
    }
    if ParseGroup(j, names, implied) == Some(g) {
      forall k | 0 <= k < |g.trees|
        ensures Faithful(g.trees[k], names, implied)
      {
        assert parsed[k].Some? && ParseGroup(j, names, implied).value.trees[k] == parsed[k].value;
      }
    }
    if forall k :: 0 <= k < |g.trees| ==> Faithful(g.trees[k], names, implied) {
      assert forall k :: 0 <= k < |g.trees| ==> parsed[k] == Some(g.trees[k]);
      assert ParseGroup(j, names, implied).Some?;
      assert ParseGroup(j, names, implied).value.trees == g.trees;
    }
  }

  /** The parts put together. */
  lemma Assemble(ei: ExportInstance, names: map<string, string>, implied: string, fields: map<string, Json>,
                 groups: map<string, Option<Group>>)
    requires Marshal(ei) == JObj(fields)
    requires groups == map key | key in fields && HoldsChildren(fields, names, key) :: ParseGroup(fields[key], names, names[key])
    requires var entityType := TextOf(fields, "entity_type");
             FieldsKept(ei, names, implied) <==>
               && (if entityType == "" then implied else entityType) == ei.entityType
               && TextOf(fields, "name") == ei.name && TextOf(fields, "description") == ei.description
               && AttributesOf(fields) == ei.attributes && LinksKept(ei, names)
    requires ParseLinks(fields) == if "links" in ei.children then GroupAsLinks(ei.children["links"])
                                   else ei.links
    requires forall key :: HoldsChildren(fields, names, key) <==>
               key in names && (if key in ei.children then ei.children[key].trees != [] else key == "links" && ei.links != [])
    requires forall key :: key in ei.children && key in groups ==>
               (groups[key] == Some(ei.children[key]) <==>
                  forall k :: 0 <= k < |ei.children[key].trees| ==> Faithful(ei.children[key].trees[k], names, names[key]))
    ensures Parse(Marshal(ei), names, implied) == Some(ei) <==> Faithful(ei, names, implied)
  {
    hide HoldsChildren, ParseLinks, TextOf, AttributesOf, FieldsKept, MarshalGroup, Marshal, Parse, LinksKept, ParseGroup;
    ParseIs(ei, names, implied, fields, groups);
    forall key
      ensures key in groups <==> HoldsChildren(fields, names, key)
    {
      HoldsMeansIn(fields, names, key);
    }
    if Faithful(ei, names, implied) {
      forall key
        ensures key in groups <==> key in ei.children
        ensures key in groups && key in ei.children ==> groups[key] == Some(ei.children[key])
      {
        LinksKeptMeans(ei, names);
      }
      assert groups.Keys == ei.children.Keys;
      LinksKeptMeans(ei, names);
      assert ParseLinks(fields) == ei.links;
    }
    if Parse(Marshal(ei), names, implied) == Some(ei) {
      forall key | key in ei.children
        ensures GroupKept(ei, names, key)
      {
        assert key in groups && groups[key] == Some(ei.children[key]);
      }
      assert HoldsChildren(fields, names, "links") <==> "links" in ei.children;
      LinksKeptMeans(ei, names);
      assert FieldsKept(ei, names, implied);
      FaithfulParts(ei, names, implied);
    }
  }

  lemma FaithfulParts(ei: ExportInstance, names: map<string, string>, implied: string)
    requires FieldsKept(ei, names, implied)
    requires forall key :: key in ei.children ==> GroupKept(ei, names, key)
    ensures Faithful(ei, names, implied)
  {
    hide FieldsKept;
    forall key | key in ei.children
      ensures key in names && ei.children[key].trees != []
      ensures forall k :: 0 <= k < |ei.children[key].trees| ==> Faithful(ei.children[key].trees[k], names, names[key])
    {
      assert GroupKept(ei, names, key);
    }
  }

  ghost predicate GroupKept(ei: ExportInstance, names: map<string, string>, key: string)
    requires key in ei.children
  {
    && key in names && ei.children[key].trees != []
    && forall k :: 0 <= k < |ei.children[key].trees| ==> Faithful(ei.children[key].trees[k], names, names[key])
  }

  lemma HoldsMeansIn(fields: map<string, Json>, names: map<string, string>, key: string)
    ensures HoldsChildren(fields, names, key) ==> key in fields
  {
  }

  lemma LinksKeptMeans(ei: ExportInstance, names: map<string, string>)
    ensures LinksKept(ei, names) <==>
              if "links" in ei.children then ei.links == GroupAsLinks(ei.children["links"])
              else "links" in names ==> ei.links == []
  {
    hide GroupAsLinks;
  }

  /** What reading an object comes to. */
  lemma ParseIs(ei: ExportInstance, names: map<string, string>, implied: string, fields: map<string, Json>,
                groups: map<string, Option<Group>>)
    requires groups == map key | key in fields && HoldsChildren(fields, names, key) :: ParseGroup(fields[key], names, names[key])
    ensures Parse(JObj(fields), names, implied) == Some(ei) <==>
              && (if TextOf(fields, "entity_type") == "" then implied else TextOf(fields, "entity_type")) == ei.entityType
              && TextOf(fields, "name") == ei.name && TextOf(fields, "description") == ei.description
              && AttributesOf(fields) == ei.attributes && ParseLinks(fields) == ei.links
              && groups.Keys == ei.children.Keys
              && forall key :: key in groups && key in ei.children ==> groups[key] == Some(ei.children[key])
  {
    hide HoldsChildren, ParseLinks, TextOf, AttributesOf, ParseGroup;
    if forall key :: key in groups ==> groups[key].Some? {
      var children := map key | key in groups :: groups[key].value;
      assert Parse(JObj(fields), names, implied).value.children == children;
      assert children == ei.children <==>
               groups.Keys == ei.children.Keys
               && forall key :: key in groups && key in ei.children ==> groups[key] == Some(ei.children[key]);
    }
  }

  /** In particular when every group is a non-empty one under the name of a containment, no
      containment has the name of a field, and the types are given. */
  ghost predicate Plain(ei: ExportInstance, names: map<string, string>)
    decreases ei
  {
    && ei.entityType != ""
    && forall key :: key in ei.children ==>
         && key in names && ei.children[key].trees != []
         && forall k :: 0 <= k < |ei.children[key].trees| ==> Plain(ei.children[key].trees[k], names)
  }

  lemma {:induction false} PlainIsFaithful(ei: ExportInstance, names: map<string, string>, implied: string)
    requires Plain(ei, names) && names.Keys !! FIELDS
    ensures Faithful(ei, names, implied)
    decreases ei
  {
    forall key | key in ei.children
      ensures key in names && key !in FIELDS && ei.children[key].trees != []
      ensures forall k :: 0 <= k < |ei.children[key].trees| ==> Faithful(ei.children[key].trees[k], names, names[key])
    {
      assert key in names.Keys;
      forall k | 0 <= k < |ei.children[key].trees|
        ensures Faithful(ei.children[key].trees[k], names, names[key])
      {
        PlainIsFaithful(ei.children[key].trees[k], names, names[key]);
      }
    }
    assert "links" in FIELDS;
  }

  /** A containment called "name" costs its instances their names. */
  lemma ClobberedName(child: ExportInstance)
    ensures var ei := ExportInstance("T", "a", "", map[], [], map["name" := Group([child])]);
            Parse(Marshal(ei), map["name" := "C"], "") != Some(ei)
  {
    var ei := ExportInstance("T", "a", "", map[], [], map["name" := Group([child])]);
    assert "name" in ei.children;
    ParseUndoesMarshal(ei, map["name" := "C"], "");
  }
}
