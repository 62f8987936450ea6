/** The records of the catalog store: schema rows, data rows and the small
    result types the services answer with. */
module Domain {

  /** Row identifiers. A fresh one is always larger than every one handed out before. */
  type Id = nat

  datatype Option<+T> = None | Some(value: T)

  /** What was given, or else what is there. */
  function Or<T>(x: Option<T>, y: T): T {
    if x.Some? then x.value else y
  }

  ghost predicate Injective(m: map<Id, Id>) {
    forall a, b :: a in m && b in m && m[a] == m[b] ==> a == b
  }

  ghost predicate Distinct(s: seq<Id>) {
    forall j, k :: 0 <= j < k < |s| ==> s[j] != s[k]
  }

  datatype Error = NotFound | Conflict | Rejected | Forbidden | Integrity

  datatype Result<+T> = Ok(value: T) | Err(error: Error)

  datatype Outcome = Pass | Fail(error: Error)

  /** A JSON value, as in section 3 of RFC 8259. */
  datatype Json =
    | JNull
    | JBool(b: bool)
    | JNum(n: real)
    | JStr(s: string)
    | JArr(items: seq<Json>)
    | JObj(fields: map<string, Json>)

  // ---- schema ----

  datatype BaseType = StringT | IntegerT | NumberT | BooleanT | DateT | UrlT | EnumT | ListT | JsonT

  /** The constraint map of a type definition version; "corrupted" is the marker
      key left behind when the stored text was not a JSON object. */
  datatype Constraints = Constraints(
    corrupted: bool,
    values: set<string>,
    maxLength: Option<real>,
    pattern: Option<string>,
    min: Option<real>,
    max: Option<real>,
    elementType: Option<string>)

  datatype TypeInfo = TypeInfo(base: BaseType, constraints: Constraints)

  datatype TypeVersion = TypeVersion(typeId: Id, version: nat, description: string)

  datatype Attribute = Attribute(
    versionId: Id, name: string, description: string, typeDef: Id, ordinal: int, required: bool)

  datatype AssociationKind = Containment | Directional | Bidirectional

  datatype Association = Association(
    versionId: Id, name: string, target: Id, kind: AssociationKind,
    sourceRole: string, targetRole: string,
    sourceCardinality: string, targetCardinality: string)

  // ---- catalog versions ----

  datatype Stage = Development | Testing | Production

  datatype Role = RO | RW | Admin | SuperAdmin

  datatype CatalogVersion = CatalogVersion(versionLabel: string, stage: Stage)

  datatype Pin = Pin(cvId: Id, versionId: Id)

  datatype Transition = Transition(cvId: Id, from: Option<Stage>, to: Stage)

  // ---- data ----

  datatype Status = Draft | Valid | Invalid

  datatype Catalog = Catalog(name: string, description: string, cvId: Id, status: Status, published: bool)

  datatype Instance = Instance(
    typeId: Id, catalogId: Id, parent: Option<Id>, name: string, description: string, version: nat)

  /** An attribute row is identified by instance, instance version and attribute. */
  datatype RowKey = RowKey(inst: Id, ver: nat, attr: Id)

  datatype Value = Value(str: string, num: Option<real>, json: string)

  datatype Link = Link(assoc: Id, source: Id, target: Id)

  /** The part of a Catalog custom resource that names its catalog. */
  datatype Resource = Resource(sourceId: Id)
}
