/** The tables of the store as one value, and the store object that holds them. */
module Database {
  import opened Domain

  datatype Db = Db(
    catalogs: map<Id, Catalog>,
    instances: map<Id, Instance>,
    values: map<RowKey, Value>,
    links: map<Id, Link>,
    versionSets: map<Id, CatalogVersion>,
    pins: map<Id, Pin>,
    log: seq<Transition>,
    types: map<Id, string>,
    versions: map<Id, TypeVersion>,
    attributes: map<Id, Attribute>,
    associations: map<Id, Association>,
    typeDefs: map<Id, TypeInfo>,
    resources: map<string, Resource>,
    nextId: Id)

  /** Catalog names carry a unique index. */
  ghost predicate UniqueNames(catalogs: map<Id, Catalog>) {
    forall a, b :: a in catalogs && b in catalogs && catalogs[a].name == catalogs[b].name ==> a == b
  }

  /** The catalog with this name, if there is one. */
  method FindCatalog(catalogs: map<Id, Catalog>, name: string) returns (found: Option<Id>)
    ensures found.Some? ==> found.value in catalogs && catalogs[found.value].name == name
    ensures found.None? ==> forall c :: c in catalogs ==> catalogs[c].name != name
  {
    var todo := catalogs.Keys;
    while todo != {}
      invariant todo <= catalogs.Keys
      invariant forall c :: c in catalogs.Keys - todo ==> catalogs[c].name != name
      decreases todo
    {
      var c :| c in todo;
      if catalogs[c].name == name {
        return Some(c);
      }
      todo := todo - {c};
    }
    return None;
  }

  function WithStatus(d: Db, c: Id, s: Status): Db
    requires c in d.catalogs
  {
    d.(catalogs := d.catalogs[c := d.catalogs[c].(status := s)])
  }

  /** The tables of the schema and of the catalog versions agree. */
  ghost predicate SchemaSame(d: Db, e: Db) {
    && e.versionSets == d.versionSets && e.pins == d.pins && e.log == d.log && e.types == d.types
    && e.versions == d.versions && e.attributes == d.attributes && e.associations == d.associations
    && e.typeDefs == d.typeDefs
  }

  /** The tables of the data agree. */
  ghost predicate DataSame(d: Db, e: Db) {
    e.instances == d.instances && e.values == d.values && e.links == d.links && e.nextId == d.nextId
  }

  /** One field per table; every service method below works on an object of this class. */
  class Store {
    var catalogs: map<Id, Catalog>
    var instances: map<Id, Instance>
    var values: map<RowKey, Value>
    var links: map<Id, Link>
    var versionSets: map<Id, CatalogVersion>
    var pins: map<Id, Pin>
    var log: seq<Transition>
    var types: map<Id, string>
    var versions: map<Id, TypeVersion>
    var attributes: map<Id, Attribute>
    var associations: map<Id, Association>
    var typeDefs: map<Id, TypeInfo>
    var resources: map<string, Resource>
    var nextId: Id

    constructor (d: Db)
      ensures State() == d
    {
      catalogs, instances, values, links := d.catalogs, d.instances, d.values, d.links;
      versionSets, pins, log := d.versionSets, d.pins, d.log;
      types, versions, attributes, associations := d.types, d.versions, d.attributes, d.associations;
      typeDefs, resources, nextId := d.typeDefs, d.resources, d.nextId;
    }

    function State(): Db
      reads this
    {
      Db(catalogs, instances, values, links, versionSets, pins, log,
         types, versions, attributes, associations, typeDefs, resources, nextId)
    }
  }
}
