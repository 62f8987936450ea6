# A model of the AI Asset Hub catalog store

The hub stores *entity types* in numbered versions, each with attributes and associations;
*catalog versions* that pin entity type versions and move from development to production;
*catalogs* of instances, attribute rows and links, checked against the versions they pin; and a
Catalog resource in the cluster for every published catalog. This project models that service
layer and proves what its operations keep, alone and over whole runs.

The store is one object (`Database.Store`) with a map per table; `State()` is its value as a
`Db`. Each service call is a method on that object. Its contract ties the new state to the old
one, either through a specification function or through a *step* (`DataStep`, `VersionStep`,
`CatalogStep`, `SchemaStep`). The lemmas about steps give the run theorems. A fresh id is the
table counter, a transaction is all or nothing, unique indexes are invariants, and a Go map that
is ranged over becomes a loop over a set that may be visited in any order. Instance calls look
rows up by name; that they succeed *exactly* when their checks hold is stated for stores in which
such a lookup leads to one row (`Instances.Unambiguous`: the unique indexes, pins of existing
versions, one pin per entity type). `SystemRun.RunIsUnambiguous` shows that runs keep them so.

## The main results

1. **Valid is never stale.** `Validation.Validate` stores "valid" exactly when the declarative
   predicate `Conformance.Conforms` holds, and reports exactly the findings that hold;
   `FindingsMeaning` says what each of them means of records, rows, links and pins.
   `SystemRun.RunKeeps`: in every state of every run of validation, instance, link, parent, pin,
   version, catalog, copy and schema calls and of imports under a new label, a catalog marked valid
   conforms *now*; unique names, the log, the pins, the resources, the schema history and the data
   invariants hold as well. An import is three moves (`SystemRun.ImportIsARun`): its schema phase,
   which keeps the invariants exactly when the new types of the file neither contain each other in
   a cycle nor mix names (`ImportKeepsIff`), a new catalog, and work on its instances.
2. **Valid means forest.** The containment graph over all versions stays acyclic, so the
   instances of a valid catalog form a forest (`ValidForest.ValidMeansForest`,
   `SystemRun.MarkedValidIsForest`).
3. **Export, JSON, import.** `CatalogTransfer.Transfer`: a catalog, valid or not, whose instances
   are of pinned types, legally placed and told apart by type and name, is exported from one store
   and imported into another, schema and data. When its values survive, its links are found again
   by name, and the file fits the other store, the new catalog, read through the pins of its new
   catalog version, is the same up to ids: same forest, stored values that say the same, same links.
   `CatalogTransfer.NewcomersFitIff` says when a schema fits where none of its types exists;
   `RoundTrip.ExportThenImport` is the same within one store. `ExportJson.ParseUndoesMarshal` says
   exactly which trees the JSON form loses nothing of, `SchemaImport.ImportSchema` and
   `DataImport.ImportData` what any file leaves.
4. **Copy.** `CopyIsomorphism.CopyIsIsomorphic` and `CopyConforms`: the id maps of `CopyCatalog`
   are an isomorphism of what validation sees, so a copy conforms when its source does.
5. **Migration.** `Migration.InOrderIsAtOnce`: remapping attribute ids pair by pair, in any order,
   is one simultaneous substitution, or fails exactly when a row is in the way. A mapped attribute
   shows what it showed exactly when both its types read the row alike (`MeaningIsKept`), which
   `PinUpdates.UpdatePin` promises of a whole pin update, and always when no changed type is warned
   about; `MigratingBack` says when it can be undone. `AttributeMapping` decides the mapping and shows
   its report to be a partition.
6. **Histories.** Over any run of instance calls attribute rows are the fold of an instance's edits
   over what it was created with (`RowHistory.CallsAreFolds`), old entity type versions are frozen
   (`SchemaHistory.SchemaRunKeeps`), the stage log is a path and production pins never move
   (`CatalogVersions.VersionRunKeeps`), and resources mirror the published catalogs
   (`Catalogs.StepKeepsMirror`).

## What the proofs found

Where a promised property fails, the code is modelled as it is, with a counterexample or an exact
condition.

- `SetParent` looks the parent up by id and checks the type the *caller* names, not the type the
  instance has. A misnamed parent can close a cycle (`ValidForest.MisnamedParentClosesACycle`);
  an honest name cannot (`HonestMoveKeepsForest`), and a move keeps the forest exactly when the new
  parent is not below the child (`MoveKeepsForestIff`). Naming the child as its own parent is
  undone, because the second save writes the copy loaded before the first.
- A create that is refused for its attribute values has already written the instance and leaves the
  status alone, so a catalog marked valid can go stale (`SystemRun.FailedCreateCanGoStale`). It does
  not exactly when the catalog was not marked or the bare row fits it, a condition on the store before
  the call (`BareCreate.BareFits`, `SystemRun.FailedCreateNeverStaleIff`). Those failures are not moves
  of a run.
- `cascadeDelete` lists at most 1000 children, so it removes the whole subtree exactly when no node
  in it has more (`Containment.TakesWholeSubtree`; `PageLimitLeavesOrphans` is a root with 1001). It
  ends exactly when no descent from the instance comes back to it (`DeleteEndsIff`), as in every
  catalog marked valid (`SystemRun.MarkedValidMayBeDeleted`). It leaves the attribute rows behind.
- A cardinality whose bound does not fit a 64-bit integer is accepted, then read as unbounded
  (`Cardinality.HugeBoundIsLost`). A source cardinality with maximum 0 is not checked at all.
- Changing an association's type to containment skips the cycle check
  (`AssociationCalls.TypeChangeClosesACycle`; `EditKeepsAcyclic` gives the exact condition).
- `CopyAttributesFromType` compares with attribute names only and stops at a repeated name after
  the rows before it are stored; the names stay apart exactly when no association has one of them
  (`AttributeCalls.CopiedNamesApart`, with a collision in `CopiedNameCollides`).
- `RemoveAttribute` and `DeleteAssociation` of a name that does not exist leave an identical next
  version behind; `EditAttribute` with an empty type id clears the type.
- `UpdateMetadata` that fails keeps a rename asked for in the same call exactly when the edit is
  allowed, the name is new, a label and free, and the version is new and does not exist
  (`CatalogCalls.RenameKept`, `FailureChangesIff`; an input in `FailureKeepsRename`).
- Without the cluster, `Unpublish` of a published catalog leaves its resource, and `ReplaceCatalog`
  leaves resources behind when the source or the target is published. Each keeps resources and
  published catalogs in step exactly when it touches no published catalog
  (`Catalogs.UnansweredMirrorsIff`; an input in `MirrorIsLost`).
- A containment named like a field of an exported instance overwrites that field
  (`ExportJson.ClobberedName`). A JSON value that is a bare string, or a number kept as text, may
  change on import (`ExportTree.ValueRoundTrip` says exactly when, `QuotedJsonIsUnquoted` has one).
- An import makes no cycle check: a file with two types that contain each other closes a cycle
  (`ImportCycles.ImportClosesACycle`). The graph stays acyclic exactly when the new types of the file
  contain each other without one (`ImportKeepsAcyclicIff`). Nor does it look whether attributes and
  associations of a type share names (`ImportSafety.ImportKeepsNamesIff`).
- An import into a catalog version to be reused pins the types it creates there and resets no
  catalog of the version. A catalog marked valid is left stale (`ImportReuse.ReusedImportGoesStale`)
  exactly when a new type of the file asks something of one of its instances: a container of a root,
  or a link of one that has none (`ReusedImportNeverStaleIff`).
- An import into a catalog version to be reused writes under the latest version of each type, whatever
  that catalog version pins (`SchemaImport.ReusedVersionIsNotPinned`); what is written is read through
  its pins exactly when it pinned the latest version before (`ReusedPinIff`). The comparison with an
  existing type passes over cardinalities (`SchemaMatch.CardinalityIsPassedOver`).
- The comment on who may edit pins asks for write access in development; the code checks no role
  there, and the model follows the code (`CatalogVersionCalls.MayEdit`).
- Rows left under the ids of a version that is pinned again block the migration, or are shown
  again when nothing was mapped to their attribute (`Migration.RestIsKept`).
- A mapped attribute whose base type changed can lose what it showed
  (`Migration.TypeChangeLosesMeaning`).
- Attribute ids shared between the two sides of a remap make the result depend on the order
  (`Migration.OverlapDependsOnOrder`); the ids of two versions are never shared.

## Model

| member | source | states |
|---|---|---|
| Validation.CheckAll | internal/service/operational/validation_service.go:97-536 | the passes together report exactly the findings that hold, whatever the map order, and none exactly when the catalog conforms |
| Validation.CheckCatalog | internal/service/operational/validation_service.go:84-106 | an empty catalog passes; otherwise the call fails exactly when a pin or a type definition in use cannot be resolved |
| Validation.Validate | internal/service/operational/validation_service.go:72-543 | the stored status is valid exactly when the catalog conforms; nothing else of the catalog or of the store changes; refused exactly when there is no checkable catalog of the name |
| Validation.CheckNames | internal/service/operational/validation_service.go:150-168 | findings about instance names, both directions |
| Validation.CheckTypes | internal/service/operational/validation_service.go:170-355 | findings about pinned types, values and target cardinalities, grouped by type |
| Validation.CheckValue | internal/service/operational/validation_service.go:276-321 | findings about one attribute: required, enum and constraint rules |
| Validation.CheckTargets | internal/service/operational/validation_service.go:323-355 | target cardinality of every plain association, by the instance's link counts |
| Validation.CheckSources | internal/service/operational/validation_service.go:357-410 | source cardinality by reverse link counts, skipped when it says nothing or has maximum 0 |
| Validation.CheckParents | internal/service/operational/validation_service.go:411-481 | mandatory, missing, unpinned and illegal parents |
| Validation.CheckChildren | internal/service/operational/validation_service.go:483-531 | child counts of every containment against its target cardinality |
| Validation.CountForward | internal/service/operational/validation_service.go:325-333 | the tally per association is the number of links |
| Validation.CountChildren | internal/service/operational/validation_service.go:488-496 | the tally per parent and type is the number of children |
| Conformance.ConformsMeansNoFindings | internal/service/operational/validation_service.go:97-536 | the declarative predicate and the list of findings agree |
| FindingsMeaning.NameFindings | internal/service/operational/validation_service.go:150-168 | a name is reported as empty exactly when it is blank, as no label exactly when it is otherwise and an automaton reading it from left to right rejects it |
| FindingsMeaning.LabelIsMatched | internal/service/operational/instance_service.go:20 | a text is a label exactly when the automaton of the pattern accepts it |
| FindingsMeaning.TypeFindings | internal/service/operational/validation_service.go:170-190 | an instance is reported unpinned exactly when no pin of the catalog version is of its type |
| FindingsMeaning.ValueFindings | internal/service/operational/validation_service.go:276-321 | what each finding about a value says of the row an attribute shows |
| FindingsMeaning.SchemaFindings | internal/service/operational/validation_service.go:196-220 | a type definition is reported exactly when an attribute of a pinned type in use has it, and its constraints are corrupted, or its pattern does not compile |
| FindingsMeaning.TargetFindings | internal/service/operational/validation_service.go:323-355 | links of an instance are too few or too many exactly by the bounds the cardinality writes, unless it admits none |
| FindingsMeaning.ChildFindings | internal/service/operational/validation_service.go:483-531 | the same for children |
| FindingsMeaning.SourceFindings | internal/service/operational/validation_service.go:357-410 | the same for the links into an instance, over every plain association that ends at its type |
| FindingsMeaning.ConformingSourceCount | internal/service/operational/validation_service.go:370-405 | in a conforming catalog the number of links into an instance is within the bounds the source cardinality writes, unless both are 0 |
| FindingsMeaning.NothingAsked | internal/service/operational/validation_service.go:370 | a source cardinality that is unbounded from 0, or 0 and 0, is never reported |
| FindingsMeaning.LinkedTwice | internal/service/operational/validation_service.go:399-405 | a catalog with two links into one instance under a source cardinality "0..1" does not conform |
| FindingsMeaning.ParentFindings | internal/service/operational/validation_service.go:411-460 | a root is reported exactly when some pinned containment of its type asks for at least one container; a parent exactly when it is no instance of the catalog, or one of an unpinned type |
| FindingsMeaning.IllegalParentFindings | internal/service/operational/validation_service.go:460-481 | a parent is reported as illegal exactly when no association of its pinned type holds the type of the child |
| Conformance.NoBrokenRuleMeansWithinType | internal/service/operational/validation_service.go:295-320 | a value breaks no rule exactly when it is within its type's constraints |
| FindingsMeaning.RuleFindings | internal/service/operational/validation_service.go:295-320 | which rules a value breaks: bounds, length, pattern, whole numbers, truth values, dates, URLs, JSON text and, one by one, list elements |
| Cardinality.ShapeAcceptance | internal/service/validation/cardinality.go:17-40 | a string of a cardinality's shape is accepted exactly when its bounds are in order and fit a machine integer where it matters |
| Cardinality.AcceptedIsAShape | internal/service/validation/cardinality.go:17-40 | whatever is accepted is the text of a shape |
| Cardinality.ParsedAsWritten | internal/service/operational/validation_service.go:547-567 | an accepted cardinality that fits the machine integer is read with the bounds it writes down |
| Cardinality.HugeBoundIsLost | internal/service/operational/validation_service.go:547-567 | a bound that does not fit is accepted and read as unbounded |
| Cardinality.SignIsRead | internal/service/operational/validation_service.go:547-567 | a number with a sign is never accepted, but would be read |
| SystemRun.RunKeeps | internal/service/operational/validation_service.go:538-542 | in every reachable state, imports under new labels included, a catalog marked valid conforms, and all invariants hold |
| SystemRun.MarkedValidIsForest | internal/service/operational/instance_service.go:1048-1107 | in every reachable state the instances of a catalog marked valid form a forest, and its pins are one per type |
| SystemRun.MarkedValidMayBeDeleted | internal/service/operational/instance_service.go:537-561 | in every reachable state no descent from an instance of a catalog marked valid comes back to it, in the whole table |
| SystemRun.MoveKeeps | internal/service/operational/validation_service.go:538-542 | every kind of call keeps the invariants and the freshness of valid |
| SystemRun.ImportKeepsIff | internal/service/operational/import_service.go:374-671 | the schema phase under a new label keeps the invariants exactly when the file's new types close no cycle and keep their names apart; no old catalog becomes stale |
| SystemRun.ImportIsARun | internal/service/operational/import_service.go:374-860 | an import under a new label that closes no cycle and mixes no names is three moves of a run |
| SystemRun.EmptyStoreIsSound | internal/service/operational/validation_service.go:538-542 | runs may start from an empty store |
| SystemRun.RunIsUnambiguous | internal/service/operational/instance_service.go:85-112 | in every state of a run whose new catalog versions pin existing versions, a lookup by name leads to one row |
| SystemRun.FailedCreateNeverStaleIff | internal/service/operational/instance_service.go:331-347 | a create that fails after its row is written keeps valid fresh exactly when the catalog was not marked, or the bare row fits the catalog as it was before |
| BareCreate.ConformsWithOneMore | internal/service/operational/validation_service.go:97-536 | a conforming catalog with one more bare row conforms exactly when the row fits: label, pinned type, nothing required, ranges that admit none, room under its parent |
| SystemRun.FailedCreateCanGoStale | internal/service/operational/instance_service.go:331-347 | a concrete refused create after which a catalog marked valid does not conform |
| Staleness.DataCallKeeps | internal/service/operational/instance_service.go:524-535 | any sequence of data steps ended by the reset to draft keeps the data invariants and the freshness of valid everywhere |
| InstanceCalls.CreateInstance | internal/service/operational/instance_service.go:309-356 | created exactly when the names resolve, the input can be read and the scope is free; success adds one record at version 1, and rows that say what was put in, and drafts the catalog; failure may leave the bare record |
| InstanceCalls.CreateContainedInstance | internal/service/operational/instance_service.go:563-644 | the same below a parent of the catalog whose named type may contain the child's type; the parent is one version on, with the rows it had |
| InstanceCalls.UpdateInstance | internal/service/operational/instance_service.go:453-535 | accepted exactly for the current version, readable input and a free name; then the record has the name and description given, or its own where none is, the next version and the old type, catalog and parent; the rows of that version say what was put in, what was cleared is gone, the rest is carried on, and no other row is touched |
| InstanceCalls.DeleteInstance | internal/service/operational/instance_service.go:537-561 | deleted exactly when it is in the catalog; what the cascade takes is gone from the records, and exactly the links that touch it from the links; then draft |
| InstanceCalls.SetParent | internal/service/operational/instance_service.go:952-1045 | made exactly when the checks accept it; child and parent, and no other record, are one version on, the child under its new parent, both with the rows they had |
| InstanceCalls.CreateAssociationLink | internal/service/operational/instance_service.go:711-827 | drawn exactly when the checks accept it; the link is added, the source is one version on, and so is the target exactly over a bidirectional association, with the rows they had |
| InstanceCalls.DeleteAssociationLink | internal/service/operational/instance_service.go:829-876 | deleted exactly when it starts in the catalog and its association exists; the link is gone and the ends are one version on likewise |
| InstanceCalls.SavedTwice | internal/service/operational/instance_service.go:1033-1041 | naming an instance as its own parent is undone by the second save |
| InstanceCalls.CheckUpdate | internal/service/operational/instance_service.go:453-520 | with a free scope, the checks pass exactly when the update may be made |
| InstanceCalls.CheckLink | internal/service/operational/instance_service.go:711-800 | the catalog and link found are the only ones that can be accepted |
| InstanceCalls.FindAssociation | internal/service/operational/instance_service.go:735-789 | an association of the source's version decides, else a bidirectional one of the target's pinned version, and there is no other |
| InstanceCalls.ResolveContainment | internal/service/operational/instance_service.go:563-605 | the catalog and version found are the only ones where parent and types fit |
| Instances.ResolveEntityType | internal/service/operational/instance_service.go:85-112 | the catalog and pinned version found are the only ones of the names |
| Instances.ReadInput | internal/service/operational/instance_service.go:211-307 | accepts exactly the inputs whose names are attributes and whose values can be read, and reads each |
| InstanceRows.AcceptedMeans | internal/service/operational/instance_service.go:211-307 | input is accepted exactly when every attribute of the version has a type definition and every name is one of its attributes, with nothing or, for numbers, a number |
| InstanceRows.InputSays | internal/service/operational/instance_service.go:234-304 | null and the empty text clear an attribute; what is read of anything else says what was put in; only numbers can be refused |
| InstanceRows.StepsCarry | internal/service/operational/instance_service.go:1175-1215 | over any saves and links every version an instance gains has the rows it had, and no other row is touched |
| Instances.CarryForward | internal/service/operational/instance_service.go:471-524 | the stored rows are the revision of the previous ones |
| Instances.SetValues | internal/infrastructure/gorm/repository/instance_attribute_value_repo.go:21-37 | a key already present fails the whole statement |
| Instances.BumpInstanceVersion | internal/service/operational/instance_service.go:1175-1215 | the record one version on with its rows carried forward, or nothing |
| Revisions.EditWritesNextVersion | internal/service/operational/instance_service.go:471-524 | an edit writes exactly the next version's rows and no other row |
| Revisions.RunIsFold | internal/service/operational/instance_service.go:1175-1215 | over any run of creations and edits, rows at every version are the fold of the edits over the start or the creation, and none lies beyond the current version |
| RowHistory.CallsAreFolds | internal/service/operational/instance_service.go:453-535 | the same for the store over any run of instance calls: every step of a call is a creation, an edit or a removal of rows |
| Migration.MapAttributeValues | internal/service/operational/instance_service.go:146-178 | each attribute shows the part of its row its base type says, and nothing when that part is empty |
| Containment.CascadeDelete | internal/service/operational/instance_service.go:1155-1170 | terminates below an instance off every cycle; takes at most 1000 children per node, with their links |
| Containment.TakesWholeSubtree | internal/service/operational/instance_service.go:1155-1170 | what is taken is the subtree exactly when no node of it has more than 1000 children |
| Containment.PageLimitLeavesOrphans | internal/service/operational/instance_service.go:1155-1170 | a root with 1001 children is not removed whole |
| Containment.SurvivorsAreWhole | internal/service/operational/instance_service.go:1155-1170 | no surviving link touches what was removed; no survivor's parent was removed exactly when the whole subtree was |
| Containment.DeleteEndsIff | internal/service/operational/instance_service.go:1155-1165 | the recursion ends, whatever children the pages list, exactly when no descent from the instance comes back to it |
| Trees.GetContainmentTree | internal/service/operational/instance_service.go:1048-1107 | terminates on any instances, and places each root-reached one exactly once under its parent, siblings in order |
| Trees.FirstDifferenceDecides | internal/service/operational/instance_service.go:1095-1107 | siblings are ordered by the first character in which their names differ |
| Trees.BuildParentPath | internal/service/operational/export_service.go:596-606 | on a forest, the names of the proper ancestors, root first |
| CycleDetection.CycleSearch.HasCycle | internal/service/validation/cycle_detection.go:33-49 | a hit means the source is reached; no hit leaves the visited nodes closed under edges except the open ones |
| CycleDetection.BuildAdjacency | internal/service/validation/cycle_detection.go:22-29 | the adjacency map holds exactly the edges |
| CycleDetection.CheckContainmentCycle | internal/service/validation/cycle_detection.go:12-56 | rejects exactly when source is target or target reaches source, on any edge list |
| CycleDetection.AcceptedKeepsAcyclic | internal/service/validation/cycle_detection.go:12-56 | on an acyclic graph, accepts exactly the edges that keep it acyclic |
| Digraph.AddEdgeAcyclic | internal/service/validation/cycle_detection.go:12-56 | an edge closes a cycle exactly when its target reached its source |
| ValidForest.PinnedGraphIsAcyclic | internal/infrastructure/gorm/repository/association_repo.go:111-135 | the containment graph of the pinned versions is acyclic |
| ValidForest.ValidMeansForest | internal/service/operational/validation_service.go:425-481 | in a conforming catalog every climb ends at a root |
| ValidForest.MoveKeepsForestIff | internal/service/operational/instance_service.go:1033-1041 | a move keeps acyclicity exactly when the parent is not below the child, or is the child |
| ValidForest.HonestMoveKeepsForest | internal/service/operational/instance_service.go:993-1022 | a move to a parent of the named type keeps legal parents legal and the forest a forest |
| ValidForest.MisnamedParentClosesACycle | internal/service/operational/instance_service.go:993-1037 | an accepted move under a misnamed parent that closes a cycle |
| ExportJson.ParseExportInstance | internal/service/operational/import_service.go:1065-1114 | the loop over the fields reads what the specification reads |
| ExportJson.ParseExportInstances | internal/service/operational/import_service.go:1053-1117 | every element as specified, or the first unreadable one fails the list |
| ExportJson.ParseChildren | internal/service/operational/import_service.go:1094-1112 | children get the type their association implies when they name none |
| ExportJson.ParseUndoesMarshal | internal/service/operational/export_service.go:87-114 | reading undoes writing exactly for faithful trees |
| ExportJson.LinkIsWritten | internal/service/operational/export_service.go:71-76 | which text of a link is written under which key; the path only if there is one |
| ExportJson.InstanceIsWritten | internal/service/operational/export_service.go:78-115 | which part of an instance is written under which key: its fields, the links only if there are any, and each group of children under the name of its association, beside the fields or over them |
| ExportJson.PlainIsFaithful | internal/service/operational/import_service.go:1053-1117 | trees whose groups are non-empty, under containment names that are no field names, are faithful |
| ExportJson.ClobberedName | internal/service/operational/export_service.go:87-114 | a containment called "name" loses the instance's name |
| ExportTree.ValueRoundTrip | internal/service/operational/import_service.go:770-800 | a value is exported again as it was, and the stored row says what it said before, exactly when it survives |
| ExportTree.ExportedMeans | internal/service/operational/export_service.go:458-482 | the file tells apart exactly the rows that say something else, by number, text or parsed JSON, and has nothing for a row that says nothing; a number is written as itself |
| ExportTree.QuotedJsonIsUnquoted | internal/service/operational/import_service.go:770-800 | the JSON string "null" is not exported again as it was: it comes back as no value |
| ExportTree.TwoTextsAreSound | internal/service/operational/import_service.go:754-763 | what the round trip asks of JSON text can be met: a reader of two texts meets it |
| ExportTree.DepictedTwice | internal/service/operational/export_service.go:409-590 | two catalogs depicted by one forest are the same up to ids: types, names, parents, stored values under attributes of one name and base type, link counts |
| CatalogExport.BuildAttributes | internal/service/operational/export_service.go:432-482 | the map holds exactly the non-empty current values, by attribute name |
| CatalogExport.BuildLinks | internal/service/operational/export_service.go:484-533 | as many entries per association name and target as there are plain links between the two instances, each entry with the names of a link's association and target and the path of the target's ancestors |
| CatalogExport.BuildInstance | internal/service/operational/export_service.go:424-575 | the tree stands for the instance and everything below it, each once; and is plain when the catalog is labelled |
| CatalogExport.BuildExportInstances | internal/service/operational/export_service.go:409-590 | when every instance is below a root, the forest depicts the catalog and holds no key twice |
| ImportNodes.ReadValues | internal/service/operational/import_service.go:743-807 | the rows are the input's values for the attributes of the version, others dropped |
| ImportNodes.CreateNode | internal/service/operational/import_service.go:712-807 | one row with its values at version 1, refused exactly for an unknown type or a taken scope |
| ImportNodes.CreatedShows | internal/service/operational/import_service.go:722-807 | the created instance is exported again as the node it was created from |
| CatalogImport.CreateInstanceTree | internal/service/operational/import_service.go:712-819 | any tree: created exactly when its types are known, siblings differ in type or name and the root's scope is free; then every node has its row under the row above and nothing else is new; a tree that fits is depicted |
| CatalogImport.CreateForest | internal/service/operational/import_service.go:809-825 | the same for any list of trees under one parent |
| ImportLinks.ResolveAssociation | internal/service/operational/import_service.go:862-884 | an association of the source's version by name, or else the one the table of the import's types has under it |
| ImportLinks.CreateNodeLinks | internal/service/operational/import_service.go:862-904 | the links drawn are those of the entries whose association and target are found, in the order of the entries; when all are, one link per entry |
| ImportLinks.CreateLinksRecursive | internal/service/operational/import_service.go:862-917 | any tree: the node's links, then those of its groups, and nothing else; when every entry resolves, the tree depicts them |
| ImportLinks.CreateForestLinks | internal/service/operational/import_service.go:827-836 | the same for any list of trees |
| DataImport.ImportData | internal/service/operational/import_service.go:688-850 | any forest: imported exactly when the name is free and it is accepted, otherwise everything is as it was; then a new draft and allowed steps on it: every node has its row, every entry that resolves its link, and nothing else is new; an acceptable forest depicts the new catalog |
| RoundTrip.ResolveTypes | internal/service/operational/export_service.go:325-338 | every pinned type with its name and a pinned version; fails exactly on a dangling pin |
| RoundTrip.ResolveHolders | internal/service/operational/export_service.go:345-364 | each pair of types joined by a pinned containment, with the name of one |
| RoundTrip.PlacedIsReady | internal/service/operational/import_service.go:740-741 | keys of type and name lead to the instances of a legally placed catalog, valid or not |
| RoundTrip.PlacedIsRooted | internal/service/operational/export_service.go:424-575 | legally placed instances all lie under roots, so the export reaches them |
| RoundTrip.LabelsKeepKeysApart | internal/service/operational/import_service.go:740-741 | instances with label names are told apart by key when they are by type and name |
| RoundTrip.ValidIsShippable | internal/service/operational/export_service.go:192-407 | a valid catalog whose instances are told apart meets what the round trip asks |
| RoundTrip.ExportIsAcceptable | internal/service/operational/import_service.go:712-836 | what is exported of a portable catalog can be imported |
| RoundTrip.OwnSchemaIsPortable | internal/service/operational/import_service.go:862-917 | into its own schema a catalog is portable when its values survive and each link is found again: under its source's version, or by name in the table of the types |
| RoundTrip.ExportCatalog | internal/service/operational/export_service.go:192-407 | a legally placed catalog, valid or not, is depicted by a forest that is read back from the file as it was; it fails exactly when something pinned cannot be resolved |
| RoundTrip.ExportThenImport | internal/service/operational/import_service.go:684-860 | a transferable catalog, valid or not, comes back the same up to ids; every stored value has an attribute of its name and base type to go to, and its row there says the same; the original is untouched |
| SchemaExport.ExportAttributes | internal/service/operational/export_service.go:236-260 | every attribute of the version once, with its type definition by name; fails exactly on a missing one |
| SchemaExport.ExportAssociations | internal/service/operational/export_service.go:262-285 | every association of the version once, with its target by name; fails exactly on a missing one |
| SchemaExport.ExportSchema | internal/service/operational/export_service.go:216-292 | every pinned version is exported whole and nothing else, no name twice; fails exactly when something referred to is missing |
| SchemaMatch.IsIdentical | internal/service/operational/import_service.go:930-998 | as many attributes and associations, and a like of each of the file |
| SchemaMatch.IdenticalMeans | internal/service/operational/import_service.go:930-998 | in terms of the tables: as many attributes and associations, and each of the file with its name, required mark and type definition, or its name, kind and target |
| SchemaMatch.IdenticalIsCovered | internal/service/operational/import_service.go:930-998 | counting and looking one way is enough: an identical version holds nothing else |
| SchemaMatch.ShownIsIdentical | internal/service/operational/import_service.go:930-998 | a version is identical to what is exported of it |
| SchemaMatch.CardinalityIsPassedOver | internal/service/operational/import_service.go:972-995 | two versions that differ in a cardinality are identical |
| SchemaTypes.CreateAttributes | internal/service/operational/import_service.go:586-604 | the attributes of the file under the new version; fails only for an unknown type definition or a name twice |
| SchemaTypes.AdoptType | internal/service/operational/import_service.go:485-555 | an existing type is taken with its latest version, as asked or when identical, and pinned unless the catalog version is reused |
| SchemaTypes.AddType | internal/service/operational/import_service.go:558-617 | a new type with version 1 and its attributes, pinned |
| SchemaTypes.FindOrCreateAll | internal/service/operational/import_service.go:483-618 | every type of the file stands under its name, no old version has changed, and the new pins are of these versions; it succeeds when the types fit |
| SchemaLinks.CreateAssociations | internal/service/operational/import_service.go:627-648 | the associations of the file under the version, to targets found by name; unknown targets and repeated names fail |
| SchemaLinks.LinkCreated | internal/service/operational/import_service.go:620-650 | created types get exactly their associations, the others stand as they did |
| SchemaImport.PrepareVersion | internal/service/operational/import_service.go:438-481 | a new version exactly when the label is free; with unique labels, the one to be reused exactly when it exists and pins every type of the file that exists |
| SchemaImport.ImportSchema | internal/service/operational/import_service.go:374-671 | one transaction: every type of the file created whole, found identical or reused, old versions frozen, each created type pinned, the others pinned under a new label only, no pin twice; a file that fits succeeds, under a new label or a reused one |
| SchemaImport.ReusedPinIff | internal/service/operational/import_service.go:485-505 | a type's version that was there is pinned by a reused catalog version exactly when it was before |
| SchemaImport.ReusedVersionIsNotPinned | internal/service/operational/import_service.go:438-505 | a file that fits a version to be reused, so that the phase succeeds, and is handed a version its catalog version does not pin |
| ImportCycles.ImportKeepsAcyclicIff | internal/service/operational/import_service.go:620-650 | the containment graph stays acyclic exactly when the file's new types contain each other without a cycle |
| ImportCycles.ImportClosesACycle | internal/service/operational/import_service.go:620-650 | a file that fits an empty store and closes a cycle |
| ImportSafety.ImportKeepsNamesIff | internal/service/operational/import_service.go:583-650 | attribute and association names stay apart exactly when the file keeps them apart in its new types |
| ImportSafety.ImportKeepsNumbers | internal/service/operational/import_service.go:572-582 | every type's versions are still numbered 1 to n |
| ImportSafety.ImportKeepsPins | internal/service/operational/import_service.go:472-611 | the new catalog version has one pin for each entity type |
| ImportSafety.ImportNeverStale | internal/service/operational/import_service.go:472-611 | an import under a new label shows in no old catalog, so none marked valid becomes stale |
| ImportReuse.ConformsWithMorePinned | internal/service/operational/validation_service.go:357-536 | with more types pinned, none of them a member's, a catalog conforms exactly when it did and no new association asks anything of a member |
| ImportReuse.ReusedImportNeverStaleIff | internal/service/operational/import_service.go:440-617 | an import into a reused version leaves no stale valid exactly when the types it creates ask nothing of the instances of a valid catalog of that version |
| ImportReuse.ReusedImportGoesStale | internal/service/operational/import_service.go:440-617 | a file that fits and leaves a valid catalog stale |
| CatalogTransfer.CarriedIsPortable | internal/service/operational/import_service.go:743-904 | a schema carried over makes a catalog portable whose values survive and whose link names carry |
| CatalogTransfer.ImportedIsCarried | internal/service/operational/import_service.go:374-671 | what the schema phase does with an exported schema carries every pinned version over |
| CatalogTransfer.NewPinsResolve | internal/service/operational/import_service.go:483-618 | a new catalog version pins exactly what the schema phase hands over |
| CatalogTransfer.NewcomersFitIff | internal/service/operational/import_service.go:586-650 | where none of its types exists, an exported schema fits exactly when its type definitions are known and its associations end at pinned types |
| CatalogTransfer.ImportAll | internal/service/operational/import_service.go:324-860 | refused at once, or schema and data, or schema alone when the data fails |
| CatalogTransfer.Transfer | internal/service/operational/import_service.go:324-860 | a catalog exported from one store and imported into another is, read through its own pins there, the same up to ids, and every stored value has an attribute of its name and base type with a row that says the same |
| CatalogCopy.CopyCatalog | internal/service/operational/catalog_service.go:412-549 | the copy of a catalog: every record of the source with its type, name and description, version 1 and the image of its parent, its current values and the links inside, all found at the images of their ids, and nothing else; refused exactly when a name or a scope is taken |
| CopyIsomorphism.CopyIsIsomorphic | internal/service/operational/catalog_service.go:448-536 | the id maps are bijections that commute with parents and links and keep current values |
| CopyIsomorphism.CopyConforms | internal/service/operational/catalog_service.go:448-536 | the copy of a conforming catalog conforms, and the other way round for a source closed under parents |
| CopyIsomorphism.ClosedNeverClashes | internal/service/operational/catalog_service.go:448-500 | a source closed under parents always copies |
| CopyIsomorphism.CopyElsewhere | internal/service/operational/catalog_service.go:448-536 | every other catalog, the source included, sees what it saw |
| Isomorphism.IsomorphicConform | internal/service/operational/validation_service.go:97-536 | conformance does not depend on ids |
| AttributeMapping.BuildAttributeMapping | internal/service/meta/catalog_version_service.go:652-743 | pairs exactly the matches by name or by ordinal rename; report and warnings follow the pairing |
| AttributeMapping.MatchingIsOneToOne | internal/service/meta/catalog_version_service.go:652-743 | a match pairs each side at most once, repeated ordinals included |
| AttributeMapping.MappingIsInjective | internal/service/meta/catalog_version_service.go:652-743 | the id map is injective |
| AttributeMapping.ReportIsPartition | internal/service/meta/catalog_version_service.go:652-743 | each old attribute is remapped or orphaned once, each new one remapped or added once, and deleted warnings are the orphans |
| Migration.RemapAttributeIds | internal/infrastructure/gorm/repository/instance_attribute_value_repo.go:62-79 | the loop applies the pairs in some order and counts what each update touched |
| Migration.InOrderIsAtOnce | internal/infrastructure/gorm/repository/instance_attribute_value_repo.go:62-79 | any order is one simultaneous substitution, or fails exactly when a row is in the way |
| Migration.SubstitutionMovesEachRow | internal/infrastructure/gorm/repository/instance_attribute_value_repo.go:62-79 | every row is found under its new key and there are no others |
| Migration.TotalIsAffected | internal/infrastructure/gorm/repository/instance_attribute_value_repo.go:62-79 | the running total counts each affected row once |
| Migration.MeaningIsKept | internal/service/operational/instance_service.go:146-178 | a migrated attribute shows what it showed before, at every version, exactly when its old and new base types read the row alike |
| Migration.RestIsKept | internal/service/operational/instance_service.go:146-178 | other instances show what they showed, an attribute nothing was moved to what was left under its id, a mapped id nothing |
| Migration.TypeChangeLosesMeaning | internal/service/operational/instance_service.go:146-178 | a text moved under a number shows nothing |
| Migration.MigratingBack | internal/infrastructure/gorm/repository/instance_attribute_value_repo.go:62-79 | the way back restores the table exactly when nothing had been left under a new id |
| Migration.OverlapDependsOnOrder | internal/infrastructure/gorm/repository/instance_attribute_value_repo.go:62-79 | with an id on both sides two orders give two results |
| PinUpdates.CollectAffectedInstances | internal/service/meta/catalog_version_service.go:747-774 | the instances of the type in the catalogs of the version, refused above the limit |
| PinUpdates.CheckPin | internal/service/meta/catalog_version_service.go:551-579 | the pin may be moved exactly when the edit is allowed and both versions are of one type |
| PinUpdates.PlanIsBetweenVersions | internal/service/meta/catalog_version_service.go:619-650 | the planned map is injective and runs between two versions |
| PinUpdates.TypeChangeIsWarned | internal/service/meta/catalog_version_service.go:681-710 | a mapped attribute is warned about exactly when its type definition changed |
| PinUpdates.GapsAreWarned | internal/service/meta/catalog_version_service.go:681-740 | a required attribute nothing is mapped to, and an attribute that is not mapped, are warned about, and nothing else is by those warnings |
| PinUpdates.UpdatePin | internal/service/meta/catalog_version_service.go:551-617 | accepted exactly by whom stage and role allow and between versions of one type: the pin moves, the values are substituted, every mapped attribute shows what it showed exactly when its types read alike, and dependent catalogs are drafts; dry runs and refused ones change nothing |
| CatalogVersionCalls.CreateCatalogVersion | internal/service/meta/catalog_version_service.go:97-131 | the version in development, its first log entry and its pins, up to the first that fails |
| CatalogVersionCalls.Promote | internal/service/meta/catalog_version_service.go:174-257 | development to testing by anyone who may write, testing to production by administrators, with its log entry; refused otherwise |
| CatalogVersionCalls.Demote | internal/service/meta/catalog_version_service.go:305-378 | to an earlier stage: from testing by anyone who may write, from production by super administrators, with its log entry; refused otherwise |
| CatalogVersionCalls.AddPin | internal/service/meta/catalog_version_service.go:489-544 | exactly by whom stage and role allow and for a type not pinned yet: one pin more, then dependent catalogs are drafts |
| CatalogVersionCalls.RemovePin | internal/service/meta/catalog_version_service.go:786-810 | exactly by whom stage and role allow: the pin is gone, then dependent catalogs are drafts |
| CatalogVersionCalls.ResetDependentCatalogs | internal/service/meta/catalog_version_service.go:813-830 | exactly the catalogs of the version become drafts |
| CatalogVersions.StepTracksLog | internal/service/meta/catalog_version_service.go:174-212 | a version's log stays a connected path from development to its stage |
| CatalogVersions.StepKeepsPins | internal/service/meta/catalog_version_service.go:489-616 | at most one pin per entity type |
| CatalogVersions.ProductionIsFrozen | internal/service/meta/catalog_version_service.go:475-485 | over any run the pins of a version that stays in production are the same |
| CatalogVersions.VersionRunKeeps | internal/service/meta/catalog_version_service.go:97-131 | log and pin invariants over every run |
| CatalogVersions.VersionStepNeverStale | internal/service/meta/catalog_version_service.go:813-830 | no version or pin step leaves a stale valid |
| CatalogCalls.CreateCatalog | internal/service/operational/catalog_service.go:82-112 | a draft under a free DNS label |
| CatalogCalls.Delete | internal/service/operational/catalog_service.go:165-208 | resource first; then the catalog, its records, exactly the rows of those and exactly the links that touch them are gone, or nothing is |
| CatalogCalls.Publish | internal/service/operational/catalog_service.go:246-289 | only valid catalogs; a failed resource leaves the catalog unpublished |
| CatalogCalls.Unpublish | internal/service/operational/catalog_service.go:291-312 | the flag goes before the resource; without the cluster the mirror is kept exactly when the catalog was not published |
| CatalogCalls.SyncCr | internal/service/operational/catalog_service.go:221-244 | rewrites the resource of a published catalog only |
| CatalogCalls.UpdateMetadata | internal/service/operational/catalog_service.go:315-409 | which edits are accepted, what each leaves, that only name and version reset the status, and that a failure keeps exactly the renames it does |
| CatalogCalls.FailureChangesIff | internal/service/operational/catalog_service.go:315-409 | a failed edit changes the store exactly when it keeps a rename |
| CatalogCalls.FailureKeepsRename | internal/service/operational/catalog_service.go:350-383 | a concrete failing edit that keeps its rename |
| CatalogCalls.SwapRecords | internal/service/operational/catalog_service.go:584-622 | both renames and the transfer of the publication, or nothing, with names unique |
| CatalogCalls.ReplaceCatalog | internal/service/operational/catalog_service.go:552-647 | a valid source takes the target's name and publication, the target is kept under the archive name; without the cluster the mirror is kept exactly when neither is published |
| Catalogs.StepKeepsNames | internal/service/operational/catalog_service.go:552-647 | names stay unique |
| Catalogs.StepKeepsMirror | internal/service/operational/catalog_service.go:246-312 | the resources are exactly the published catalogs, by name and source id |
| Catalogs.UnansweredMirrorsIff | internal/service/operational/catalog_service.go:291-312 | a step the cluster does not answer keeps the mirror exactly when it touches no published catalog |
| Catalogs.MirrorIsLost | internal/service/operational/catalog_service.go:291-312 | a concrete step without the cluster that loses it |
| Catalogs.CatalogStepNeverStale | internal/service/operational/catalog_service.go:384-389 | no catalog call leaves a stale valid |
| CopyOnWrite.CopyVersion | internal/service/meta/attribute_service.go:60-90 | the next version with the attributes and associations of the latest |
| CopyOnWrite.CopyAttributes | internal/infrastructure/gorm/repository/attribute_repo.go:110-123 | the copied rows under the new version, the old ones as they were |
| CopyOnWrite.CopyAssociations | internal/infrastructure/gorm/repository/association_repo.go:96-109 | the copied rows under the new version, the old ones as they were |
| AttributeCalls.AddAttribute | internal/service/meta/attribute_service.go:38-114 | exactly when the name is non-empty, unreserved and free of attributes and associations, the type definition known and the type has a version, the next version holds the attributes of the latest and, last, the one asked for; otherwise nothing changes |
| AttributeCalls.RemoveAttribute | internal/service/meta/attribute_service.go:117-154 | the next version holds one attribute less, or is left as a copy when there is none of the name |
| AttributeCalls.EditAttribute | internal/service/meta/attribute_service.go:253-346 | exactly when the attribute is there, its new name unreserved and free, and its new type definition known or empty, the next version holds every attribute as it was but this one, which has the name, description, type and required mark asked for, or its own; otherwise nothing changes |
| AttributeCalls.ReorderAttributes | internal/service/meta/attribute_service.go:358-364 | only ordinals of the latest version change |
| AttributeCalls.CopyAttributesFromType | internal/service/meta/attribute_service.go:157-249 | the next version holds the attributes asked for, or those before the first repeated name |
| AttributeCalls.CopiedNamesApart | internal/service/meta/attribute_service.go:191-246 | names stay apart exactly when no association has a copied name |
| AttributeCalls.CopiedNameCollides | internal/service/meta/attribute_service.go:191-246 | a concrete copy after which an attribute and an association share a name |
| AssociationCalls.GetContainmentGraph | internal/infrastructure/gorm/repository/association_repo.go:111-135 | the edges of all versions |
| AssociationCalls.CreateAssociation | internal/service/meta/association_service.go:35-103 | the next version holds the associations of the latest and the one asked for, its cardinalities as given or the defaults; a containment only when the check accepts it |
| AssociationCalls.EditAssociation | internal/service/meta/association_service.go:107-218 | the next version holds the associations of the latest but for the edited one, whose fields are those asked for or its own; a safe schema step when a containment passes the check that the call leaves out |
| AssociationCalls.DeleteAssociation | internal/service/meta/association_service.go:247-286 | the next version holds one association less, or is left as a copy when there is none of the name |
| AssociationCalls.EditKeepsAcyclic | internal/service/meta/association_service.go:201-203 | an edit keeps the graph acyclic exactly when a link turned into a containment would pass the check |
| AssociationCalls.TypeChangeClosesACycle | internal/service/meta/association_service.go:201-203 | an accepted edit after which the graph has a cycle |
| SchemaHistory.NextKeepsAcyclic | internal/service/meta/association_service.go:50-101 | a version with one more containment keeps the all-versions graph acyclic exactly when the check accepts it |
| SchemaHistory.SchemaRunKeeps | internal/service/meta/attribute_service.go:54-113 | over any run numbers are 1 to n, names of types and parts apart, the graph acyclic, and a version once not latest never changes |
| SchemaHistory.EveryTypeUnderARoot | internal/service/meta/entity_type_service.go:372-406 | every entity type lies under a root of the graph |
| TypeCalls.CreateEntityType | internal/service/meta/entity_type_service.go:72-109 | a new type with an empty version 1, under a free name |
| TypeCalls.CopyEntityType | internal/service/meta/entity_type_service.go:280-321 | a new type whose version 1 has the attributes of one version and no associations |
| TypeCalls.UpdateEntityType | internal/service/meta/entity_type_service.go:121-157 | a next version with the same attributes and associations |
| TypeCalls.GetContainmentTree | internal/service/meta/entity_type_service.go:335-407 | the roots and children are those of the graph; every node lists its type's versions by number, with the highest |
| TypeCalls.NodeListsAll | internal/service/meta/entity_type_service.go:352-370 | the list holds version k at place k, and the highest number is how many there are |
| TypeCalls.TreeReachesEveryType | internal/service/meta/entity_type_service.go:372-406 | the tree built from the roots ends and reaches every type |

## Left out

- The part of an import that finds or creates type definitions (its result is the table of their names), the pins of type definitions, renames in a file, and the dry run.
- DeleteEntityType, RenameEntityType, DeleteCatalogVersion, UpdateCatalogVersion: rows are removed or labels edited; pinned versions are assumed to exist.
- Entity filters: exports that leave out types.
- CatalogVersion resources, Kubernetes clients and reconciliation; Catalog resources are a map, and whether the cluster answers is a parameter.
- HTTP, roles read from headers, the UI, configuration, SQL text, paging of lists other than the children of a deleted instance (the tree of entity types lists the first 10000).
- Regular expressions, URLs, dates, number formats and JSON text are parameters; lengths count characters where the source counts bytes; keys of JSON objects are compared exactly.
- Order of lists: exported attributes, associations, links and children, and entity types, are not sorted by name in the model; containment trees are.
- Interleaving inside one call, timestamps, the text of ids and of error messages, and the numbers in migration warnings.
- Validation.Validate: asks for one pin per entity type, which the pin calls keep (CatalogVersions.StepKeepsPins); with two the source lets the last one listed win.
- SystemRun.RunKeeps: imports that close a cycle or mix names, and those into a version to be reused, are not moves of a run; ImportKeepsIff and ReusedImportNeverStaleIff say when they do no harm.
- CatalogCalls.Unpublish: the failure that leaves a resource without a published catalog is in the contract and is not a step of a run; the same holds for creates that fail after their row is written.
- Containment.CascadeDelete: asks that the instance is off every parent cycle; on a cycle the source recurses without end (Containment.DeleteEndsIff), and in a catalog marked valid there is none (SystemRun.MarkedValidMayBeDeleted).
- ImportLinks.CreateNodeLinks: a key that was never created reads as id 0, where the source has the empty string; it cannot happen after every tree has been created.
