# Service Center registry, verified in Dafny

This project models the part of Apache ServiceComb Service Center in which several keyed records describe one
thing and have to stay in agreement, together with a few of its self-contained algorithms.

* `Etcd.dfy` is the key-value backend: typed keys, leases, and transactions that compare, then apply one of two
  operation lists as a whole. `Paths.dfy` ties the typed keys to the strings they are stored under.
* `Services.dfy`, `Instances.dfy`, `SchemaStore.dfy` and `SchemaDiff.dfy` are the operations on that backend: registering
  and unregistering services and instances, the content-addressed schema store, and the legacy schema interface.
  Each operation is a method that builds the operation list of the source and is proved against a function from
  the store before to the store after; lemmas beside it state its answer and what it stores in terms of the keys
  that were stored.
* `Runs.dfy` puts these functions together into one state machine. A step commits on the current state but may have
  made each of its reads on any earlier state of the run, so the runs are the interleavings of any number of
  clients. The collector, the legacy interface and the unregistration read twice, on two states in either order.
  An atomic run is one in which every step reads the state it commits on. `InstanceRuns.dfy`, `IndexRuns.dfy` and
  `SchemaRuns.dfy` give, for each invariant, the exact condition on the steps under which it holds along a run;
  `Races.dfy` builds the runs in which it fails, and `Frames.dfy` states what a step leaves alone.
* `Dependencies.dfy` holds the dependency rules of the Mongo backend, `Rbac.dfy` accounts and roles, `Retire.dfy`
  the retirement of old versions, `Versions.dfy` the numbers versions are compared by.
* `Connections.dfy` and `RoundRobin.dfy` are thread machines with program counters; `UrlPattern.dfy`, `FilterTree.dfy` and
  `Chain.dfy` are the URL matcher, the cache tree and the handler chain. `Routes.dfy` joins the URL matcher to the schema store.

Where a property does not hold of the code, a lemma shows how it fails and another gives the exact condition:

* The index of services survives old reads only while an id keeps its index fields. Property updates and removals
  check that the service exists, not that it is still the one they read; schema writes do not check at all, so they
  can bring a removed service back (`IndexRuns.IndexInEveryRun`, `Races.OldPropertiesBreakIndex`,
  `Races.OldSchemaWriteRevivesService`).
* An instance update re-attaches the instance to the lease it read. With a registration in between, instance and
  lease key are bound to different leases (`InstanceRuns.InstancesInEveryRun`, `Races.OldInstanceUpdateBreaksLease`).
* Two puts that read one record leave the first schema unlisted, and its reference outlives the next replacement of
  all schemas (`SchemaRuns.ListingInEveryRun`, `Races.TwoPutsUnlist`, `Races.TwoPutsLeaveOrphan`).
* A deletion of contents is safe only while nothing refers to what it drops when it commits (`SchemaStore.CollectExact`,
  `SchemaStore.DeleteContentExact`, `Races.OldCollectorLosesContent`, `Races.OldDeletionLosesContent`). The collector
  lists contents on the backend and references in a cache, so its references can be the older ones; then it can drop
  what no single state has as garbage (`Races.SplitCollectorLosesContent`).
* The rule for a service id that a client chooses, `server/service/validator/microservice_validator.go:49`, admits slashes.
  A prefix search then finds keys of other services (`Paths.PrefixExact`), so unregistering takes their instances
  (`Services.RemovalSparesExact`, `Races.RemovalTakesNestedInstances`); a registration that brings its instances along is
  enough for this. Two more effects need a caller below the router, because a route captures no slash
  (`UrlPattern.CapturedIsFree`) and every schema write of the server takes its service id from the path
  (`Routes.RequestsAreReadable`): reading a key back shifts the tenant (`Paths.InfoExact`), so the collector drops
  contents that are referred to (`SchemaStore.CollectAloneExact`, `Races.SlashLosesContent`), and the legacy interface,
  which nothing calls in the etcd backend, asks the schema quota for too little (`SchemaDiff.GrowthExact`).
* The wait of `Serve` ends when the connection counter is zero, not when the connections are closed: the drain takes
  counts off before anything is closed, and a connection closed twice takes off the count of another
  (`Connections.WaitEndsExact`, `Connections.DrainEndsWait`, `Connections.RepeatedCloseEndsWait`).
* Two updates of one consumer's dependency rules that read the same old rules tear the two directions apart
  (`Dependencies.SyncTwoWayExact`, `Dependencies.TwoOverridesDisagree`).
* An account with the single role of the old format is indexed by its new list and read by its old role
  (`Rbac.CreateExact`, `Rbac.UpdateExact`). The account service clears the field; accounts stored by an older release
  keep it (`Rbac.OldFormatRoleCanBeDeleted`), and the replicator, `syncer/service/replicator/resource/account.go`, passes
  accounts on as they come.
* A pattern with two adjacent parameters gives the text of both to the first (`UrlPattern.CompleteOnlyIfSeparated`).
* The comment of `Next` in `pkg/chain/invocation.go` promises that asynchronous callbacks come last; without a
  callback of `Invoke` this holds only for lists whose first registration is synchronous or the only one
  (`Chain.InvokeWithoutCallbackExact`).
* `IsLittleEndian` in `pkg/util/sys.go` answers for the opposite byte order. Its only user packs accordingly, so the
  result is right on both kinds of machine (`Versions.Int16ToInt64`).

Where a method of `Retire`, `Dependencies` or `Connections` requires a consistent store, the requirement is the invariant that
the run theorems are about. Where strings are compared, a tenant is a domain and a project, and all key fields other than
service ids are free of slashes, as the validators of the source make them.

## Model

| member | source | states |
|---|---|---|
| `InstanceRuns.InstancesInEveryRun` | datasource/etcd/ms.go:391-418 | in every interleaving of all operations, with reads of any age, every instance has a live service and a lease key bound to the same live lease, and no lease key is without its instance, if and only if every instance update that commits finds the lease number it read still stored |
| `InstanceRuns.CurrentUpdatesKeepInstances` | datasource/etcd/util/instance_util.go:173-200 | a run whose instance updates read the state they commit on is consistent, however old all other reads are |
| `InstanceRuns.StepInstancesExact` | datasource/etcd/ms.go:398-418 | the same if-and-only-if for one step of any kind |
| `InstanceRuns.ExclusiveInEveryRun` | datasource/etcd/ms.go:391-405 | when every registration is granted a lease of its own, no two instances ever share a lease, in any interleaving and with reads of any age |
| `InstanceRuns.TracedInEveryRun` | datasource/etcd/util/instance_util.go:173-200 | an instance is only ever attached to leases of its own registrations, old updates included |
| `IndexRuns.IndexInEveryRun` | datasource/etcd/ms.go:96-157 | in every interleaving of all thirteen kinds of step, records, index entries and alias entries agree in both directions if and only if every step that writes back or removes a record finds the one it read still there |
| `IndexRuns.IndexInEveryAtomicRun` | datasource/etcd/ms.go:96-157 | in every atomic run of all thirteen kinds of step they agree |
| `IndexRuns.IndexInEveryFaithfulRun` | datasource/etcd/ms.go:311-333 | when an id always stands for the same index fields, they agree in every interleaving if and only if no schema write that writes its record back commits after the removal of its service |
| `SchemaRuns.SchemasRefineInEveryRun` | datasource/etcd/schema.go:211-487 | in every interleaving without the legacy interface, the two listings of the collector taken at any two moments, the store is a plain map from references to contents and summaries, and every reference resolves, if and only if every replacement of all schemas finds no reference that neither its request nor the record it read names, and no deletion of contents drops one that is referred to when it commits |
| `SchemaRuns.SchemasRefineInEveryAtomicRun` | datasource/etcd/schema.go:211-487 | over every atomic run whose references are read back under their own tenant: looking up a reference and then its hash gives the last content put, both collectors are invisible, and every reference resolves and is listed by its service |
| `SchemaRuns.StepRefinesExact` | datasource/etcd/schema.go:211-487 | the if-and-only-if for one step |
| `SchemaRuns.ListingInEveryRun` | datasource/etcd/schema.go:245-262 | in every interleaving of all thirteen kinds of step every reference is listed by its service if and only if every record that is written back lists the references there are when it is written |
| `SchemaRuns.OrphanIsVisible` | datasource/etcd/schema.go:362-381 | a reference that neither the record read nor the request names outlives the replacement of all schemas |
| `SchemaRuns.PlainIsReadable` | datasource/etcd/path/key_convertor.go:105-107 | a service id free of slashes is enough for a reference to be read back under its own tenant |
| `Frames.StepTouches` | datasource/etcd/ms.go:1489-1552 | whatever it has read, each of the thirteen kinds of step changes only the keys named for it, and only grants and losses change the set of leases |
| `Frames.TenantsAreIsolated` | datasource/etcd/path/key_generator.go:78-339 | in every interleaving, with reads of any age, the keys of a tenant are the same before and after any stretch of requests of other tenants |
| `IndexRuns.StepIndexExact` | datasource/etcd/ms.go:1489-1552 | the if-and-only-if for one step of any kind |
| `IndexRuns.SchemaWriteExact` | datasource/etcd/schema.go:245-272 | putting a schema that is new to the record that was read keeps the index intact if and only if that record is still there: the transaction does not check the service |
| `IndexRuns.SchemaReplaceExact` | datasource/etcd/schema.go:303-321 | the same if-and-only-if for replacing all schemas, whose transaction checks nothing |
| `IndexRuns.PropertiesExact` | datasource/etcd/ms.go:311-333 | a property update keeps the index intact if and only if the service is gone or the record read is still the stored one |
| `IndexRuns.ModifyExact` | datasource/etcd/ms.go:1316-1369 | the same for the legacy replacement of schemas, whose record and listing may come from different states |
| `Races.OldPropertiesBreakIndex` | datasource/etcd/ms.go:311-333 | for any two records with one id and different index fields there is a run in which an old property update leaves an index entry without its record |
| `Races.OldSchemaWriteRevivesService` | datasource/etcd/schema.go:245-272 | for any record there is a run in which a schema write commits after the removal of its service and brings the record back without an index |
| `Races.OldInstanceUpdateBreaksLease` | datasource/etcd/util/instance_util.go:173-200 | there is a run in which an instance update with an old lease number tears instance key and lease key apart |
| `Races.TwoPutsUnlist` | datasource/etcd/schema.go:245-272 | there is a run in which two puts of new schemas read the same record, and the reference of the first is not listed afterwards |
| `Races.TwoPutsLeaveOrphan` | datasource/etcd/schema.go:303-381 | any replacement of all schemas that follows on the current state and does not name that schema leaves its reference behind |
| `Races.OldCollectorLosesContent` | datasource/etcd/schema.go:436-466 | there is a run in which the collector made its listings before a put and drops the content the put refers to |
| `Races.SplitCollectorLosesContent` | datasource/etcd/schema.go:438-485 | there is a run in which it lists contents after a put and references from before it and drops the content, although no state of the run has anything to collect |
| `Races.OldDeletionLosesContent` | datasource/etcd/schema.go:384-419 | there is a run in which the deletion of one content does the same |
| `Races.SlashLosesContent` | datasource/etcd/schema.go:468-487 | for any service id with one slash there is an atomic run in which the collector drops a content that is referred to, because the reference is read back under another tenant |
| `Races.RemovalTakesNestedInstances` | datasource/etcd/ms.go:1536-1552 | there is an atomic run in which unregistering a service takes the instance of another one whose id continues its id behind a slash |
| `Services.RegisterService` | datasource/etcd/ms.go:80-157 | the answer and the whole new store: the two or three keys that did not exist, or no change; a conflict answers with the id that holds the index or alias key, an error, or a conflict |
| `Services.RegisteredIsLive` | datasource/etcd/ms.go:96-157 | every id answered without error is a live, indexed record; it owns the requested index key unless that key was free and the requested alias belongs to another service; agreement is kept |
| `Services.RepeatedRegistration` | datasource/etcd/ms.go:136-157 | a registration whose index key, or else alias key, is taken changes nothing; without an id, or with the id of the owner, it answers the owner, and with any other id that the service already exists |
| `Services.FreshRegistration` | datasource/etcd/ms.go:96-135 | a registration whose index and alias keys are free answers its given or generated id, stores the request under it and both keys, and changes no other key; an id in use is refused without change |
| `Services.RefusedRegistrationExact` | datasource/etcd/ms.go:136-152 | in a store whose index is intact these are all cases; a registration is refused as existing if and only if it gives an id that is not the owner's, or gives an id in use while no key is owned |
| `Services.PutServiceProperties` | datasource/etcd/ms.go:294-346 | replaces the properties of an existing record and nothing else |
| `Services.PropertiesStored` | datasource/etcd/ms.go:311-341 | an update of a service that was read and still exists stores the new properties in the record that was read, every other field as read, and changes no other key; any other update changes nothing |
| `Services.RewriteExact` | datasource/etcd/ms.go:311-333 | writing a record under a service key keeps the index intact if and only if it replaces a record with the same index fields |
| `Services.UnregisterService` | datasource/etcd/ms.go:1439-1561 | refuses in the order of the checks without any change; otherwise revokes the leases of the service and then removes everything that belongs to it |
| `Services.RefusalExact` | datasource/etcd/ms.go:1439-1487 | each refusal if and only if its own check fails and those before it pass, the instances being what the prefix of the id finds |
| `Services.UnregisterServiceExact` | datasource/etcd/ms.go:1459-1561 | a stored service is removed if and only if it is not the service center and the call is forced, or nothing depends on it and its prefix finds no instance; a refused call changes nothing |
| `Services.UnforcedSparesInstances` | datasource/etcd/ms.go:1471-1486 | whatever the service was read from, an unregistration that is not forced takes no instance that was there when the instances were counted |
| `Services.RemovalExact` | datasource/etcd/ms.go:1489-1542 | on the current record nothing of the service is left: no record, no tag, no index or alias entry that names it and nothing that its prefix finds; a request without providers is queued for it as a consumer, and every other key stays |
| `Services.CommitUnregister` | datasource/etcd/ms.go:1489-1561 | the transaction removes the service exactly when it still exists |
| `Services.UnregisterOpsRemove` | datasource/etcd/ms.go:1498-1542 | the ten operations of the transaction remove the registration of the service, its tags and what the prefix of its id finds, nothing else, and queue its dependency removal |
| `Services.RemovalSparesExact` | datasource/etcd/ms.go:1522-1542 | no attached key of another service goes if and only if no stored one belongs to an id that continues this id behind a slash |
| `Services.RemoveExact` | datasource/etcd/ms.go:1490-1552 | removing a service on the word of a record read earlier keeps the index intact if and only if that record still names the index and alias keys of the stored one |
| `Services.RevokeAll` | datasource/etcd/util/instance_util.go:146-152 | revoking one lease after the other drops exactly the keys attached to live leases of the set |
| `Instances.RegisterInstance` | datasource/etcd/ms.go:359-423 | a heartbeat instead of a registration when the given instance still has a live lease; otherwise a new lease and both keys under it, if the service exists. In a consistent store registering a stored instance again changes nothing |
| `Instances.HeartbeatExact` | datasource/etcd/util/heartbeat_util.go:30-51 | in a consistent store a heartbeat succeeds if and only if the instance is stored |
| `Instances.RegisterInstanceStores` | datasource/etcd/ms.go:391-418 | under a live lease and for an existing service, the data and the number of the lease are stored, both attached to that lease, and no other key changes; otherwise nothing does |
| `Instances.RegisterInstanceKeeps` | datasource/etcd/ms.go:398-408 | a registration keeps instances, leases and services in agreement, also over an instance that is already there |
| `Instances.DropLeaseKeeps` | datasource/etcd/ms.go:401-406 | a lost lease takes both keys of an instance or neither |
| `Instances.UnregisterInstance` | datasource/etcd/util.go:182-199 | revokes the lease the instance is registered with, or fails without change for an unknown instance or lease |
| `Instances.UnregisterInstanceExact` | datasource/etcd/util.go:182-199 | in a consistent store it succeeds for exactly the stored instances, leaves a consistent store, and removes the two keys of that instance alone if and only if no other shares its lease |
| `Instances.RemovedKeepsInstances` | datasource/etcd/ms.go:1536-1552 | removing a service leaves no instance or lease of it behind and keeps all remaining ones bound |
| `Instances.RevokeBeforeRemove` | datasource/etcd/ms.go:1545-1552 | revoking the leases before the removal changes nothing that the removal would keep |
| `Instances.RemovalRevokesExact` | datasource/etcd/util/instance_util.go:132-152 | the revocations before the removal end the lease of an instance if and only if the prefix of the service finds that instance |
| `Instances.UpdateInstanceExact` | datasource/etcd/util/instance_util.go:173-200 | an update keeps instance and lease bound if and only if it does not commit or the lease number it read is still the stored one |
| `Instances.UpdateInstance` | datasource/etcd/util/instance_util.go:173-202 | the whole new store and the answer: an update commits when a lease number is stored, the service exists and that lease is alive |
| `Instances.UpdateInstanceStores` | datasource/etcd/util/instance_util.go:182-193 | an update that commits stores the new data attached to the lease that was read and changes no other key; any other one changes nothing |
| `Instances.UpdatesExact` | datasource/etcd/util/instance_util.go:173-202 | in a consistent store an update on current reads commits if and only if the instance is stored |
| `Etcd.Backend.TxnWithCmp` | datasource/etcd/ms.go:121-128 | one transaction: the branch the comparisons choose is applied in order as a whole, or not at all when a put names a dead lease |
| `Etcd.Backend.LeaseRevoke` | datasource/etcd/util.go:191-197 | a revoked lease takes every key attached to it; an unknown lease is an error and changes nothing |
| `Etcd.ApplyDeletions` | datasource/etcd/ms.go:1498-1542 | a list of deletions removes exactly the keys that one of them hits |
| `SchemaStore.PutContent` | datasource/etcd/schema.go:211-283 | reference, summary, the extended schema list when the id is new, and the content only when its hash is free |
| `SchemaStore.PutContentRefines` | datasource/etcd/schema.go:225-272 | a put is a put on the plain map and keeps every reference resolved, however old the record it read is |
| `SchemaStore.PutContentStores` | datasource/etcd/schema.go:225-272 | a put stores reference and summary, the content only when its hash is free, and for an id that is new to the record read that record with the id behind its list and all other fields as read; no other key changes |
| `SchemaStore.PutContentListsExact` | datasource/etcd/schema.go:245-272 | a put keeps every reference listed if and only if the id is still listed when the record read lists it, and otherwise the record written back lists every reference of its service |
| `SchemaStore.PropertiesListExact` | datasource/etcd/ms.go:311-333 | a property update keeps every reference listed if and only if the record it writes back lists every reference of its service |
| `SchemaStore.PutManyListsExact` | datasource/etcd/schema.go:303-381 | replacing all schemas keeps every reference listed if and only if every reference of the service is requested or listed by the record read |
| `SchemaStore.PutThenLookupExact` | datasource/etcd/schema.go:263-272 | without any assumption on hashes, a put is read back if and only if its hash was free or already stood for the same content |
| `SchemaStore.DeleteRef` | datasource/etcd/schema.go:151-185 | removes reference and summary in both branches, and answers whether there was a reference |
| `SchemaStore.DeleteRefRefines` | datasource/etcd/schema.go:157-175 | removes one entry of the plain map |
| `SchemaStore.PutManyContent` | datasource/etcd/schema.go:285-322 | refuses unequal lists; otherwise the whole new store |
| `SchemaStore.TransformSchemaIDsAndOptions` | datasource/etcd/schema.go:324-382 | the operation list puts every requested schema and deletes the listed ones that were not requested |
| `SchemaStore.PutManyRefines` | datasource/etcd/schema.go:303-381 | under that condition the part of the plain map that belongs to the service is replaced by the requested schemas, references remain for exactly the requested ids, and no other service changes |
| `SchemaStore.PutManyListStored` | datasource/etcd/schema.go:303-313 | under that condition the service lists exactly the schemas it has references for, in the order of the request, and all other fields are those of the record read |
| `SchemaStore.PutManyThenLookup` | datasource/etcd/schema.go:333-341 | without any assumption on hashes, what is looked up under a requested id is its summary with the last requested content of its hash |
| `SchemaStore.DeleteContent` | datasource/etcd/schema.go:384-434 | refuses a referenced hash, and otherwise removes one content |
| `SchemaStore.DeleteContentExact` | datasource/etcd/schema.go:389-408 | deleting a content keeps every reference resolved if and only if it was refused or nothing refers to the content when the deletion commits |
| `SchemaStore.DeleteContentInvisible` | datasource/etcd/schema.go:389-408 | under that condition it changes nothing in the plain map |
| `SchemaStore.FilterNoRefContentHashes` | datasource/etcd/schema.go:468-487 | computes exactly the contents of one listing, over all tenants, that no reference of another listing names by the tenant read from its key |
| `SchemaStore.DeleteNoRefContents` | datasource/etcd/schema.go:436-466 | removes exactly those contents and answers their number |
| `SchemaStore.CollectInvisible` | datasource/etcd/schema.go:447-460 | removing any set of unreferenced contents changes nothing in the plain map |
| `SchemaStore.CollectExact` | datasource/etcd/schema.go:438-460 | with contents and references listed at different times, in either order, the collector keeps every reference resolved if and only if none of the contents it drops is referred to when it commits |
| `SchemaStore.CollectAloneExact` | datasource/etcd/schema.go:468-487 | on the current state it does so if and only if every content referred to is also named by a reference whose key is read back under the tenant of that content |
| `SchemaStore.CollectedExact` | datasource/etcd/schema.go:436-487 | with references that are read back under their own tenant, a listed content stays if and only if a listed reference of its tenant names it, and nothing else goes |
| `SchemaStore.RemovedRefines` | datasource/etcd/ms.go:1521-1530 | unregistering a service takes exactly what its prefix finds out of the plain map |
| `SchemaDiff.SchemasAnalysis` | datasource/schema_util.go:29-80 | the four lists: first occurrences already stored, first occurrences not stored, stored documents not requested, and first occurrences the service does not list |
| `SchemaDiff.SchemasToDelete` | datasource/schema_util.go:66-77 | the stored documents whose id is not requested, in order |
| `SchemaDiff.FirstsFacts` | datasource/schema_util.go:36-41 | skipping repeated ids keeps each requested id exactly once and adds none |
| `SchemaDiff.FilterFacts` | datasource/schema_util.go:43-53 | updates and additions split the documents: every document is in one of them, by its id alone |
| `SchemaDiff.ListsGrow` | datasource/schema_util.go:36-77 | the lists keep the order of the documents: a longer request only adds behind what a shorter one gives |
| `SchemaDiff.ListSchemas` | datasource/etcd/util.go:55-77 | one document, with its id and stored text, for each schema key that the prefix of the service finds |
| `SchemaDiff.AppendPuts` | datasource/etcd/util.go:91-112 | two puts per document, in order |
| `SchemaDiff.AppendDeletions` | datasource/etcd/util.go:114-135 | two deletions per document |
| `SchemaDiff.ModifySchemas` | datasource/etcd/ms.go:1312-1378 | the whole new store: added and updated documents, the deleted ones gone, the new schema list; or no change without service or quota |
| `SchemaDiff.ModifyStoresRequest` | datasource/etcd/ms.go:1323-1364 | afterwards the stored ids are exactly the distinct requested ids with the contents of their first occurrences, the service lists each once, and no key of another service has changed |
| `SchemaDiff.ModifyRecordStored` | datasource/etcd/ms.go:1316-1369 | however old its reads are, a granted request writes each requested id once and all other fields of the record as read; a request that is not granted, or whose service is missing, changes nothing |
| `SchemaDiff.ModifySummaries` | datasource/etcd/util.go:91-135 | the summaries afterwards are those of the requested ids and of ids that were not listed |
| `SchemaDiff.GrowthExact` | datasource/etcd/ms.go:1327-1334 | the growth the quota is asked for is never more than the growth of the stored schemas, and equals it if and only if every listed schema of a service whose id continues this one behind a slash has an id that is requested and stored here too |
| `SchemaDiff.QuotaExact` | datasource/etcd/ms.go:1327-1334 | where no key of another service is listed, a request is refused if and only if the quota grants no growth and the service would store more schemas than before |
| `Paths.SplitRender` | datasource/etcd/path/key_generator.go:78-339 | splitting a stored key at the slashes gives back its segments, for all fourteen key families and service ids of any form |
| `Paths.RenderInjective` | datasource/etcd/path/key_generator.go:78-339 | different keys are stored under different strings, across all families and for service ids of any form |
| `Paths.SameStringExact` | datasource/etcd/path/key_generator.go:207-288 | without any condition on fields, two keys of one family and tenant share a string if and only if their joined fields are the same text |
| `Paths.PrefixExact` | datasource/etcd/ms.go:1522-1542 | a string prefix finds a key if and only if it belongs to that family and tenant and its service id is the given one or continues it behind a slash |
| `Paths.InfoExact` | datasource/etcd/path/key_convertor.go:33-119 | reading a stored key back gives the tenant and the fields it was made of if and only if its service id is free of slashes |
| `Paths.SlashShiftsTenant` | datasource/etcd/path/key_convertor.go:42-49 | a reference of a service id with one slash is read back under a tenant made of the project and the first half of the id |
| `Dependencies.StringComparisonExact` | datasource/dependency_util.go:136-159 | comparing key strings is comparing rules, and the version test holds if and only if only the versions differ |
| `Dependencies.ContainServiceDependency` | datasource/dependency_util.go:123-134 | finds a rule if and only if it is a member |
| `Dependencies.IsNeedUpdate` | datasource/dependency_util.go:142-149 | the first rule of the same name with another version |
| `Dependencies.FirstOtherExact` | datasource/dependency_util.go:142-149 | a rule of the same name with another version is the answer when none in front of it is one |
| `Dependencies.ParamsChecker` | datasource/dependency_util.go:41-57 | accepts if and only if every provider has a name and no two agree after the defaults are filled in, and fills them in |
| `Dependencies.CollisionExact` | datasource/dependency_util.go:41-57 | two providers collide if and only if they agree on everything but the version, a missing application standing for the consumer's; a completed provider asks for all versions |
| `Dependencies.CheckedRequestIsOnePerName` | datasource/dependency_util.go:41-57 | an accepted request asks for one version per name, also before its defaults are filled in |
| `Dependencies.Dependency.SetDep` | datasource/dependency_util.go:105-121 | records the create and delete lists |
| `Dependencies.Dependency.ParseAddOrUpdateRules` | datasource/dependency_util.go:63-84 | the new rules, the create list and the delete list of an add-or-update |
| `Dependencies.Dependency.ParseOverrideRules` | datasource/dependency_util.go:86-103 | the new rules, the create list and the delete list of an override |
| `Dependencies.ListsAddUp` | datasource/dependency_util.go:63-121 | the new rules are the old ones minus the deleted plus the created, every deleted rule was stored, and none is also created |
| `Dependencies.UpdateKeepsOnePerName` | datasource/dependency_util.go:63-84 | for a request with one version per name, the result has one version per name if and only if the old rules had; every requested rule is there and every rule with an unrequested name stays |
| `Dependencies.SyncTwoWayExact` | datasource/mongo/dep.go:168-247 | an update of either kind, with old rules read from any state, keeps a provider in a consumer's document if and only if the consumer is in the provider's document, if and only if the rules read still are the consumer's, besides those the update creates or deletes |
| `Dependencies.SyncKeepsTwoWay` | datasource/mongo/dep.go:168-247 | on current rules the directions agree after either kind of update, and no other consumer has changed |
| `Dependencies.OverrideExact` | datasource/mongo/dep.go:168-247 | after an override the consumer has exactly the requested rules, no document when there are none, and is in the lists of exactly the requested providers; these keep every other consumer |
| `Dependencies.AddOrUpdateExact` | datasource/mongo/dep.go:168-247 | after an add-or-update, on rules with one version per name, the consumer has exactly the requested rules and the stored ones whose name was not requested, and is in the lists of exactly these providers |
| `Dependencies.TwoWayInEveryRun` | datasource/mongo/dep.go:168-247 | in every interleaving of updates the directions agree all along if and only if every update fits in that sense |
| `Dependencies.DistinctInEveryRun` | datasource/mongo/dep.go:211-247 | in every interleaving, requests without repeated rules leave no repeated entry in any document of either direction |
| `Dependencies.TwoOverridesDisagree` | datasource/mongo/dep.go:180-247 | two overrides of one consumer that both read no rules leave it in the document of a provider its own document does not name |
| `Dependencies.EveryRunIsTwoWay` | datasource/mongo/dep.go:168-247 | the directions agree after every sequence of updates on current rules, and one version per name is kept along it |
| `Dependencies.DeletedConsumerIsNowhere` | datasource/mongo/ms.go:1648-1658 | an override without providers leaves the consumer in no provider's list anywhere |
| `Dependencies.RuleStore.UpdateDeps` | datasource/mongo/dep.go:211-247 | pulls from the deleted providers, adds to the created ones, and replaces or removes the consumer's document |
| `Dependencies.RuleStore.SyncDependencyRule` | datasource/mongo/dep.go:168-190 | the two documents after an update, as a function of the two before |
| `Dependencies.RuleStore.DeleteDependencyForDeleteService` | datasource/mongo/ms.go:1648-1658 | the deleted service has no document and is in no provider's list, and the directions agree |
| `Rbac.GenAccountOpts` | datasource/etcd/account.go:80-101 | the operations put or delete the account and one index entry per listed role |
| `Rbac.CreateAccount` | datasource/etcd/account.go:50-78 | refuses an existing name; otherwise account and index entries |
| `Rbac.UpdateAccount` | datasource/etcd/account.go:190-231 | refuses an unknown name; otherwise the new account, its index entries, and none for the roles it lost |
| `Rbac.LostOpts` | datasource/etcd/account.go:210-219 | deletes exactly the index entries of roles the account had and no longer has |
| `Rbac.DeleteAccount` | datasource/etcd/account.go:153-188 | removes every readable named account with its index entries; an empty list is refused |
| `Rbac.CreateExact` | datasource/etcd/account.go:50-101 | creating an account keeps the index exact if and only if its role list is the one it is read with |
| `Rbac.UpdateExact` | datasource/etcd/account.go:190-240 | updating an account keeps the index exact if and only if its role list is the one it is read with |
| `Rbac.DeleteKeeps` | datasource/etcd/account.go:153-188 | deleting any list of names, repeated and unknown ones included, removes exactly those accounts and keeps the index exact |
| `Rbac.CreateRole` | datasource/etcd/role.go:49-83 | refuses an existing role; otherwise adds it |
| `Rbac.DeleteRole` | datasource/etcd/role.go:123-144 | refuses a role with an index entry; otherwise removes it |
| `Rbac.BindingIsHolding` | datasource/etcd/role.go:145-152 | where the index is exact, a role is bound if and only if some account holds it |
| `Rbac.IndexExactInEveryRun` | datasource/etcd/account.go:50-240 | all along every run an index entry exists if and only if that account exists and holds that role, if and only if every account that is written has the role list it is read with |
| `Rbac.RoleDeletedExact` | datasource/etcd/role.go:123-152 | in such a run a role is deleted if and only if no account holds it |
| `Rbac.DirectoryInEveryRun` | datasource/etcd/account.go:50-240 | over every such run the store holds exactly the accounts and roles of a plain directory: creations do not overwrite, updates do not create, deletions take exactly the named accounts, and a role goes if and only if it is dropped while no account holds it |
| `Rbac.OldFormatRoleCanBeDeleted` | datasource/etcd/account.go:124-132 | an account that an older release stored with a single role and no index entry holds that role, yet does not stop its deletion |
| `Versions.Int16ToInt64` | pkg/util/util.go:111-129 | the last component is the least significant one on machines of either byte order, although the byte-order test answers for the opposite one |
| `Versions.ParseVersion` | pkg/validate/version_func.go:89-103 | the components of the first parts between dots, missing ones zero, or an error when a part does not parse |
| `Versions.VersionToInt64` | pkg/validate/version_func.go:89-106 | the number of a version, the same on every machine |
| `Versions.NumberIsWorth` | pkg/util/util.go:111-129 | the first component keeps its sign and the others count modulo 65536 |
| `Versions.NumberOrder` | pkg/util/util.go:111-129 | on all 16-bit components, comparing numbers is comparing components in order, the first signed and the others unsigned, and different components give different numbers |
| `Versions.DottedParts` | pkg/validate/version_func.go:92-103 | the parts of a dotted text are the first texts it was written from, empty ones included |
| `Versions.ParseExact` | pkg/validate/version_func.go:97-100 | a part stands for a number if and only if it is digits with at most one sign in front and the value fits 16 bits; everything else is an error |
| `Versions.ErrorExact` | pkg/validate/version_func.go:92-103 | a version is an error if and only if one of the first four texts it was written from is not a number |
| `Versions.UnparsedCountsAsZero` | datasource/etcd/util/versionrule.go:89-93 | a version that cannot be parsed is sorted as the version 0 |
| `Versions.VersionOrder` | pkg/validate/version_func.go:89-106 | versions of one to four numbers in 0..32767 are ordered by number as by their zero-padded components, equal only when these are, and never negative |
| `Retire.SortNewestFirst` | datasource/etcd/util/versionrule.go:31-93 | a permutation in which no version is newer than an earlier one |
| `Retire.CountVersions` | datasource/etcd/retire.go:106-127 | which names have more versions than are kept, and the versions of each |
| `Retire.GetRetireServiceIDs` | datasource/etcd/retire.go:106-145 | every name gives up all but the kept number of its versions, and none that is newer than one it keeps |
| `Retire.CandidateCount` | datasource/etcd/retire.go:106-145 | a name with n versions has exactly max(0, n - reserve) candidates |
| `Retire.ListIndexes` | datasource/etcd/retire.go:46-51 | every index entry of every tenant once |
| `Retire.FilterNoInstance` | datasource/etcd/retire.go:69-86 | keeps exactly the candidates for which the prefix of the id finds no instance |
| `Retire.UnregisterManyService` | datasource/etcd/retire.go:88-104 | of the listed entries exactly the given ones go, except the service center itself; no instance is touched and the store stays consistent |
| `Retire.RetireService` | datasource/etcd/retire.go:45-67 | an index entry goes if and only if it is a candidate, the prefix of its id finds no instances and it is not the service center itself |
| `Connections.CountedInEveryRun` | pkg/rest/server.go:116-146 | in every interleaving of accepts, closes and the drain the wait group equals the connection counter plus the threads in mid-step; neither is negative, and the wait ends only with the counter at zero |
| `Connections.WaitEndsExact` | pkg/rest/conn.go:29-33 | when the wait ends every connection is closed if and only if as many calls have taken one off the counter as connections have been closed |
| `Connections.CleanRunsWait` | pkg/rest/conn.go:29-33 | without a drain, and with no connection closed twice, the wait ends if and only if every connection is closed and every close is through, in every interleaving |
| `Connections.DrainEndsWait` | pkg/rest/server.go:264-283 | after one accept and the drain the wait ends with the connection open |
| `Connections.RepeatedCloseEndsWait` | pkg/rest/conn.go:29-33 | after two accepts and one connection closed twice the wait ends with the other one open |
| `Connections.StepKeepsCount` | pkg/rest/server.go:128-146 | one atomic step of any thread keeps that equation |
| `Connections.LostSwapMeansProgress` | pkg/rest/server.go:136-145 | a lost compare-and-swap means that another thread has accepted or closed since the load |
| `Connections.Counter.AcceptOne` | pkg/rest/server.go:128-132 | one more on both counters, which stay equal |
| `Connections.Counter.CloseOne` | pkg/rest/server.go:134-146 | one less on both counters, or no change and a refusal at zero |
| `Connections.Counter.GracefulStop` | pkg/rest/server.go:257-275 | takes one after the other off both counters until they are zero or the server is found closed, and answers how many; it closes no connection |
| `RoundRobin.SafeInEveryRun` | pkg/lb/roundrobin.go:27-40 | in every interleaving the index stays in -1..n-1, never returns to -1, and every pick, also the one after a lost race, is a position of the list |
| `RoundRobin.PickExact` | pkg/lb/roundrobin.go:32-39 | a pick is the index at that moment: the position behind the one the caller has read or, after a lost race, the one of the winner |
| `RoundRobin.UncontendedPick` | pkg/lb/roundrobin.go:32-39 | a caller that meets no other one moves the index one further, in a circle, and picks it; a lost race moves nothing |
| `RoundRobin.RoundRobinLB.Next` | pkg/lb/roundrobin.go:27-40 | the endpoint behind the last one, in a circle, or the empty string without endpoints |
| `RoundRobin.RestDo` | client/client_lb.go:53-68 | a request that fails everywhere has tried each endpoint exactly once, in circular order from behind the last one used; one that is answered stopped at the first success |
| `UrlPattern.Match` | pkg/rest/common.go:63-73 | the longest run of accepted characters and the character behind it |
| `UrlPattern.Try` | pkg/rest/handler.go:31-60 | ends for every pattern and path, and answers the query string of the captured values |
| `UrlPattern.MatchIsSound` | pkg/rest/handler.go:31-60 | for every pattern, the captured values put back give the path, or a prefix of it for a pattern other than a single slash that ends in a slash |
| `UrlPattern.MatchIsComplete` | pkg/rest/handler.go:31-60 | without adjacent parameters, every fitting choice of values is captured again from the path it produces |
| `UrlPattern.CapturedIsFree` | pkg/rest/handler.go:41-48 | whatever a pattern captures is free of slashes |
| `Routes.RequestsAreReadable` | server/resource/disco/schema_resource.go:96-98 | a schema write whose service id a route captured makes references that are read back under their own tenant |
| `Routes.SchemasRefineForRequests` | server/resource/disco/schema_resource.go:96-119 | so over every atomic run of such requests the store is the plain map and the collectors are invisible |
| `UrlPattern.MatchExact` | pkg/rest/handler.go:31-60 | without adjacent parameters a path matches with certain values if and only if these fit and the path is the filled pattern, or continues it where that is allowed |
| `UrlPattern.LongerExact` | pkg/rest/handler.go:34-40 | a path that goes on behind the filled pattern matches if and only if the pattern ends in a slash and is not a single slash |
| `UrlPattern.MatchRoundTrip` | pkg/rest/handler.go:41-60 | reading the query of a match back gives one value for every parameter name, in order, and these values put back into the pattern give the path |
| `UrlPattern.CompleteOnlyIfSeparated` | pkg/rest/handler.go:41-48 | every fitting choice of values is captured again if and only if no parameter directly follows another |
| `FilterTree.FetchIsBuild` | pkg/cache/tree.go:44-153 | a walk through a sound cache gives the chain, the missing node or the error that building from scratch gives, and leaves a sound cache |
| `FilterTree.CachedGetIsBuild` | pkg/cache/tree.go:44-153 | after every sequence of gets, removals and evictions a cached get answers like one without cache, when initialising depends on the request only through the name |
| `FilterTree.BuildExact` | pkg/cache/tree.go:44-153 | the answer is the chain of one node per filter, or of as many as the requested level, when every filter makes its node below the one in front of it, under the joined names; otherwise the answer of the first filter that makes none |
| `FilterTree.RemoveRefreshes` | pkg/cache/tree.go:75-81 | whatever the cache holds, a get behind a removal of its root answers like one without cache, and no other root changes |
| `FilterTree.SecondGetHits` | pkg/cache/tree.go:83-135 | a chain that was answered is found again without initialising anything, even when the filters would by now make other nodes under the same names |
| `FilterTree.SecondGetExact` | pkg/cache/tree.go:83-107 | on one level the second request agrees with its uncached answer if and only if the names differ, the first made no node, or both initialise alike |
| `FilterTree.RemoveKeepsSound` | pkg/cache/tree.go:75-81 | removing a root leaves no node without its parent |
| `FilterTree.Tree.Get` | pkg/cache/tree.go:44-73 | without cache the chain built from scratch and no change; otherwise the cached walk and the filled cache |
| `FilterTree.Tree.Remove` | pkg/cache/tree.go:75-81 | removes the whole tree of the root the request names |
| `Chain.InvokeOrder` | pkg/chain/invocation.go:71-126 | handlers run once each, in order, up to the first that ends the invocation; then the synchronous callbacks, each once, latest first, ending with the one of Invoke; then the asynchronous ones are handed over in order of registration |
| `Chain.RunningExact` | pkg/chain/chain.go:36-43 | the last handler that runs is the first that ends the invocation and gives its result; without one all run, with success |
| `Chain.ComposedOrder` | pkg/chain/invocation.go:81-109 | the nested closures of any list of registrations run in that order |
| `Chain.PromisedOrderExact` | pkg/chain/invocation.go:81-109 | without a callback of Invoke, any list of registrations runs in the promised order if and only if it has at most one of them or its first is synchronous |
| `Chain.InvokeWithoutCallbackExact` | pkg/chain/invocation.go:71-126 | the same if-and-only-if for every handler list, after the handlers have run in order |
| `Chain.Invocation.SetCallback` | pkg/chain/invocation.go:81-95 | the first function is taken with its mode, later ones are composed with what is there |
| `Chain.Invocation.Next` | pkg/chain/invocation.go:71-79 | registers a callback and runs the rest of the chain |
| `Chain.Invocation.SyncNext` | pkg/chain/chain.go:36-43 | runs the next handler, or succeeds behind the last |
| `Chain.Invocation.Complete` | pkg/chain/callback.go:49-73 | runs the composed callback here or hands it to the pool |
| `Chain.Invocation.RunCallback` | pkg/chain/invocation.go:97-109 | what invoking a composed callback does, in order |
| `Chain.Invocation.Invoke` | pkg/chain/invocation.go:111-126 | runs the whole chain with a last callback |

## Left out

- Sync tasks and tombstones: the operations that `esync` and `sync` append to a transaction write other keys.
- Failures of the backend itself: a call that returns an error because the backend is unavailable.
- HTTP, websocket, TLS, logging, metrics, configuration, plugins, JSON and the hashing of contents.
- Tags, statistics, queries with cached revisions, instance status updates in bulk, and the single-schema legacy call.
- Cleaning up dependency rules after an update, and the queue in front of the rules; the model stops before the clean-up.
- Dependencies.TwoWayInEveryRun: the document writes of one update are one step; other updates come between its read and its writes, not between the writes.
- Mongo queries and filters: a document is found by the key it stands for, `$pull` and `$addToSet` are list functions.
- Time: a lease is alive until a step drops it, so expiry may come at any moment; waiting times are not modelled.
- Width of counters and indexes: connection counts and balancer indexes are unbounded integers.
- Paths: keys are sequences of characters, not bytes; domains and projects are free of slashes.
- Etcd.Backend.TxnWithCmp: operations of one transaction are applied in list order; etcd refuses a transaction that puts one key twice, so the model accepts more than the backend.
- Services.UnregisterService: whether another service depends on this one is a parameter, and the quota given back is not counted.
- Services.RegisterService: the generated id is a parameter, and the other fields of a record are not modelled.
- Instances.RegisterInstance: the number of the granted lease is a parameter, its time to live is not modelled.
- SchemaDiff.ModifySchemas: whether the quota grants the growth is a parameter.
- SchemaRuns.SchemasRefineInEveryRun: leaves out the legacy interface, which writes summaries without references; SchemaRuns.ListingInEveryRun includes it.
- Dependencies.ParamsChecker: returns the request with its defaults instead of writing into it; the stored rules are taken from the request again, so the defaults do not reach them.
- Rbac.IndexExactInEveryRun: account and role calls are atomic; their existence checks are outside their transactions.
- Retire.RetireService: works alone and one service after the other, where the source uses five workers; the number of retired services, which is only logged, is left out.
- Retire.SortNewestFirst: the library sort is an insertion sort; only order and permutation are used of it.
- Connections.Counter.GracefulStop: the drain without other threads; whether the server is found closed is a parameter, and closing the remaining connections afterwards is left to the closes of the thread machine.
- UrlPattern.Try: escaping of names and values is a parameter.
- FilterTree.Tree.Get: nodes are held in a map by the names from the root instead of child maps in heap nodes, and a concurrent temporary root is not modelled.
- Chain.Invocation.SyncNext: a handler passes on once or ends once; panics in handlers and callbacks are not modelled.
