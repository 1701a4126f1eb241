# proto-db in Dafny

A model of the core of `proto-db`, an AngularJS service that puts a
promise-based API in front of IndexedDB. The model covers five parts:

- **Configuration.**
  - Index configs are normalised (`defaultsNormalizedIndexConf`).
  - Object-store configs are registered per database accessor (`configObjectStore`).
  - Databases are registered on the `ProtoDB` factory (`configDatabase`).
- **Upgrade planning.** The body of `onupgradeneeded` decides which stores to
  create, which indexes to create and which migration jobs to queue. It is
  modelled as a pure function that returns a plan.
- **Migration.** `performMappingJobs` runs the queued jobs one at a time.
  Each job maps every record, clears the store and adds the mapped records back.
- **Cursor iteration.** `forEach`, `map`, `filter` and `all`, both on object
  stores and on indexes, together with the `IndexResult` pair of arrays.
- **Request fan-out.**
  - `promiseWithRequest` settles on one request.
  - `batchPromiseWithRequests` settles on many.
  - `wrapInPromise` chooses between the two for `add`/`put`/`delete`/`get`.

Dynamic JavaScript values are `JsValues.JsValue`. A property lookup
`obj[v]` goes through `ToKey`, which is JavaScript's ToString. A `for … in`
loop over a plain object visits keys in the order `PropertyOrder.ForInOrder`
defines: array-index keys first, in ascending numeric order, then every other
key in insertion order.

The IndexedDB engine is not modelled. What the code reads from it becomes a
parameter:

- the set of existing store names;
- a cursor's records, and whether the cursor ends normally or with an error;
- the success and error events of requests, in arrival order.

A promise is `Pending`, `Fulfilled` or `Rejected`. A promise that no code path
ever settles is `Pending`.

Where the code does not do what a caller would expect, the model follows
the code:

- A second `configDatabase` call with a name already in `dbNames` throws. It
  does not return the existing accessor.
- `onupgradeneeded` walks `storeConfigs` in `for … in` order, which is not
  always registration order: integer-like store names come first.
- When a migration job fails, the `finished` callback is never called, so
  the `open()` call that issued `indexedDB.open` (line 353) never settles.
  Every later `open()` resolves at once (lines 349-350), because `database`
  was assigned at line 359, before any job ran; the runner's own
  `provideStore` calls (line 468) rely on that.
- A job that fails at `clear` or `add` logs the error with `console.error`
  (lines 312-314). A job that fails at its read step logs nothing: the
  cursor's `map` never settles (see "## Findings"), so neither `.catch`
  runs.

## Model

| member | source | states |
|---|---|---|
| JsValues.NatToStringRoundTrip | proto-db.service.js:420-424 | The decimal key of a numeric name is canonical and reads back as the number, so a numeric store name keys `storeConfigs` by its decimal string |
| JsValues.NumKeyIsArrayIndex | proto-db.service.js:375 | A numeric store name below 2^32-1 becomes an array-index key, which is why `for … in` visits it before the string names |
| PropertyOrder.Sort | proto-db.service.js:375 | The array-index keys are visited in ascending numeric order, and sorting loses or adds no key |
| PropertyOrder.ForInOrder | proto-db.service.js:375 | The `for … in` order of a plain object holds every key it was given as often as it was given, no more and no fewer |
| PropertyOrder.ForInOrderIsPermutation | proto-db.service.js:375-376 | `for … in` visits every registered key exactly as often as it was registered: array-index keys first in ascending order, then the others in insertion order |
| PropertyOrder.PlainKeysKeepInsertionOrder | proto-db.service.js:375 | When no key is an array index, `for … in` order is registration order |
| PropertyOrder.ForInOrderDistinct | proto-db.service.js:375 | Distinct registered keys are visited once each |
| IndexConfig.Normalize | proto-db.service.js:321-345 | Throws exactly when `keyPath` is not a non-empty string. Otherwise `keyPath` is copied; `name` is the raw name when that is a non-empty string, else `keyPath`; `unique`/`multiEntry` are present exactly when the raw value is a boolean, and then hold that boolean; key path and name are never empty |
| IndexConfig.NormalizeToRaw | proto-db.service.js:330-344 | Every well-formed normalised config is what normalising its own raw form gives back |
| IndexConfig.NormalizeIdempotent | proto-db.service.js:321-345 | Normalising a normalised config changes nothing |
| IndexConfig.NormalizeIgnoresIllTyped | proto-db.service.js:330-342 | Ill-typed `name`, `unique` and `multiEntry` values all normalise the same way (absent) |
| StoreRegistry.ConfigObjectStore | proto-db.service.js:416-427 | As written: throws on a falsy `name` or `keyPath`, on an already registered key, and also on every Object.prototype member name; otherwise appends the config |
| StoreRegistry.InheritedNameRefused | proto-db.service.js:420-422 | A store named "toString" is refused as a duplicate of a store that was never registered |
| StoreRegistry.RegisterStore | proto-db.service.js:416-427 | Corrected registration. Throws exactly on a missing field or a registered key. Otherwise it adds exactly that config under its key, leaves every earlier config unchanged and keeps the registry consistent |
| StoreRegistry.RegisterStoreAgrees | proto-db.service.js:416-427 | For names that are not Object.prototype members, the corrected and as-written registrations agree |
| StoreRegistry.SecondRegistrationFails | proto-db.service.js:420-422 | Registering the same name a second time always throws a duplicate error |
| StoreRegistry.IterationOrder | proto-db.service.js:375-378 | The upgrade loop takes one step per registered key, and each step meets a config that is registered under its own key |
| StoreRegistry.IterationOrderComplete | proto-db.service.js:375-378 | The upgrade loop meets every registered config exactly once |
| StoreRegistry.IterationFollowsRegistration | proto-db.service.js:375-378 | With no integer-like store names, the upgrade loop meets configs in registration order |
| UpgradePlan.AutoIncrementOf | proto-db.service.js:383-389 | A created store's `autoIncrement` is the config's value when defined, else `true` |
| UpgradePlan.CreateIndexes | proto-db.service.js:393-400 | Indexes are created in declaration order from the normalised configs. The pass stops at the first config without a usable `keyPath`, after creating every index before it |
| UpgradePlan.StepFor | proto-db.service.js:378-410 | For one config: the store is created iff its name is absent, with the config's `keyPath` and `autoIncrement`; its indexes go through iff every declared index has a usable `keyPath`; a job `{config, version, oldVersion}` is queued iff the indexes went through, the store existed, it has an `upgradeMapper` and `version !== oldVersion`, so a store created here never gets one |
| UpgradePlan.PlanUpgrade | proto-db.service.js:375-411 | The upgrade runs to the end iff every declared index of every store has a usable `keyPath`, and then it creates every declared index, in iteration order |
| UpgradePlan.PlanMatchesReference | proto-db.service.js:375-410 | The plan completes exactly when every declared index is valid. It then creates exactly the absent stores and all declared indexes, and queues exactly the jobs due, in iteration order |
| UpgradePlan.JobsRefInOrder | proto-db.service.js:402-410 | Jobs are queued in config iteration order (the job list of a concatenation is the concatenation of job lists) |
| UpgradePlan.JobsRefExact | proto-db.service.js:402-410 | A pre-existing store gets a job `{config, version, oldVersion}` iff it has an `upgradeMapper` and `version !== oldVersion`, every job is of that kind, and when store names are distinct no two jobs are for the same store, so each due store gets exactly one |
| UpgradePlan.CreatedRefExact | proto-db.service.js:382-391 | Exactly the stores absent from `objectStoreNames` are created, with their `keyPath` and `autoIncrement` |
| UpgradePlan.CreatedStoresNeverMigrate | proto-db.service.js:402 | A store created in this upgrade never gets a migration job |
| UpgradePlan.SameVersionNoJobs | proto-db.service.js:404 | When `version === oldVersion`, no job is queued |
| UpgradePlan.PlanRegistered | proto-db.service.js:370-411 | Planning over a registry walks its configs in `for … in` order. It completes iff every declared index is valid, and then its created stores, indexes and jobs are the reference ones, with at most one job per store |
| Migration.MapRecords | proto-db.service.js:302-304 | Each record is replaced by `upgradeMapper(item, oldVersion, newVersion)`, position by position |
| Migration.RunJob | proto-db.service.js:299-311 | One job gets stuck reading iff its store is missing, the mapper is missing on a non-empty store, or the cursor fails (`map` then never settles); it gets stuck at `clear` only when `clear` did not succeed, and at `add` only after `clear` succeeded. A completed job read to the end, cleared, and wrote back exactly the mapper's image of the store's previous records, in cursor order |
| Migration.AfterStuck | proto-db.service.js:305-311 | A job stuck at `add` leaves its store empty, because the `clear` transaction already committed; a job stuck earlier leaves every store as it was; no other store changes |
| Migration.JobCompletes | proto-db.service.js:302-310 | A job whose read reaches the end, whose `clear` fulfils and whose `add` requests all succeed completes, writing back the mapped records; so a migration over a non-empty store can finish |
| Migration.FailedAddEmptiesStore | proto-db.service.js:305-314 | With `clear` fulfilled, an `add` request that fails before all of them succeeded leaves the job stuck at `add` and its store empty |
| Migration.ApplyJob | proto-db.service.js:300-311 | A completed job changes its own store and no other |
| Migration.PerformMappingJobs | proto-db.service.js:293-319 | Jobs run one at a time, first queued first. `finished` is called iff every job completes, and then the queue is empty and every store holds its mapped records. Otherwise the run stops at the first failing job: that job is already off the queue, the jobs behind it stay queued and never run, and the stores hold what the earlier jobs wrote, except that the failing job's store is empty when it failed after `clear` |
| Migration.EmptyStoreJobCompletes | proto-db.service.js:302-311 | A job over an empty store completes once `clear` succeeds, because adding an empty array settles at once |
| Cursor.Iterate | proto-db.service.js:235-247 | The walk visits a prefix of the records and collects one reply per visited record; it stops early only after a visited record asked to stop |
| Cursor.IterateIsFold | proto-db.service.js:235-247 | The callback sees the records in cursor order, one at a time. The walk is the left fold of the callback over the visited prefix, and it ends at the first record whose callback set `stopper.stop` |
| Cursor.StopOnKth | proto-db.service.js:239-242 | Setting `stopper.stop` at the k-th record ends the walk after exactly k records |
| Cursor.NeverStopVisitsAll | proto-db.service.js:242-245 | A callback that never stops sees every record |
| Cursor.ForEach | proto-db.service.js:228-251 | `forEach` always settles. It rejects only with the cursor's own error, and only after every record was visited |
| Cursor.ForEachSettles | proto-db.service.js:228-251 | `forEach` rejects iff the cursor fails and the callback never stopped, and the state it leaves is the fold over the visited records |
| Cursor.AfterForEach | proto-db.service.js:262-264 | As written, the collector resolves when `forEach` fulfils and never rejects |
| Cursor.Map | proto-db.service.js:253-265 | As written, a fulfilled `map` carries one callback result per visited record |
| Cursor.MapCollectsReplies | proto-db.service.js:253-265 | `map` resolves with the callback results of the visited records, in order. It stays pending iff the cursor fails before any stop, and it never rejects |
| Cursor.MapHangsOnCursorError | proto-db.service.js:253-265 | On a cursor that errors, `forEach` rejects but `map` never settles |
| Cursor.MapSettling | proto-db.service.js:253-265 | Corrected `map`. It always settles and rejects exactly when the cursor fails; when it fulfils, it gives the same value as `map` |
| Cursor.KeptExactly | proto-db.service.js:273-276 | `filter` keeps an element iff its callback answered truthy |
| Cursor.Filter | proto-db.service.js:267-281 | `filter` resolves with the visited records whose callback answered truthy, in order. It stays pending iff the cursor fails before any stop, and it never rejects |
| Cursor.FilterKeepsAccepted | proto-db.service.js:267-281 | A record is in `filter`'s result iff it was visited and its callback accepted it |
| Cursor.All | proto-db.service.js:151-164 | `all` resolves with every record in cursor order when the cursor ends normally, and never settles when it fails |
| Cursor.MapIdentityIsAll | proto-db.service.js:151-164 | `all` is `map` with the identity callback |
| Cursor.Unzip | proto-db.service.js:65-79 | The index `all` result keeps keys and primary keys as two parallel arrays of the same length, entry by entry |
| Cursor.Pairs | proto-db.service.js:46-50 | `IndexResult.forEach` makes one call per primary key, in order, passing the value at the same position, or `undefined` past the end of `values` |
| Cursor.PairsOfUnzip | proto-db.service.js:42-50 | `IndexResult.forEach` hands back exactly the (primary key, key) pairs the cursor produced, in order |
| Cursor.IndexAll | proto-db.service.js:65-79 | The index `all` collects every (key, primary key) entry, as parallel arrays in cursor order, when the cursor ends normally, and never settles when it fails |
| Cursor.IndexFilter | proto-db.service.js:123-139 | The index `filter`, which pushes both keys of each accepted entry inside its own `forEach`, visits the same entries and leaves the same state as the plain `filter`. It fulfils exactly when that does, and then holds the two parallel arrays of the entries it accepted, in order. It stays pending iff the cursor fails before any stop, and it never rejects |
| Cursor.IndexFilterPairsEntries | proto-db.service.js:123-139 | Every pair in the index `filter` result is an entry the callback accepted |
| FanOut.Single | proto-db.service.js:9-20 | One request: the promise takes the first event's result or error, and stays pending while no event arrived |
| FanOut.SuccessesOfErrorFree | proto-db.service.js:30-31 | Without errors, the collector holds every result in arrival order |
| FanOut.Drain | proto-db.service.js:26-36 | Arrival by arrival: resolve once the collector reaches the request count, reject on the first earlier error, otherwise stay pending |
| FanOut.Batch | proto-db.service.js:21-40 | The batch resolves with the first n results in arrival order when no error came before them. It rejects with the first error that arrives before the n-th success. With zero requests it never settles |
| FanOut.BatchAllSucceed | proto-db.service.js:30-35 | n successes resolve the batch with the results in arrival order |
| FanOut.BatchFirstErrorRejects | proto-db.service.js:27-29 | The first error before the batch completes decides the rejection |
| FanOut.Wrap | proto-db.service.js:167-190 | An empty array is answered at once; a single value issues one request; a non-empty array issues one request per element |
| FanOut.WrapIssuesOnePerItem | proto-db.service.js:178-182 | One request per item, in item order, each with the operation's own callback |
| FanOut.Settle | proto-db.service.js:167-190 | An empty array resolves with `[]`; a fulfilled batch has one result per request |
| FanOut.EmptyArrayResolvesAtOnce | proto-db.service.js:172-175 | `add([])` and the like resolve with `[]` whatever the engine does |
| FanOut.WrapAllSucceed | proto-db.service.js:167-214 | When every request succeeds, a single value resolves with its result and an array resolves with all results in arrival order |
| DatabaseRegistry.Lookup | proto-db.service.js:546 | `ProtoDB[name]` is an own member, else an inherited Object.prototype method, else nothing |
| DatabaseRegistry.ConfigDatabase | proto-db.service.js:541-553 | As written. A name already in `dbNames` (strict equality) throws. Otherwise whatever `ProtoDB[name]` already holds is returned. Only when it holds nothing is a new accessor created, recorded under the name's key and returned. The factory stays consistent |
| DatabaseRegistry.RecordedNameThrows | proto-db.service.js:542-550 | A first call on a free name returns the new accessor, and every later call with that name throws |
| DatabaseRegistry.SupportedIsNotADatabase | proto-db.service.js:546-552 | `configDatabase({name: "supported"})` returns the capability probe and records nothing |
| DatabaseRegistry.NumberThenStringReturnsOtherAccessor | proto-db.service.js:542-546 | After database `1`, the name `"1"` passes the duplicate check and returns database `1`'s accessor |
| DatabaseRegistry.RegisterDatabase | proto-db.service.js:541-553 | Corrected. Throws exactly when the name's key is already registered. Otherwise it records the name and returns the new accessor |
| DatabaseRegistry.RegisterDatabaseValid | proto-db.service.js:547-550 | Registration keeps every recorded name paired with its accessor, and records nothing else |
| DatabaseRegistry.SameKeyThrows | proto-db.service.js:542-544 | In the corrected registry, a first call returns a new accessor, and any later name with the same key throws |
| DatabaseRegistry.ConfigDatabaseAgrees | proto-db.service.js:541-553 | Outside the two flawed cases, the as-written and corrected versions record the same name and return the same accessor |

## Left out

- Two kinds of engine work become parameters and are not modelled:
  - The IndexedDB engine itself: `indexedDB.open`, transactions, `objectStore(...)`, `createObjectStore`, `createIndex`, record storage, key generation.
  - Request and cursor outcomes are given as inputs.
- `$q`, `$timeout` and Angular's dependency injection are not modelled. Promises become the three-state `Promise` value.
- `ObjectStoreAccessor` is not modelled (`provideStore`, the `readonly`/`readwrite` getters and the per-call delegating methods, lines 432-535). Its methods lease a transaction and then call the helper methods modelled here. Two things it adds are left out:
  - `provideStore` (lines 463-473) resolves but never rejects. When `dbAccessor.open()` rejects, or `db.transaction(storeName, mode)` throws for a store the engine does not have, every accessor call stays pending. The model starts each helper call from a leased store. The migration's "missing store" case is stuck at its read step for exactly this reason.
  - `ObjectStoreAccessor.count` (lines 479-491) does not call the helper's `count`. It issues its own `count()` request with both an `onsuccess` and an `onerror` handler, so once the lease resolves it behaves as `FanOut.Single`.
- `open()`'s connection caching and event wiring (lines 347-369) are not modelled. Its upgrade step is `UpgradePlan`, its post-open step is `Migration`.
- `ProtoDB.supported` (line 554) is not modelled. It only probes `window.indexedDB`, which the host environment provides.
- `ObjectStoreHelper.clear` (lines 197-199) is a single request; it is `FanOut.Single`.
- `ObjectStoreHelper.count` (lines 216-226) is not modelled. It installs no `onerror` handler, so it resolves with the count or never settles; unlike `FanOut.Single`, this helper never rejects. Callers normally reach `count` through the accessor's own version (see above), which can reject.
- The index getter `IndexHelper.index` (lines 54-63) is not modelled. It resolves only inside `readonly.then` (lines 57-61) and never rejects. So the index `forEach`, `map`, `filter` and `all` stay pending for an unknown `indexName`, where `objectStore.index` throws inside `.then`, and for a failed lease. The cursor members (`Cursor.ForEach` and the rest) start from an index or store that has already resolved. Their settling clauses hold only from that point on.
- `configObjectStore` also installs `this[config.name] = new ObjectStoreAccessor(...)` (line 425). The model does not track that member. It would clobber `open` or `configObjectStore` for a store of that name.
- `console.error` in the migration runner is logging only; the model does not track it.
- Numbers are unbounded integers. NaN, infinities and fractions are not modelled, so `ToKey` covers integer names only.
- Callback exceptions are not modelled. Every user callback is a total function here: the index and store `forEach` callbacks (lines 94 and 239), the `map` and `filter` callbacks (lines 260 and 274) and the migration's `upgradeMapper` (line 303). In the code, a callback that throws inside `onsuccess` leaves the promise pending, and a throwing or non-function mapper leaves the migration stuck at its read step. The model cannot express that, because `Migration.Apply` always returns a value.
- Migration.PerformMappingJobs: an `add` batch that stays pending after a fulfilled `clear` is reported like a failed one, with the store empty. The records of a still-open transaction are engine state, which the model does not track.
- JsValues.ToKey: `Obj` is a plain object, whose key is "[object Object]". Arrays and functions, whose ToString differs, are not modelled.
- JsValues.IntToString: numbers at or above 10^21 in magnitude are written in full. JavaScript writes them in exponent form, which the model does not cover.
- UpgradePlan.PlanUpgrade: engine errors from `createObjectStore`/`createIndex` (a duplicate index name, a bad key path) are not modelled. Only the `keyPath` check of the normaliser aborts the plan.
- FanOut.Settle: for a batch it states only that a fulfilled promise carries one result per request. The contents are stated by `FanOut.WrapAllSucceed` and `FanOut.Batch`.
- Cursor.ForEach: a cursor is a fixed record sequence plus its end. Records written during the iteration are not modelled.

## Findings

| source | as written | input that shows it | evidently intended | confidence | as-written member | corrected member |
|---|---|---|---|---|---|---|
| proto-db.service.js:420 | `if (storeConfigs[config.name])` reads through Object.prototype, so every inherited member name counts as registered | `configObjectStore({name: "toString", keyPath: "id"})` on a fresh accessor throws "already exists" | throw only for names registered before | high (not executed) | StoreRegistry.ConfigObjectStore, StoreRegistry.InheritedNameRefused | StoreRegistry.RegisterStore |
| proto-db.service.js:546-551 | `ProtoDB[conf.name]` finds factory members and values registered under another name of the same key, and returns them | `configDatabase({name: "supported"})` returns the `supported` function; `configDatabase({name: 1})` then `configDatabase({name: "1"})` returns database 1's accessor | every call with an unregistered name returns a new accessor; names are compared as the engine sees them | high (not executed) | DatabaseRegistry.ConfigDatabase, DatabaseRegistry.SupportedIsNotADatabase, DatabaseRegistry.NumberThenStringReturnsOtherAccessor | DatabaseRegistry.RegisterDatabase |
| proto-db.service.js:253-265 | `map`/`filter`/`all` resolve their outer promise only in `forEach(...).then`, never reject it | a cursor whose request fails: `forEach` rejects, `map` stays pending forever (so a failing migration read hangs too) | pass the rejection on | medium (not executed) | Cursor.Map, Cursor.MapHangsOnCursorError | Cursor.MapSettling |
