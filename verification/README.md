# TelemetryHub: a verified model

TelemetryHub takes sensor messages from MQTT brokers, stores them in TimescaleDB and shows them on a
dashboard. This project models the stateful parts of it in Dafny and proves what they keep over whole
runs and under every interleaving. `dafny verify dfyconfig.toml` checks everything.

| File | Models |
|---|---|
| `Fnv.dfy` | the 64-bit FNV-1a hash (section 2 of draft-eastlake-fnv) and the deduplication key |
| `Deduplicator.dfy` | the ring that detects redelivered messages (QoS 1, section 4.3.2 of MQTT 3.1.1) and its runs |
| `Flatten.dfy`, `FlattenResults.dfy`, `Handler.dfy`, `StoredMessages.dfy` | flattening a JSON payload in every map order, and storing the readings |
| `Client.dfy`, `ClientRuns.dfy` | finding the device, routing a message, and many handlers in flight |
| `Connect.dfy` | concurrent connects under a mutex and a WaitGroup, and the retry loop |
| `Tables.dfy`, `Consistency.dfy`, `Database.dfy`, `RowEffects.dfy` | the tables, what every transaction keeps, and the transactions statement by statement |
| `Queries.dfy`, `QueryResults.dfy`, `Export.dfy`, `ReachableQueries.dfy` | downsampling, counting and streaming readings, the export, and all three on reachable tables |
| `DeviceGroups.dfy` | listing, creating, reordering and moving device groups |
| `ReadingsCache.dfy`, `CacheKeys.dfy`, `KeyCollisions.dfy`, `GetReadings.dfy` | the bounded cache, its keys, and concurrent cached queries |
| `FieldLists.dfy` | splitting and joining field lists |
| `ChartGroups.dfy`, `ChartResults.dfy`, `ChartConfiguration.dfy` | the device page's partition of fields into chart groups, and which configuration it shows |
| `Text.dfy`, `Sequences.dfy`, `Sorting.dfy`, `Options.dfy` | shared definitions |

How to read it:

- Time, random choices, connection results, failing statements and Go's map order are inputs or
  nondeterministic choices, so a theorem covers all of them. Times are integer nanoseconds.
- A class method is proved against a function or relation on values; the theorems about runs are then
  lemmas about sequences of those steps.
- What an operation shares with its specification, such as a condition on rows or a constant, is pinned
  by results on raw columns and numbers that do not name it: `FlattenResults`, `StoredMessages`,
  `RowEffects`, `QueryResults`, `ChartResults`, and contracts with literals elsewhere.
- A string holds one byte per char, and on the dashboard one UTF-16 unit. Text columns and JavaScript's
  `localeCompare` are ordered by code point; the proofs use only that this is a total order.
- PostgreSQL's TEXT holds no NUL, so a query with a NUL in a parameter fails. `sub_group` is NOT NULL
  since migration 009, so storing a rename without one fails (`RenameNeedsSubGroup`).
- `container/ring` is an array with a cursor. The clock of the detector never goes back, because the
  code reads Go's monotonic clock while it holds the mutex.

What the proofs brought to light:

- Redelivery detection is keyed on the first 100 bytes: payloads that differ only later share a key
  (`TailIsIgnored`), and nothing separates device id from payload (`KeyIgnoresBoundary`).
- The key is recorded before the store is tried, so a redelivery of a message whose store failed is
  dropped, exactly when the key is nonzero and the ttl is not over (`DeliverTwice`). `LoseMessage` is
  such a message. The README of the repository calls the detector an LRU cache; a hit does not refresh
  an entry, so it is first-in first-out.
- Flattening depends on the map order exactly when two leaves with one dotted path differ in value
  (`OrderIndependentExactlyWhenPathsAgree`); `DotsCollide` is such a payload.
- The minutes of a request fix the bucket width unless they are exactly 24 hours or 7 days apart
  (`MinutesDecideWidth`), so staying one minute away from those durations is enough.
- Writing a cached key again at capacity can evict another entry (`OverwriteLosesAnotherKey`), although
  the comment on the cache speaks of dropping an entry only when over the cap. All live entries are
  sure to stay exactly when there is room or every other one is younger than the key's own
  (`OverwriteKeepsOthersExactlyWhen`).
- A NUL can make cache keys collide (`NulCollides`). A request shares its key with another one exactly
  when a field name holds a NUL, other than as its last character with another name behind it, or the
  device id holds one with no empty piece before the last comma behind it
  (`KeySharedExactlyWhenAmbiguous`). Returned rows are right all the same,
  since no request with a NUL is ever answered (`ReturnedRowsAnswerTheSameMinutes`).
- Sub-groups are configured per chart group but looked up by name alone, so two groups with a sub-group
  of one name show one configuration (`SharedNameShowsTheLaterOrder`); each shows its own exactly when
  they agree, and so does a last setting rename without a group (`ShownAsConfiguredExactlyWhen`).
- `InsertMessage` alone does not protect the tables: it does exactly when its rows carry the device it
  is called for (`InsertMessageNeedsOwnRows`); `extractReadings` makes such rows.

## Model

| member | source | states |
|---|---|---|
| Fnv.HashIsFnv1a | backend/internal/mqtt/dedup.go:41-47 | the hash starts at the offset basis; each byte is combined by exclusive or and then multiplied by the prime modulo 2^64 |
| Fnv.XorBit | backend/internal/mqtt/dedup.go:41-47 | exclusive or works on each binary digit |
| Fnv.KeyIsHashOfConcatenation | backend/internal/mqtt/dedup.go:41-47 | the key over two writes is the hash of the device id followed by at most 100 bytes of the payload |
| Fnv.KeyIgnoresBoundary | backend/internal/mqtt/dedup.go:41-47 | shifting bytes between device id and payload keeps the key |
| Fnv.TimesPrimeInjective | backend/internal/mqtt/dedup.go:41-47 | multiplication by the FNV prime is injective modulo 2^64 |
| Fnv.OneByteChangesKey | backend/internal/mqtt/dedup.go:41-47 | for one device, payloads of equal length whose first 100 bytes differ in exactly one byte have different keys |
| Fnv.TailIsIgnored | backend/internal/mqtt/dedup.go:43-45 | payloads that agree on their first 100 bytes share a key |
| Dedup.Deduplicator.constructor | backend/internal/mqtt/dedup.go:25-37 | a new ring refines the empty log |
| Dedup.Deduplicator.IsDuplicate | backend/internal/mqtt/dedup.go:40-71 | true exactly when one of the last maxSize accepted messages since the reset has this nonzero key and is younger than ttl; otherwise the message joins the log and the overwritten slot was empty or the oldest |
| Dedup.Deduplicator.Reset | backend/internal/mqtt/dedup.go:74-83 | every slot is empty, the cursor has not moved, the log is empty |
| Dedup.ReadBackwards | backend/internal/mqtt/dedup.go:66-68 | backwards from the cursor the ring holds the last min(maxSize, n) accepted messages since the reset, then empty slots |
| Dedup.AcceptedIsLogged | backend/internal/mqtt/dedup.go:66-68 | an accepted message not followed by a reset sits in the log as far from the end as messages were accepted since |
| Dedup.AcceptedExactlyWhenSeparated | backend/internal/mqtt/dedup.go:40-83 | over every run a message is accepted if and only if its key is zero or a reset, the ttl, or maxSize accepted messages separate it from each earlier accepted message with its key |
| Dedup.OneLiveEntryPerKey | backend/internal/mqtt/dedup.go:54-68 | with a clock that never goes back at most one entry per nonzero key is alive in the ring |
| Flatten.FlattenJSONWithParent | backend/internal/mqtt/handler.go:84-107 | the recursion over shared output is one of the runs the flattening relation allows, whatever the map order |
| Flatten.FlattenYieldsLeaves | backend/internal/mqtt/handler.go:80-107 | for every map order exactly the dotted paths of leaves come out, each with the value of a leaf at that path |
| FlattenResults.FlattenStoresLeaves | backend/internal/mqtt/handler.go:80-107 | for every map order a name comes out exactly when it is that of a key path to a number or boolean whose last key is none of the six skipped, with that number, or 1 for true and 0 for false |
| FlattenResults.EveryNumberIsStored | backend/internal/mqtt/handler.go:80-107 | when names are apart, every such number is stored under its own name |
| Flatten.AnyLeafCanWin | backend/internal/mqtt/handler.go:84-107 | for each leaf some map order makes its value the one that stays |
| Flatten.OrderIndependentExactlyWhenPathsAgree | backend/internal/mqtt/handler.go:80-107 | all map orders give one result if and only if leaves that share a dotted path agree in value |
| Flatten.SplitRecoversKeys | backend/internal/mqtt/handler.go:87-93 | splitting the dotted path of non-empty dot-free keys at its dots gives the key path back |
| Flatten.PlainKeysInjective | backend/internal/mqtt/handler.go:87-93 | dotted paths are injective when all keys are non-empty and dot-free |
| Flatten.DepthOneInjective | backend/internal/mqtt/handler.go:87-93 | dotted paths are injective one level deep for any keys |
| Flatten.DotsCollide | backend/internal/mqtt/handler.go:87-97 | a dotted key beside a nested object gives two leaves with one path and different values |
| Flatten.NoLeafLost | backend/internal/mqtt/handler.go:84-107 | as many paths come out as there are leaves if and only if dotted paths are injective, and then each path has its leaf's value |
| Handler.IsMetadataOnly | backend/internal/mqtt/handler.go:51-61 | true exactly when no key other than ID and time occurs |
| Handler.ExtractReadings | backend/internal/mqtt/handler.go:63-78 | one row per flattened path, no field twice, all of the given device and instant |
| Handler.OneRowPerLeaf | backend/internal/mqtt/handler.go:63-93 | with injective paths there is exactly one row per qualifying leaf |
| Handler.MessageHandler.HandleMessage | backend/internal/mqtt/handler.go:31-49 | an error if and only if there is something to store and a statement fails; unparseable and metadata-only payloads change nothing; otherwise the message and the rows of some flattening are stored, or no row changes |
| StoredMessages.FailsExactlyWhen | backend/internal/mqtt/handler.go:31-49 | handling fails exactly when a key besides ID and time occurs and a statement fails, the third one only if some number is stored |
| StoredMessages.StoredReadings | backend/internal/store/store.go:34-82 | a stored message keeps all readings and adds exactly the numbers of its payload, one per name, with its device, time and payload id, and the payload itself |
| StoredMessages.StoredDevice | backend/internal/store/store.go:45-51 | a new device is added with its broker; of a known one only the last time seen changes, and nothing of others |
| StoredMessages.EveryNumberHasReading | backend/internal/mqtt/handler.go:63-107 | when names are apart, every number of the payload has its reading |
| Client.ExtractDeviceId | backend/internal/mqtt/client.go:183-200 | the payload's own non-empty string id wins, else the last topic segment of six or more hex digits, else none |
| Client.DeviceIdUnique | backend/internal/mqtt/client.go:185-200 | a message determines its device id |
| Text.TextLeIsLexicographic | backend/internal/server/store_adapter.go:281-282 | text order: a prefix first, otherwise the first difference decides |
| Client.Client.constructor | backend/internal/mqtt/client.go:61-73 | each client gets its own empty detector of 1000 entries and five minutes |
| Client.Client.OnConnect | backend/internal/mqtt/client.go:105-111 | connecting empties the detector |
| Client.Client.HandleArrival | backend/internal/mqtt/client.go:147-181 | every message counts once as received and at most once as dropped or error; which of these, what the detector records and what is stored follow from the message, the log and the failing statement |
| Client.RedeliveryIsDropped | backend/internal/mqtt/client.go:165-176 | a message once checked is a duplicate later on if and only if its key is nonzero and the ttl is not over |
| Client.DeliverTwice | backend/internal/mqtt/client.go:147-181 | when a message comes twice, and the first is no duplicate, the second is dropped if and only if the key is nonzero and the ttl is not over; the first fails exactly when its store does, and then no row of it is stored |
| Client.LoseMessage | backend/internal/mqtt/client.go:147-181 | a concrete message on a new client whose store fails, whose redelivery is dropped, and of which no row is stored |
| ClientRuns.MessagesConserved | backend/internal/mqtt/client.go:147-181 | under every interleaving received = dropped + errors + completed + in flight |
| ClientRuns.HandledTwinsAreSeparated | backend/internal/mqtt/client.go:105-181 | two messages of one client with one nonzero key both reach the handler only if a reset, the ttl or maxSize accepted messages separate them |
| Connect.StepKeepsInv | backend/internal/mqtt/manager.go:51-66 | every step keeps mutual exclusion, the WaitGroup count and the list of recorded failures |
| Connect.ReturnedListExact | backend/internal/mqtt/manager.go:42-67 | under every interleaving the returned list is, as a multiset, the names of the clients whose connect failed |
| Connect.NeverStuck | backend/internal/mqtt/manager.go:42-67 | until ConnectAll returns some goroutine can move |
| Connect.RunsAreBounded | backend/internal/mqtt/manager.go:42-67 | no interleaving takes more than 7n + 1 steps for n clients |
| Connect.ConnectAll | backend/internal/mqtt/manager.go:42-67 | under any scheduler it ends with exactly the names that failed |
| Connect.RetryLoop | backend/cmd/api-server/main.go:78-90 | at most ten rounds; it stops after the first round in which somebody connects, so a client that connected is in no later round |
| Tables.MaxOf | backend/internal/server/store_adapter.go:303 | the maximum sort order is reached by a group and exceeded by none |
| Consistency.ApplyConsistent | backend/migrations/002_create_readings.sql:2-8 | every transaction, retention and rollback keeps keys unique, references whole, ids below their sequence, and payload devices equal to reading devices |
| Consistency.ReachableConsistent | backend/internal/store/store.go:34-82 | every reachable database state is consistent |
| Consistency.InsertMessageConsistent | backend/internal/store/store.go:45-81 | a committed message keeps the tables consistent |
| Consistency.InsertMessageNeedsOwnRows | backend/internal/store/store.go:34-82 | it does so exactly when its rows carry its device id |
| Consistency.UpsertRenameConsistent | backend/internal/server/store_adapter.go:238-246 | the upsert keeps (device_id, raw_field) unique |
| Consistency.RenameNeedsSubGroup | backend/internal/server/store_adapter.go:238-254 | a new rename is stored if and only if a sub-group is given; for a stored one exactly its row is relabelled and keeps its configuration |
| Consistency.DeleteDeviceGroupConsistent | backend/migrations/011_add_device_groups.sql:4-11 | deleting a group leaves no device pointing at it |
| Consistency.DeleteDeviceLeavesNothing | backend/internal/server/store_adapter.go:78-99 | a committed delete leaves no row of the device in the four tables |
| Consistency.DeleteDeviceSparesOthers | backend/internal/server/store_adapter.go:78-99 | it changes no row of another device, no group and no sequence |
| RowEffects.DeleteDeviceRows | backend/internal/server/store_adapter.go:78-99 | every row of the four tables stays as often as it occurred unless it is the device's, and then it goes |
| Database.Database.InsertMessage | backend/internal/store/store.go:34-82 | all or nothing: device, payload and stamped readings are stored and the id returned, or no row changes and at most an id is lost; the caller's rows are stamped in place once the id is drawn |
| StoredMessages.InsertMessageAppends | backend/internal/store/store.go:53-81 | the readings are appended with time, device, field and value as given and the new payload's id; payloads gain the new one, and nothing else changes but devices |
| StoredMessages.InsertMessageSeesDevice | backend/internal/store/store.go:45-51 | the device is inserted with broker and times, or only its last time seen changes |
| Database.Database.DeleteDevice | backend/internal/server/store_adapter.go:78-99 | all four deletes or none, whichever statement fails |
| Database.Database.DeleteDeviceField | backend/internal/server/store_adapter.go:101-116 | both deletes or none |
| RowEffects.DeleteDeviceFieldRows | backend/internal/server/store_adapter.go:101-116 | the field's readings and renames on the device go; its other fields, other devices and all payloads stay |
| RowEffects.ReadingRetentionRows | backend/migrations/002_create_readings.sql:17 | retention takes exactly the readings before the cutoff |
| RowEffects.ConfigurationUpdates | backend/internal/server/store_adapter.go:263-277 | a group is configured on all renames of the device in it, a sub-group on those of its group |
| RowEffects.DeleteDeviceGroupRows | backend/migrations/011_add_device_groups.sql:4-11 | deleting a group takes that group and leaves its devices, and only those, without one |
| Database.Database.ReorderDeviceGroups | backend/internal/server/store_adapter.go:319-331 | all updates in order or none |
| Queries.LeftJoinLabels | backend/internal/server/store_adapter.go:153-154 | with unique renames the left join neither drops nor multiplies readings |
| Queries.StreamIsMatching | backend/internal/server/store_adapter.go:176-213 | the stream delivers each matching reading once, labelled and in (ts, field_name) order, so as many rows as CountReadings counts |
| QueryResults.StreamIsExact | backend/internal/server/store_adapter.go:176-213 | the stream shows exactly the stored readings of the device, of a requested field and strictly between the times, each once with its own columns and the labels of its rename, ordered by time and field; the count is their number |
| Queries.QueryIsDownsampling | backend/internal/server/store_adapter.go:146-159 | rows are strictly ordered by bucket and field; each gives mean, extremes and labels of the readings of its bucket and field strictly inside the range, none of them empty; every matching reading has its row |
| QueryResults.QueryIsExact | backend/internal/server/store_adapter.go:134-174 | on stored columns: each reading asked for has its row, each row gives mean, extremes and labels of exactly those in its quarter hour, hour or day, strictly ordered |
| Queries.CountedOnce | backend/internal/server/store_adapter.go:146-159 | each matching reading is counted in exactly one row |
| Queries.RowIsItsCell | backend/internal/server/store_adapter.go:146-159 | a row is in the result if and only if it gives the mean, extremes and labels of its own non-empty cell |
| Queries.MeanBetweenExtremes | backend/internal/server/store_adapter.go:148-150 | min <= value <= max over the reals |
| Queries.RowsPerFieldBounded | backend/internal/server/store_adapter.go:135-144 | a field gets at most 97 rows below 24 hours, 169 below 7 days, and one more than the started days from there on |
| QueryResults.FieldRowsBounded | backend/internal/server/store_adapter.go:135-144 | the same bounds in nanoseconds for any rows of one field |
| Export.Export | backend/internal/handlers/export.go:59-116 | rejected exactly by the parameter checks or the row cap; an accepted one is complete or cut off where the database or a write fails; a complete one of unchanged tables streams as many rows as were counted, at most 500,000 |
| Export.StreamJson | backend/internal/handlers/export.go:150-184 | the JSON array has its rows in order, a separator before each, the first one different, and is closed only when all were written; a failure cuts it off at that write or row |
| Export.JsonShape | backend/internal/handlers/export.go:150-184 | brackets, separators and rows of the JSON array, place by place |
| Export.CsvShape | backend/internal/handlers/export.go:129-148 | header and lines of the CSV file, place by place |
| Export.WrittenStops | backend/internal/handlers/export.go:129-184 | an interrupted document stops at the failing write or behind the last row delivered |
| Export.DocumentCarriesRows | backend/internal/handlers/export.go:129-184 | either format carries exactly the streamed rows in order |
| Export.InterruptedCarriesPrefix | backend/internal/handlers/export.go:129-184 | an interrupted export carries the first rows of the complete one, in order |
| Export.AcceptedExportBounded | backend/internal/handlers/export.go:91-99 | an accepted export delivers each matching reading once, ordered, at most 500,000 |
| ReachableQueries.ReachableStreamIsMatching | backend/internal/server/store_adapter.go:176-213 | after any transactions the stream delivers each matching reading once, in order, and as many rows as are counted |
| ReachableQueries.ReachableDownsampling | backend/internal/server/store_adapter.go:134-174 | after any transactions the downsampled rows are exactly the summaries of non-empty cells, strictly ordered and bounded per field |
| ReachableQueries.ReachableExportBounded | backend/internal/handlers/export.go:91-99 | after any transactions an accepted, uninterrupted export carries each matching reading once, ordered, at most 500,000 |
| DeviceGroups.ListIsSorted | backend/internal/server/store_adapter.go:279-297 | the list holds exactly the stored groups by (sort_order, name), and the dashboard's own sort leaves it alone |
| DeviceGroups.DashboardSort | frontend/src/app/dashboard/page.tsx:60-63 | the dashboard lists all groups ascending by sort order, groups of one order as they came |
| DeviceGroups.NewGroupListedLast | backend/internal/server/store_adapter.go:299-307 | a created group is listed after all others; a taken name or an overflowing order number adds none |
| DeviceGroups.ReorderListsInOrder | backend/internal/server/store_adapter.go:319-331 | the groups are then listed in the requested order, whatever their names, if and only if it names each group exactly once |
| DeviceGroups.MoveGroup | frontend/src/app/dashboard/page.tsx:102-116 | sends the sorted ids with the group and its neighbour swapped, or nothing when there is none |
| DeviceGroups.MoveTradesPlaces | frontend/src/app/dashboard/page.tsx:102-116 | id by id, the group and its neighbour trade places and the others keep theirs; nothing is sent exactly at the edge or for a missing group |
| DeviceGroups.MoveAndBackRestores | frontend/src/app/dashboard/page.tsx:60-116 | a move by one place and the move back restore the listed order |
| ReadingsCache.Cache.Get | backend/internal/server/readings_cache.go:44-56 | returns the live entry of the key, and drops it when expired |
| ReadingsCache.Cache.Set | backend/internal/server/readings_cache.go:58-82 | drops expired entries, then an oldest one at capacity, then writes; nothing when the ttl is not positive |
| ReadingsCache.CacheBounded | backend/internal/server/readings_cache.go:70-80 | the cache never holds more than max entries, or one when max is not positive |
| ReadingsCache.HitComesFromMemo | backend/internal/server/readings_cache.go:44-82 | a hit is what an unbounded memo holds: the latest write of the key, at most ttl old |
| ReadingsCache.LiveKeyStays | backend/internal/server/readings_cache.go:58-82 | with strictly increasing write times a live key stays until max writes followed its own |
| ReadingsCache.CacheAgreesWithMemo | backend/internal/server/readings_cache.go:44-82 | below that count bounded cache and memo answer alike |
| ReadingsCache.ReadFindsLastWrite | backend/internal/server/readings_cache.go:44-82 | a hit is the last write of the key, at most ttl old; with increasing write times such a write is found unless max writes followed it |
| ReadingsCache.FullTurnoverEvicts | backend/internal/server/readings_cache.go:70-80 | max other live keys written less than max writes ago leave no room for the key |
| ReadingsCache.OverwriteAtCapacityEvicts | backend/internal/server/readings_cache.go:70-81 | rewriting a live key keeps all live keys or, at capacity, loses exactly one other oldest one |
| ReadingsCache.OverwriteKeepsOthersExactlyWhen | backend/internal/server/readings_cache.go:70-81 | whatever the map order, it keeps all live keys if and only if there is room or every other live entry is younger than the key's own |
| ReadingsCache.OverwriteLosesAnotherKey | backend/internal/server/readings_cache.go:58-82 | a run from the empty cache in which rewriting one key loses another live one |
| CacheKeys.KeyDeterminesRequest | backend/internal/server/readings_cache.go:38-42 | for non-empty comma-free NUL-free field names, keys are equal exactly when device, fields and minutes are |
| CacheKeys.ParsedFieldsDetermined | backend/internal/handlers/readings.go:104-112 | the same for field lists the handler parses from NUL-free text |
| CacheKeys.NulCollides | backend/internal/server/readings_cache.go:38-42 | with a NUL in a field name two different requests share a key |
| KeyCollisions.KeySharedExactlyWhenAmbiguous | backend/internal/server/readings_cache.go:38-42 | another request for field names shares a key if and only if the device or a name holds a NUL at which the key can be cut into names |
| KeyCollisions.CleanKeyDeterminesRequest | backend/internal/server/readings_cache.go:38-42 | the key of a NUL-free request tells it up to the minute from every request for field names, NUL-free or not |
| CacheKeys.SameMinutesAreClose | backend/internal/server/readings_cache.go:36-42 | requests with the same minutes differ by less than two minutes in duration |
| CacheKeys.MinutesDecideWidth | backend/internal/server/store_adapter.go:135-144 | the minutes fix the bucket width exactly when they are not 24 hours or 7 days apart |
| CacheKeys.FarFromSwitchKeepsWidth | backend/internal/server/store_adapter.go:135-144 | a duration at least one minute from 24 hours and from 7 days has the same width for all requests with its minutes |
| CacheKeys.InnerRowsAgree | backend/internal/server/store_adapter.go:134-174 | requests with the same minutes and width get exactly the same rows for buckets a minute or more inside the range |
| GetReadings.StoreAdapter.GetReadings | backend/internal/server/store_adapter.go:118-132 | a hit is returned as cached; a miss runs the query and caches its rows; a query that fails, as with a NUL, caches nothing |
| GetReadings.NextKeepsInv | backend/internal/server/store_adapter.go:118-132 | every step of any caller or transaction keeps every cached and returned result one that a query with that key gave, offered to the cache at its insertion time |
| GetReadings.ReturnedRowsAnswerTheSameMinutes | backend/internal/server/store_adapter.go:118-132 | under every interleaving returned rows are the answer of a query for the same device, fields and minutes, whatever the fields; a request with a NUL gets none |
| GetReadings.HitsAreRecent | backend/internal/server/store_adapter.go:118-132 | under every interleaving rows found in the cache were offered to it at most the ttl before, by a query for the same device, fields and minutes |
| GetReadings.MissesAreExact | backend/internal/server/store_adapter.go:118-132 | under every interleaving rows not found in the cache are the answer to the request itself |
| GetReadings.ReturnedRowsAreCloseToFresh | backend/internal/server/store_adapter.go:118-144 | that query's duration is within two minutes of the request's, with the same bucket width away from the switching durations |
| GetReadings.ReturnedInnerRowsAreFresh | backend/internal/server/store_adapter.go:118-174 | with the same bucket width, the rows well inside the range are exactly those a fresh query on the same tables would give |
| FieldLists.SplitString | backend/internal/handlers/readings.go:114-125 | the loop yields the pieces between separators; a separator that is not one byte never matches |
| FieldLists.SplitFields | backend/internal/handlers/readings.go:104-112 | the loop yields the non-empty pieces between commas |
| FieldLists.PiecesJoinBack | backend/internal/handlers/readings.go:114-125 | the pieces are separator-free, join to the input, and are the only such pieces |
| FieldLists.FieldListOfJoin | backend/internal/handlers/readings.go:104-112 | splitting the comma-join of non-empty comma-free names gives those names |
| FieldLists.FieldListOfTwo | backend/internal/handlers/readings.go:104-112 | a comma separates two lists, and a text without one is one name, or none when empty |
| FieldLists.FieldListIsFieldNames | backend/internal/handlers/readings.go:104-112 | every parsed name is non-empty and comma-free, and the list survives another join and split |
| ChartGroups.BuildMaps | frontend/src/app/dashboard/[deviceId]/page.tsx:95-121 | in each of six maps a key has the value the last rename with a non-blank one gives, and no other key occurs |
| ChartGroups.Partition | frontend/src/app/dashboard/[deviceId]/page.tsx:122-137 | one bucket per key in use with exactly its fields in order, and the fields without a key |
| ChartGroups.BuildSubGroups | frontend/src/app/dashboard/[deviceId]/page.tsx:140-162 | sub-groups sorted by sort order then name, named apart, each with exactly its fields in order, and the solo fields |
| ChartGroups.BuildChart | frontend/src/app/dashboard/[deviceId]/page.tsx:93-174 | sorted groups named apart, each made of exactly the selected fields of its name in selection order, placed and configured by the last renames; nothing before hydration |
| ChartGroups.ChartFollowsRenames | frontend/src/app/dashboard/[deviceId]/page.tsx:95-174 | a selected field stands in the group and sub-group its last non-blank rename names, solo without a sub-group, ungrouped without a group |
| ChartGroups.ChartConservesFields | frontend/src/app/dashboard/[deviceId]/page.tsx:93-174 | sub-group, solo and ungrouped fields together are, as a multiset, the selection |
| ChartResults.TrimmedIsStripped | frontend/src/app/dashboard/[deviceId]/page.tsx:103-121 | trimming takes all white space off both ends and nothing else |
| ChartResults.ChartIsExact | frontend/src/app/dashboard/[deviceId]/page.tsx:93-174 | on the renames alone: groups and sub-groups ascend, each with exactly the selected fields whose last renames name it, in selection order, and with the description and order given last |
| ChartResults.EverySubGroupIsShown | frontend/src/app/dashboard/[deviceId]/page.tsx:138-162 | every sub-group that a selected field's last renames name shows the field in its group |
| ChartConfiguration.ShownAsConfiguredExactlyWhen | frontend/src/app/dashboard/[deviceId]/page.tsx:111-162 | whatever is selected, every sub-group shows its own group's description and order if and only if groups that share a sub-group name agree, and so does a last setting rename without a group |
| ChartConfiguration.SharedNameShowsTheLaterOrder | frontend/src/app/dashboard/[deviceId]/page.tsx:117-119 | two groups with a sub-group of one name, ordered 1 and 2, both look up 2 |

## Left out

- The MQTT library, TLS, the connection pool and running migrations: libraries and I/O. Connection
  results, message order and failing statements are inputs.
- Interleaving of SQL statements from different transactions: a transaction is one step. A device
  deletion interleaved with an insert at statement level could leave readings without a device.
- At-least-once storage: not claimed, since the key is recorded before the store is tried.
- Authentication, sessions, rate limiting, configuration and the health and statistics endpoints.
- The user interface apart from the chart partition, the group order and the group move.
- JSON parsing, CSV quoting and number formatting: the model starts from parsed payloads and ends at rows.
- Floating-point rounding, infinities and NULL values: values are reals, as in averages over them.
- The text of a formatted time: any format that is injective and NUL-free on whole minutes.
- Rounding of request times to microseconds by the database driver, and time zones.
- Chunk boundaries of the retention policies: a retention step deletes everything before some time.
- Exhaustion of the 32-bit group ids and 64-bit payload ids.
- Texts that `localeCompare` or a database collation treats as equal although they differ.
- The order of streamed readings of one field at one instant: the database may deliver them in any order,
  the model takes the table's.
- Errors while reading rows of a downsampling query: it fails as a whole or not at all. What the CSV
  writer's buffer still holds after a failure: the model counts it as written.
- Listing devices, fields and renames, and the group configuration forms: single queries without state.
