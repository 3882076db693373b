# A Dafny model of the metadata catalogue's hard core

The repository is a data-governance service: it scans data sources into a catalogue, records every
schema change, traces lineage, sends governance events through an outbox, and checks data quality.
This project models the parts whose correctness spans several functions, steps or processes, and
proves what they promise. `dafny verify dfyconfig.toml` checks everything.

| module | models |
|---|---|
| `Catalog`, `Journal`, `SyncInvariant`, `SyncSteps`, `SchemaSync`, `SourceSync`, `SyncTheorems`, `SyncIdempotence` | schema reconciliation: tables, signatures, change journal, the transaction with its nested loops, and what a commit leaves |
| `Signatures`, `Weaving`, `SignatureReading`, `StoredScan` | which differences a column signature shows, when it can be read in only one way, and what a sync therefore stores and records of each scanned field |
| `Lineage`, `Impact`, `ImpactAnalysis`, `TextOrder` | the depth-bounded recursive query, the breadth-first search over its rows, the sorted report |
| `Outbox`, `OutboxStore`, `OutboxProtocol` | the governance outbox: statements, claim loop and dispatch round, and the protocol of any number of dispatchers |
| `SyncLease`, `LeaseService`, `Timestamps`, `TextLease` | the two-layer sync lease as a protocol and as methods; time stamps, and how the two stores compare them |
| `AlertMatching`, `Ddl`, `DataQuality`, `MongoInference` | comma-list matching in two stores; quoted identifiers in generated DDL; rule queries and pass rates; recursive field inference |

How the pieces fit:

* A schema sync is one transaction object whose methods are the statements. Every statement keeps
  `Consistent` (tables, journal list and journal table agree), every loop has an invariant on table
  values, and maps are walked in an arbitrary order chosen by `:|`. `SaveSchema` promises
  `Reconciled`, `Journalled` and `ReplaysToScan`; `SyncTheorems` and `SyncIdempotence` draw the
  consequences.
* `SaveSchema` compares columns by a printed signature. `OneDifferenceShows` and `MistakenExactly` say
  what that text shows, field by field; `ScannedColumnStored`, `ScannedColumnRecorded` and
  `ChangedColumn` turn this into what a commit stores and records.
* The impact report is specified by `Shortest` on the whole graph, which is independent of the
  query's levels and of the search.
* The outbox and the lease are state machines whose runs are arbitrary lists of enabled steps;
  properties are proved for every run. The methods that run the statements are tied to those steps
  (`RoundIsRun`, `BeginSyncIsSteps` and their companions).

## Where the code falls short of a promise

Each comes with a concrete failing input and with the exact condition under which the promise holds.

* **Stored keys can differ from scanned keys.** A schema is joined to a name by a dot, and an update
  never writes the name. A stored object `a.b` without schema and a scanned `b` in schema `a` share a
  key, and the sync leaves the object under `a.a.b` (`KeyMismatch`). Each scanned object ends up under
  its own key if and only if no scanned object shares its key with a stored object of another name
  (`StoredUnderScannedKeys`). The set of stored keys is always the set of written keys, computed from
  the old store and the scan; it is the scanned set if and only if those two sets are equal
  (`KeysConverge`).
* **A Postgres column may never settle.** Confidence is `DECIMAL(3,2)`, but the signature prints six
  digits, so 0.999 comes back as 1.00 and every sync records and writes the column again
  (`NeverSettles`). A stored signature becomes the scanned one, and replaying the journal gives the
  stored catalogue, if and only if every scanned column *settles*: its confidence prints alike after
  the table, or the stored object under its key already carries the scanned signature
  (`SignatureConverges`, `ReplayGivesPost`). What the journal replays to without that is the catalogue
  with the scanned signatures (`ReplaysToScan`, promised by every commit).
* **A changed column can go unnoticed.** The texts in a signature are not delimited, so two columns can
  print alike and the sync then neither stores nor records the change (`UnnoticedChange`, a concrete
  run). A change in a single field always shows (`OneDifferenceShows`). A scanned column cannot be
  mistaken for any row that differs from it if and only if none of its texts holds a label that could
  be taken for the one next to it (`MistakenExactly`).
* **A second sync with the same scan may write again.** It is silent if and only if `Silent` held of
  the old store and the scan (`SyncTwice`); when names agree that is that every column settles.
* **Postgres loses the history of dropped objects.** The journal's `object_id` cascades on delete, so
  the records about a dropped object go with it, its drop record included (`HistoryLost`). The journal
  is complete if and only if the store is SQLite, whose migration removed that reference, or the scan
  has the key of every stored object of the source (`JournalTableComplete`).
* **A lease can be taken over before it ends.** Exclusion up to the `lease_until` a session last wrote
  holds in every run if and only if the store's comparison is exact and the configuration is guarded
  (`StrictCondition`; without forced releases, if and only if it is exact and `endSync` is one step,
  `StrictUnforcedCondition`). Neither store's comparison is exact: SQLite compares texts and errs by
  less than a second, Postgres keeps microseconds and errs by less than one (`TextWithinDoubt`,
  `MicrosWithinDoubt`). A lease until 05.5Z is given away at 05Z in SQLite (`TextTakeover`), and in
  Postgres one is given away 400 ns early (`MicrosTakeover`).
* **Exclusion up to that doubt needs three things.** `endSync` must be one step (the code drops the
  in-process mark before it deletes the row, and the late delete can remove the row of a newer sync of
  the same process), a forced release must read and delete in one step, and the staleness bound must
  not be below the time to live plus the resolution of `updated_at` less the margin of the comparison.
  These are necessary and sufficient for exclusion up to the comparison's doubt before the lease end,
  unless the time to live is itself below that margin (`ExclusionCondition`). The defaults (10 s and
  20 s) meet the last one; a bound given by a caller may not.
* **Text time stamps compare wrongly within one second**, exactly when the earlier fraction is a
  prefix of the later one (`OrderWithinSecond`, `OrderMisread`, and for instants `TextErrs`).
* **A retry base of 2^62 ns or more overflows** at the first doubling, and the second attempt is then
  due in the past (`RetryDelay`, which keeps the specified delay for every smaller base).
* **The SQLite outbox statistics fail**, because `SUM` over an empty table is `NULL` there, in exactly
  the reachable states before the first event (`OutboxInvariant`, `EmptyStatistics`); the Postgres
  query coalesces it.
* **"Delivered" is not final**: marks filter on the id only, so a late failure mark of a dispatcher
  whose lease has expired reopens a delivered row (`DeliveredIsNotFinal`). A delivered row stays
  delivered in every continuation if and only if no dispatcher still holds a claim of it
  (`DeliveredStays`).
* **MongoDB nullability** is commented as "field sometimes missing", but the code derives it from mixed
  types alone (`NullabilityMisread`). The comment is true of a field if and only if its types are mixed
  exactly when some document lacks it (`NullableAsPromised`).
* **Parent paths can dangle** when a MongoDB key contains a dot (`DottedKeyExample`). The recorded paths
  are closed under the parent if and only if each dotted key's path has its parent among them
  (`ClosedExactly`).
* **The alert matchers differ** when a blank sits inside a token or the change type contains a comma.
  `MatchersAgree` gives the exact condition, `BlankDisagrees` and `CommaDisagrees` an example each.

## Assumptions

* Object keys are distinct in the scan (`ScanKeysDistinct`) and in the store (`StoreKeysDistinct`).
* A row identifier never occurs before it is handed out: a supply of fresh numbers stands for UUIDs.
* A transaction commits all or nothing; each store call is atomic.
* Lineage identifiers determine node types as far as the query compares them (`TypedById`).
* One clock that never goes back serves all processes of the lease protocol.
* MongoDB keys are non-empty, dot-free and distinct per document where path properties are stated
  (`Plain`); `ClosedExactly` needs none of that.

## Model

| member | source | states |
|---|---|---|
| SourceSync.SaveSchema | internal/service/source.go:447-637 | in whatever order the maps are walked: a commit leaves exactly the scan's objects, each stored as scanned, with an exact journal whose records are about scanned objects under their scanned table names or about dropped ones; it commits if and only if no table repeats a column name and no row statement clashes (`NoClashes`), and otherwise rolls everything back; the journal replays to the stored rows with the scanned signatures whatever the table does to them; nothing is written if and only if the store already agreed with the scan |
| SourceSync.Load | internal/service/source.go:452-472 | the in-memory maps hold precisely the source's objects by key and, for each, its columns by name |
| SourceSync.SyncObjects | internal/service/source.go:477-600 | the object loop ends well if and only if no column name repeats and no row clashes; then every scanned object is synced under its own identifier, untouched objects are as before, and each scanned column is unchanged or announced by a record |
| SourceSync.DropObject | internal/service/source.go:603-631 | dropping removes the object, its columns and every edge at either, and records it once, keeping tables and journal consistent |
| SourceSync.DeleteColumnEdges | internal/service/source.go:620-624 | exactly the edges touching one of the object's columns disappear |
| SourceSync.DropObjects | internal/service/source.go:603-631 | exactly the stored objects whose key the scan lacks are gone; nothing is written if and only if there are none |
| SourceSync.AgreeingNamesNeverClash | internal/store/sqlite.go:284-297 | when names agree, no statement of the object loop can violate UNIQUE(source_id, name, schema) |
| SourceSync.AcceptableIs | internal/service/source.go:477-524 | at any point of the loop the next object's statements succeed if and only if its column names are distinct and its row does not clash, a condition on the old store and the scan alone |
| SourceSync.TakenHalfway | internal/store/sqlite.go:284-297 | halfway through the loop a name is taken exactly by an earlier scanned object or by a stored one not matched yet |
| SourceSync.NameHalfway | internal/service/source.go:477-512 | halfway through the loop a synced object carries the scanned schema under its match's old name |
| SourceSync.UntouchedHalfway | internal/service/source.go:477-512 | halfway through the loop the other objects of the source are exactly the stored ones no scanned key has matched, unchanged |
| SourceSync.ReconciledAtEnd | internal/service/source.go:447-637 | object loop plus drop loop together leave the source's objects exactly the scanned ones |
| SourceSync.RecordsReplay | internal/service/source.go:514-617 | replaying the records of any commit gives the stored rows with the scanned signatures, other sources' columns with their stored ones |
| StoredScan.ScannedObjectStored | internal/service/source.go:477-524 | every scanned object is stored with the scanned attributes, under its match's name if it has one |
| StoredScan.ScannedColumnStored | internal/service/source.go:526-579 | every scanned column is stored with all its fields, unless the row had its signature already, in which case the row is as before; a row keeps its identifier and term |
| StoredScan.ScannedColumnRecorded | internal/service/source.go:535-570 | a scanned column whose signature was not the scanned one has exactly one record, an addition or an alteration from the old signature to the scanned one, naming source, object, table and column; any other has none |
| StoredScan.ChangedColumn | internal/service/source.go:556-576 | a stored column with a difference that shows ends up with every scanned field, its old identifier and term, and exactly one alter_column record |
| StoredScan.UnnoticedChange | internal/service/source.go:801-829 | a concrete run in which both types of a column change and the sync neither stores nor records it |
| Signatures.OneDifferenceShows | internal/service/source.go:801-829 | a stored row and a scanned column that differ in exactly one of data type, full type, nullable, key, unique, default, parent, description or confidence (a missing text counts as an empty one) have different signatures |
| SignatureReading.SignatureInPrint | internal/service/source.go:801-829 | the text of a stored column's signature |
| Signatures.AgreementIsSilent | internal/service/source.go:801-829 | columns that agree in all of these have the same signature |
| Signatures.SixDigitsReadsBack | internal/service/source.go:801-829 | the printed confidence reads back as the nearest millionth |
| Signatures.StoredConfidenceIs | migrations/001_init_schema.sql:69-87 | SQLite keeps a confidence, Postgres the nearest hundredth |
| SignatureReading.SignatureMeans | internal/service/source.go:801-829 | with an unambiguous scanned column, signatures are equal if and only if the columns agree in every respect, whatever the row holds |
| SignatureReading.MistakenExactly | internal/service/source.go:801-829 | a scanned column cannot be mistaken for any row that differs from it if and only if it is unambiguous: no text of it holds a label that could be taken for the one next to it |
| Weaving.OnlyWeave | internal/service/source.go:801-829 | texts none of which holds a separator of the kind next to it are determined by the whole they are joined to |
| Weaving.AnotherWeave | internal/service/source.go:801-829 | where some text does, the same whole can be divided in another way |
| SchemaSync.Transaction.SyncObject | internal/service/source.go:477-600 | one scanned object: fails exactly on a duplicate column name or a taken name; otherwise object row, columns and journal are as scanned and no other object is touched; silent if and only if it agreed already |
| SchemaSync.Transaction.StoreObject | internal/service/source.go:481-524 | an existing object keeps its identifier and is updated only if a compared field differs; a missing one is created and recorded once |
| SchemaSync.Transaction.SyncColumns | internal/service/source.go:526-579 | the column loop succeeds exactly on distinct names, writes every scanned column, leaves in the map exactly the stored columns the scan lacks, and writes nothing if and only if all signatures agreed |
| SchemaSync.Transaction.AddColumn | internal/service/source.go:536-554 | a new column is inserted and recorded; a repeated name violates UNIQUE(object_id, name) |
| SchemaSync.Transaction.AlterColumn | internal/service/source.go:556-576 | a record and a write happen exactly when the signatures differ, and the row keeps identifier and term |
| SchemaSync.Transaction.DropStoredColumn | internal/service/source.go:581-599 | the column and all edges at it disappear, with one record carrying its true old signature |
| SchemaSync.Transaction.DropColumns | internal/service/source.go:581-599 | in any order, exactly the columns left in the map disappear |
| SchemaSync.Transaction.UpdateSchemaObject | internal/store/sqlite_schema.go:264-282 | an update sets every compared field and never the name, or violates UNIQUE(source_id, name, schema) |
| SchemaSync.Transaction.DeleteSchemaObject | internal/store/sqlite_schema.go:284-291 | columns go with the object, and in Postgres its journal records too |
| SchemaSync.Transaction.UpdateColumn | internal/store/sqlite_column.go:313-335 | an update by identifier rewrites the matching row only, and fails without one |
| SchemaSync.Transaction.DeleteLineageEdgesByNode | internal/store/sqlite_mapping.go:447-453 | every edge with the node at either end is deleted, and no other |
| SchemaSync.Transaction.RecordSchemaChange | internal/service/source.go:768-792 | a change enters the journal table and the in-memory list together |
| SyncSteps.SyncedAfterAdd | internal/service/source.go:536-554 | inserting the next scanned column extends what the column loop has achieved |
| SyncSteps.SyncedAfterAlter | internal/service/source.go:556-579 | comparing the next stored column and removing it from the map extends what the column loop has achieved |
| SyncSteps.ColumnsDone | internal/service/source.go:526-599 | both column loops together leave exactly the scanned columns |
| SyncSteps.SilentIsQuiet | internal/service/source.go:477-600 | an object whose row needed no update, whose scanned columns had their signatures already and that left no column to drop agreed with the scan in everything compared, including that it had no further column |
| SyncSteps.ConsistentAfterPutColumn | internal/service/source.go:526-579 | recording a change and writing its column keeps tables, journal list and journal table in agreement |
| SyncSteps.ConsistentAfterDropObject | internal/service/source.go:603-631 | so does dropping an object, including the cascade into the journal table |
| SyncInvariant.ProgressAfterPutObject | internal/service/source.go:477-524 | writing an object row keeps identities, other sources and lineage |
| SyncInvariant.ProgressAfterPutColumn | internal/service/source.go:526-579 | writing a column keeps identifiers, terms, other sources and lineage |
| SyncInvariant.ProgressAfterDropColumn | internal/service/source.go:581-599 | deleting a column and its edges leaves exactly the edges that touch nothing deleted |
| SyncInvariant.ProgressAfterDropObject | internal/service/source.go:603-631 | the same for an object with all its columns |
| SyncInvariant.JournalledStep | internal/service/source.go:768-792 | one more true record about something not mentioned before keeps the journal replayable to the stored rows and free of repetition |
| SyncInvariant.ViewNow | internal/service/source.go:535-599 | what the records do not mention shows its old signature when they are replayed |
| SyncTheorems.StoredUnderScannedKeys | internal/service/source.go:481-497 | every scanned object ends up under its own key if and only if names agree |
| SyncTheorems.KeysAfterSync | internal/service/source.go:447-637 | the source's stored keys are exactly the written ones, computed from the old store and the scan, and each is held once if and only if those are distinct |
| SyncTheorems.KeysConverge | internal/service/source.go:447-637 | the stored keys are the scan's keys if and only if the written ones are, and certainly when names agree |
| SyncTheorems.KeyMismatch | internal/service/source.go:485-497 | from a concrete store and scan the sync commits and leaves the object under a key the scan does not have |
| SyncTheorems.MismatchedKey | internal/service/source.go:794-799 | for every store and scan, an object matched under another name is stored under its schema joined to the old name, which is never its own key |
| SyncTheorems.KeysAre | internal/service/source.go:794-799 | a key is the name alone without a schema, and else schema, dot and name |
| SyncTheorems.ColumnNamesConverge | internal/service/source.go:526-599 | each object has exactly the scanned column names |
| SyncTheorems.SignatureConverges | internal/service/source.go:801-829 | a stored signature equals the scanned one if and only if it did before or the confidence survives the table; what equal signatures say about the fields is `MistakenExactly` |
| SyncTheorems.OverwrittenSignature | internal/service/source.go:840-877 | a row written from a scanned column has its signature if and only if the confidence survives the table |
| SyncTheorems.SQLiteSettles | internal/store/sqlite.go:304-322 | in SQLite, where a REAL column keeps every confidence, every scanned column settles |
| SyncTheorems.PostgresUnsettles | migrations/001_init_schema.sql:69-87 | a DECIMAL(3,2) column changes the signature of confidence 0.999 |
| Journal.ReplayColumn | internal/service/source.go:514-617 | in a replayable journal a column moves exactly by the one record about it, which holds its true two values |
| Journal.ReplayObject | internal/service/source.go:514-617 | drop (add) records name exactly the objects that disappear (appear) |
| SyncTheorems.JournalExplains | internal/service/source.go:514-617 | after any commit a record exists exactly for what differs between the old catalogue and the replayed one, with true old and new values, and add and drop records exactly for objects that appear and disappear |
| SyncTheorems.ColumnExplained | internal/service/source.go:535-570 | a scanned column has a record if and only if its old signature was not the scanned one, and the record goes from the one to the other |
| SyncTheorems.ReplayGivesPost | internal/service/source.go:514-617 | folding the records over the old signatures gives the new ones if and only if every scanned column settles |
| SyncTheorems.JournalTableComplete | migrations/001_init_schema.sql:132-143 | the journal table keeps all records if and only if the store is SQLite or the scan has the key of every stored object of the source |
| SyncTheorems.HistoryLost | migrations/001_init_schema.sql:132-143 | from a concrete Postgres store, an empty scan records a drop that the journal table then does not hold |
| SyncTheorems.LineageExact | internal/service/source.go:581-630 | the edges left are exactly the old ones touching no dropped column, no dropped object and no column of one |
| SyncIdempotence.QuietAfterSync | internal/service/source.go:831-838 | after any sync the store agrees with the scan in everything compared if and only if a condition on the old store and the scan held |
| SyncIdempotence.SilentWhenNamesAgree | internal/service/source.go:556-576 | when names agree that condition is that every scanned column settles |
| SyncIdempotence.AfterSignatureIs | internal/service/source.go:556-576 | the signature each scanned column is stored with, in terms of the old store and the scan |
| SyncIdempotence.SyncTwice | internal/service/source.go:447-637 | a second sync with the same scan succeeds and writes nothing if and only if that condition held before the first, and then records nothing; when names agree, if and only if every column settles |
| SyncIdempotence.SilentKeysDistinct | internal/service/source.go:457-472 | where that condition holds, the first sync leaves each key to one object, so no excluded case is silent |
| SyncIdempotence.NeverSettles | migrations/001_init_schema.sql:69-87 | from an empty Postgres store, the second of two equal syncs of a column with confidence 0.999 writes again |
| SyncTheorems.NamesAgreeAfterSync | internal/service/source.go:481-497 | agreement of names is kept by a sync |
| Journal.ReplayOneMore | internal/service/source.go:768-792 | replaying one more record is replaying the rest and then that record |
| Journal.WithoutObjectsTwice | migrations/001_init_schema.sql:132-143 | cascades of two deletions compose into one |
| Lineage.LevelIsReach | internal/store/sqlite_mapping.go:165-181 | level d of the recursive query holds exactly the edges leaving nodes at the end of walks of d-1 edges |
| Lineage.LevelsAreWithin | internal/store/sqlite_mapping.go:165-181 | the rows up to a depth are exactly the edges whose source is nearer than that |
| Lineage.RowsReach | internal/store/sqlite_mapping.go:159-227 | within the depth, the query's rows reach exactly what the whole, possibly cyclic, graph reaches |
| Lineage.RowsDistance | internal/store/sqlite_mapping.go:159-227 | distances in the rows are the true distances up to the depth, and no node is farther |
| Lineage.ShortestStep | internal/service/metadata.go:349-384 | a node at distance d has a predecessor at distance d-1 |
| Lineage.ReachedByWalk | internal/store/sqlite_mapping.go:165-181 | a node is reached by n edges exactly when a walk of n edges ends at it |
| Lineage.DownwardDistance | internal/store/sqlite_mapping.go:159-227 | the query answers true distances up to its depth, and up to ten when the depth is not positive |
| Impact.BuildAdjacency | internal/service/metadata.go:335-342 | the adjacency lists hold each node's rows in order, and the root name is the last non-empty one |
| Impact.Search | internal/service/metadata.go:344-384 | the search finds exactly the other nodes its rows reach, each with its shortest distance and a real walk; it terminates on cyclic rows |
| Impact.Expand | internal/service/metadata.go:362-383 | a round enqueues each unknown neighbour once and keeps the queue sorted by distance |
| Impact.KnownIsNear | internal/service/metadata.go:363-366 | the distance guard never rejects an improvement: a known target is never farther than through the current node |
| Impact.NextLayerComplete | internal/service/metadata.go:349-384 | when the queue moves on to the next distance, all nodes of that distance are known |
| Impact.NothingMissed | internal/service/metadata.go:349-384 | with the queue empty every node the rows reach at any length is known |
| Impact.PathOneMore | internal/service/metadata.go:368-382 | extending a path by an edge's target name names a real walk one edge longer |
| Impact.JoinPathGrows | internal/service/metadata.go:368-376 | a printed path is its names joined by arrows |
| ImpactAnalysis.GetImpactAnalysis | internal/service/metadata.go:328-405 | the report holds exactly the nodes other than the root at true distance at most 10 in the whole graph, each once, with that distance and the names along a real walk of that length; nearest first, at equal distance by name, at equal name by id |
| ImpactAnalysis.Report | internal/service/metadata.go:386-398 | the report is a permutation of the found nodes, nearest first, then by name, then strictly by id |
| ImpactAnalysis.RankedMeans | internal/service/metadata.go:390-398 | sorted means: distances do not decrease, at equal distance names do not, at equal name identifiers increase |
| TextOrder.LessMeans | internal/service/metadata.go:390-398 | texts compare at their first difference, and a proper prefix comes first |
| ImpactAnalysis.RankedUnique | internal/service/metadata.go:386-398 | the order (distance, name, id) decides the list, whatever order the map was walked in and whatever sort is used |
| ImpactAnalysis.BeforeTransitive | internal/service/metadata.go:390-398 | the comparison is transitive, so sorting by it is meaningful |
| Outbox.FirstDueUnique | internal/store/postgres_reliability.go:254-299 | without ties both stores select the same rows in the same order |
| Outbox.FirstDueMeans | internal/store/sqlite_reliability.go:290-300 | a selected row is pending or processing, due, and not under a live lease; older due instants go first and then older rows; no such row is passed over unless the limit is reached by rows no younger |
| Outbox.RetryDelay | internal/service/governance_event.go:389-406 | with wrapping 64-bit arithmetic and any base: below 2^62 ns, or at the first attempt, the doubling loop computes the capped power without overflow; from there on the second attempt's delay is negative |
| Outbox.DelayMonotone | internal/service/governance_event.go:389-406 | for a base within the cap the delay is min(base * 2^(attempt-1), 5 minutes), in nanoseconds, and never decreases |
| Outbox.DelayDefault | internal/service/governance_event.go:389-406 | without a positive base the delay starts from one second |
| OutboxStore.Store.SelectDue | internal/store/sqlite_reliability.go:290-300 | the selection is the first `limit` due, unleased rows by (next_attempt_at, created_at) |
| OutboxStore.Store.Claim | internal/store/sqlite_reliability.go:285-352 | the select-then-update loop leaves the same table and claims the same rows as the single-statement claim, its zero-rows branch is never taken, and each claimed row carries the given owner and lease end with one more attempt and nothing else changed |
| OutboxStore.Store.Enqueue | internal/store/sqlite_reliability.go:257-283 | a new event starts pending, due at once and without attempts; an event id already there inserts nothing |
| OutboxStore.Store.Mark | internal/store/sqlite_reliability.go:354-399 | a mark hits its row whatever status and lease it has, field by field: delivered with its time, dead exactly from the last attempt on, or pending again and due at the instant named; every lease is cleared |
| OutboxStore.Store.Replay | internal/store/sqlite_reliability.go:401-426 | exactly dead or failed rows are replayed, from a clean slate |
| OutboxStore.Store.ProcessOutbox | internal/service/governance_event.go:195-236 | an undisturbed round claims the first due rows and settles each by its own outcome and attempt number, leaving all others alone; a row that failed below the maximum can be claimed from the instant named for it on, and not before |
| OutboxStore.CountersAddUp | internal/store/sqlite_reliability.go:462-484 | each counter counts the rows of its own status, the four add up to the number of distinct event ids, and the query fails if and only if the table is empty and the sums are not coalesced |
| OutboxProtocol.EmptyStatistics | internal/store/sqlite_reliability.go:462-484 | in the initial state the SQLite statistics fail and the Postgres ones count zeros |
| OutboxProtocol.OutboxInvariant | internal/store/sqlite_reliability.go:257-426 | in every reachable state: lease fields exactly while processing, a pending row is claimable exactly from its due instant on and a processing one from its lease end on as well, dead letters and delivered rows are never claimable, delivered rows never replayable, counters add up to the events ever enqueued, and the statistics fail exactly before the first event in SQLite |
| OutboxProtocol.TableOkNext | internal/store/sqlite_reliability.go:257-426 | every step keeps the row invariant and the uniqueness of events |
| OutboxProtocol.AttemptsOkNext | internal/service/governance_event.go:363-387 | every step keeps the tokens in hand within the attempts issued |
| OutboxProtocol.SettledOnce | internal/service/governance_event.go:363-387 | in every run a claim is settled at most once, and never after its dispatcher has died |
| OutboxProtocol.ClaimsIncrease | internal/store/sqlite_reliability.go:318-329 | in every run, between two replays each later claim of a row gets a strictly larger attempt number |
| OutboxProtocol.ClaimHandsOut | internal/store/sqlite_reliability.go:318-349 | a claim takes the row's next attempt number and hands it out with the number of replays so far |
| OutboxProtocol.NoEarlyClaim | internal/store/sqlite_reliability.go:285-399 | in every run, no claim of a row comes before the instant its last retry mark or replay named for it |
| OutboxProtocol.ClaimLeases | internal/store/sqlite_reliability.go:285-352 | in every run, the next claim of a row before any mark or replay of it does not come before the lease end the last claim gave |
| OutboxProtocol.RetriesBounded | internal/service/governance_event.go:363-387 | in every run, at most max-1 failure marks from one epoch's claims leave the row to be tried again, with any number of dispatchers and late marks |
| OutboxProtocol.DeadAtMax | internal/service/governance_event.go:363-387 | with one dispatcher and a receiver that always fails, a row is sent at most max times and dead exactly from the max-th failure on |
| OutboxProtocol.RoundIsDispatch | internal/service/governance_event.go:195-236 | such a failing round is what a dispatch does to a selected row |
| OutboxProtocol.ClaimsAreOneClaim | internal/store/postgres_reliability.go:254-299 | claiming the selected rows one step at a time reaches the state of the set-based claim |
| OutboxProtocol.RoundIsRun | internal/service/governance_event.go:195-236 | a dispatch round from any reachable state is a run of the protocol |
| OutboxProtocol.DeliveredIsNotFinal | internal/store/sqlite_reliability.go:354-399 | a late failure mark reopens a delivered row, in a concrete run |
| OutboxProtocol.DeliveredStep | internal/store/sqlite_reliability.go:354-399 | a step keeps a delivered row delivered if and only if it is not a late failure mark on it |
| OutboxProtocol.DeliveredStays | internal/store/sqlite_reliability.go:354-399 | from a reachable state a delivered row stays delivered in every continuation if and only if no dispatcher holds a claim of it |
| SyncLease.LeaseExclusion | internal/service/source.go:328-400 | in every run of a safe configuration at most one session anywhere is inside a sync, up to the comparison's doubt before the lease end it last wrote, and at most one per process is active |
| SyncLease.ExclusionUnforced | internal/service/source.go:328-400 | without forced releases a one-step endSync alone gives exclusion up to the comparison's doubt before the lease end, whatever the staleness bound |
| SyncLease.HeldOrLapsedNext | internal/store/sqlite_reliability.go:18-38 | every step keeps a syncing session the owner of the row with the end it last wrote, unless that has lapsed |
| SyncLease.OwnedIsAlone | internal/service/source.go:402-421 | while a process owns an unexpired row, no session of another process is inside its lease, up to the comparison's doubt before its end, or up to the end itself where the comparison is exact |
| SyncLease.ExclusionCondition | internal/service/source.go:206-235 | for every configuration: exclusion up to the comparison's doubt before the lease end holds in all runs if and only if ending and forced release are single steps and the staleness bound covers time to live plus stamp resolution less the comparison's margin, or the time to live is below that margin |
| SyncLease.UnforcedCondition | internal/service/source.go:360-363 | without forced releases, exclusion up to the comparison's doubt holds in all runs if and only if ending is a single step or the time to live is below the margin |
| SyncLease.StrictCondition | internal/service/source.go:328-400 | exclusion up to the lease end itself holds in all runs if and only if the comparison is exact and the configuration is guarded |
| SyncLease.StrictUnforcedCondition | internal/service/source.go:328-400 | without forced releases, if and only if the comparison is exact and ending is a single step |
| SyncLease.EarlyTakeover | internal/store/sqlite_reliability.go:18-38 | with an inexact comparison a second process gets in before the first one's lease end, in every configuration and with no forced release |
| SyncLease.BasicsHold | internal/service/source.go:328-358 | in every configuration at most one session per process is active, and no lease ends further away than the time to live |
| SyncLease.GapInEndSync | internal/service/source.go:360-363 | dropping the mark before the row breaks exclusion for every time to live above the comparison's margin, without any forced release |
| SyncLease.GapInForceRelease | internal/service/source.go:219-234 | reading and then deleting breaks exclusion for every such time to live |
| SyncLease.EarlyForceRelease | internal/service/source.go:206-235 | a staleness bound below the exact one breaks exclusion |
| LeaseService.SourceService.BeginSync | internal/service/source.go:328-358 | starts exactly when the source is not in flight here and the row is free, own or found expired; a refusal leaves no trace |
| LeaseService.SourceService.EndSync | internal/service/source.go:360-369 | clears the mark and deletes the row only if it is still owned |
| LeaseService.SourceService.SyncLeaseOwned | internal/service/source.go:402-421 | true exactly for an own row that ends after now |
| LeaseService.SourceService.ForceReleaseStaleSyncLease | internal/service/source.go:206-235 | succeeds exactly on a missing row or one at least as old as the effective bound, and then no row is left |
| LeaseService.LeaseTable.TryAcquire | internal/store/sqlite_reliability.go:18-38 | the upsert takes the row exactly when it is absent, own or found expired by the store's comparison |
| LeaseService.BeginSyncIsSteps | internal/service/source.go:328-358 | beginSync is the protocol's begin, clock and acquire steps, with the same row, in-flight set and outcome, for every store comparison within the protocol's doubt |
| LeaseService.ExactWithinDoubt | internal/store/sqlite_reliability.go:18-38 | an exact comparison of instants errs by nothing, and without doubt it is the only one |
| LeaseService.EndAndRenewAreSteps | internal/service/source.go:360-400 | endSync and a renewal tick are protocol steps |
| LeaseService.ForceReleaseIsStep | internal/service/source.go:206-235 | a successful forced release is a protocol step |
| LeaseService.HalvesMakeAnEnd | internal/service/source.go:360-369 | the two halves of an endSync with nothing between them are the one-step one |
| LeaseService.HalvesMakeARelease | internal/service/source.go:219-234 | so are the two halves of a forced release |
| Timestamps.FieldsOrderSeconds | internal/service/source.go:340-347 | calendar field order is time order over all valid dates up to year 9999 |
| Timestamps.DaysBeforeYearIs | internal/service/source.go:340-347 | the calendar is the Gregorian one |
| Timestamps.OrderAcrossSeconds | internal/service/source.go:340-347 | whenever whole seconds differ, string order is time order |
| Timestamps.OrderWithinSecond | internal/store/sqlite_reliability.go:21-28 | within one second a later stamp compares greater if and only if the earlier fraction is not a prefix of the later one |
| Timestamps.OrderMisread | internal/store/sqlite_reliability.go:21-28 | at concrete stamps 05Z compares after 05.5Z, and 05.1Z after 05.12Z |
| Timestamps.StampsAre | internal/store/sqlite_reliability.go:21-28 | these stamps in print |
| Timestamps.WrongByLessThanASecond | internal/store/sqlite_reliability.go:290-298 | a text comparison that disagrees with time is off by less than one second |
| Timestamps.TextGuardWithinDoubt | internal/store/sqlite_reliability.go:18-38 | the text guard of the lease row stays within the protocol's tolerance of one second |
| TextLease.CivilOfIs | internal/service/source.go:340-347 | every instant of the years 0 to 9999 is that of its calendar form |
| TextLease.StampReadsBack | internal/service/source.go:340-347 | every valid stamp is the calendar form of its instant |
| TextLease.TextWithinDoubt | internal/store/sqlite_reliability.go:18-38 | SQLite's comparison of instants by their texts errs by less than a second, so the lease methods are protocol steps with it |
| TextLease.TextErrs | internal/store/sqlite_reliability.go:18-38 | it errs, early or late, if and only if the two stamps share their second and the earlier one's fraction begins the later one's |
| TextLease.MicrosWithinDoubt | internal/store/postgres_reliability.go:21-36 | Postgres' comparison of microseconds errs by less than one of them |
| TextLease.MicrosErr | internal/store/postgres_reliability.go:21-36 | it errs only early, if and only if both instants are stored as the same microsecond |
| TextLease.MicrosNearest | internal/store/postgres_reliability.go:21-36 | Postgres keeps an instant to the nearest microsecond |
| TextLease.Takeover | internal/service/source.go:328-358 | wherever the store finds a running lease expired, a second service begins a sync before the first one's lease end |
| TextLease.TextTakeover | internal/store/sqlite_reliability.go:18-38 | with SQLite's comparison, at concrete instants |
| TextLease.MicrosTakeover | internal/store/postgres_reliability.go:21-36 | with Postgres' comparison, at concrete instants |
| AlertMatching.NormalizeAlertChangeTypes | internal/service/alert.go:529-559 | the loop with its early exits computes "all" if some trimmed token is "all", else the distinct tokens in order of first occurrence, else an error |
| AlertMatching.NormalizedMeans | internal/service/alert.go:529-559 | the result is "all" if and only if a token is, an error if and only if there is none, and otherwise parses back to the distinct clean tokens |
| AlertMatching.NormalizeMeans | internal/service/alert.go:529-559 | from the trimmed comma parts of the value: "all" if one of them is, an error if all are empty, else a list that parses back to the distinct non-empty ones in the order in which they first occur |
| AlertMatching.TrimIs | internal/service/alert.go:529-559 | trimming removes the blanks at both ends, all of them, and nothing else |
| AlertMatching.NormalizeIdempotent | internal/service/alert.go:529-559 | normalizing twice, outer trim included, is normalizing once |
| AlertMatching.NormalizedTight | internal/service/alert.go:529-559 | what normalization returns neither starts nor ends with a blank |
| AlertMatching.SplitJoin | internal/service/alert.go:529-559 | splitting at commas undoes joining comma-free tokens |
| AlertMatching.WrappedContains | internal/store/sqlite_alert.go:124-139 | a comma-wrapped substring search finds exactly the runs of consecutive listed tokens |
| AlertMatching.MatchersMean | internal/store/postgres_alert.go:112-125 | on any normalized value: "all" matches everything in both stores; else Postgres tests membership, and SQLite looks, up to blanks, for the change type's comma parts as consecutive tokens |
| AlertMatching.ListMatchers | internal/store/sqlite_alert.go:124-139 | the same stated of any list of clean tokens other than "all" |
| AlertMatching.MatchersAgree | internal/store/sqlite_alert.go:124-139 | on any normalized value the stores agree if and only if it is "all", lists the change type itself, or does not have its comma parts as consecutive tokens up to blanks |
| AlertMatching.BlankFreeAgree | internal/store/postgres_alert.go:112-125 | with blank-free tokens and change type both are plain membership |
| AlertMatching.BlankDisagrees | internal/store/sqlite_alert.go:124-139 | a blank inside a token separates the stores |
| AlertMatching.CommaDisagrees | internal/store/sqlite_alert.go:124-139 | a comma in the change type separates the stores |
| Ddl.QuoteRoundTrip | internal/service/ddl.go:295-302 | scanning a printed identifier gives the name back and stops at its closing quote, for every name |
| Ddl.QuoteInjective | internal/service/ddl.go:295-302 | different names never print alike |
| Ddl.KeyListRoundTrip | internal/service/ddl.go:45-48 | the printed key list parses back to the names in order, whatever commas, parentheses or quotes they contain |
| Ddl.GenerateDDL | internal/service/ddl.go:27-91 | the statement ends in a key list of exactly the key columns' names in column order, or has none when there is no key; behind the table name it reads as one definition per column, in order, each with its quoted name, its type, NOT NULL if and only if not nullable, DEFAULT if and only if its text is not empty, and UNIQUE if and only if MySQL, unique and not a key |
| Ddl.ColumnRead | internal/service/ddl.go:93-135 | a printed definition reads back as its quoted name, its type and exactly the clauses the column calls for |
| Ddl.DefinitionsRead | internal/service/ddl.go:93-135 | so do all definitions of a statement, in column order |
| Ddl.KeysReadBack | internal/service/ddl.go:35-48 | from the start of the key list on, the printed statement parses back to the key names |
| Ddl.StatementReadsBack | internal/service/ddl.go:27-53 | searching the statement for the last key list in it finds the key names in column order, whatever the names, types and defaults contain |
| Ddl.OddInside | internal/service/ddl.go:45-48 | no text inside a key list can pass for another one: what follows an opening parenthesis there has an odd number of quotes |
| Ddl.KeyNamesAre | internal/service/ddl.go:73-86 | the list is the names of exactly the primary-key columns, in column order and with multiplicity |
| Ddl.TableReadBackMySQL | internal/service/ddl.go:27-31 | the table name can be read back from a MySQL statement |
| Ddl.TableReadBackPostgres | internal/service/ddl.go:56-69 | schema (or "public") and table name can be read back from a Postgres statement |
| DataQuality.BuildRuleQueries | internal/service/dq_executor.go:256-367 | an error exactly for a missing column, an unbounded range or an empty enum; otherwise the query expresses the rule and its placeholders are numbered in printed order, one per argument |
| DataQuality.BuildRange | internal/service/dq_executor.go:307-321 | each bound is compared in the right direction with its own argument |
| DataQuality.BuildEnum | internal/service/dq_executor.go:333-339 | one placeholder per value, in order |
| DataQuality.AppendLimit | internal/service/dq_executor.go:427-434 | the limit is one more argument in the next placeholder, five when not positive |
| DataQuality.CondMeans | internal/service/dq_executor.go:256-367 | under SQL null semantics the condition is true of exactly the cells that break the rule |
| DataQuality.IgnoresCaseMeans | internal/service/dq_executor.go:465-478 | a Postgres regex rule ignores case exactly when its flags, in lower case, hold an i |
| DataQuality.SampleMeans | internal/service/dq_executor.go:256-367 | the sample shows each cell that breaks the rule as often as it stands in the column, and for unique each repeated value once |
| DataQuality.GroupsCover | internal/service/dq_executor.go:277-285 | each non-null cell lies in exactly one duplicate group |
| DataQuality.FailedCount | internal/service/dq_executor.go:256-367 | for all six rule types 0 <= failed <= total; for unique, failed is the non-null rows minus the distinct values |
| DataQuality.ExecuteRule | internal/service/dq_executor.go:82-90 | the rounded rate lies in [0,100] within 0.005 of the exact one; it reads 100 if and only if at most one row in 20000 failed; failed status if and only if some row failed |
| DataQuality.ExactTimes | internal/service/dq_executor.go:82-90 | the exact rate is the passed share of the rows in percent |
| DataQuality.RunRule | internal/service/dq_executor.go:36-107 | from rule to result on one snapshot: the failed rows are those that break the rule, with the bounds above |
| MongoInference.Extractor.ExtractFields | internal/scanner/mongodb.go:189-209 | adds to the counters exactly what one pass over the document records |
| MongoInference.Extractor.ExtractFieldsGeneric | internal/scanner/mongodb.go:212-232 | the second of the two mutually recursive extractors adds the same |
| MongoInference.Extractor.ExtractAll | internal/scanner/mongodb.go:137-145 | the counters accumulate over all sampled documents |
| MongoInference.HitsAre | internal/scanner/mongodb.go:189-232 | a document records, at each path, exactly its type there, once |
| MongoInference.CountersAre | internal/scanner/mongodb.go:137-145 | a path's counters are per-type document counts whose total is the number of documents containing it |
| MongoInference.ChildWithinParent | internal/scanner/mongodb.go:189-232 | a child's total never exceeds its parent's "object" count |
| MongoInference.GetParentPath | internal/scanner/mongodb.go:301-308 | the text before the last dot, or nothing without a dot |
| MongoInference.ParentPathIs | internal/scanner/mongodb.go:301-308 | for plain keys that text is the path without its last key |
| MongoInference.PathsClosed | internal/scanner/mongodb.go:301-308 | the recorded paths are closed under taking the parent |
| MongoInference.DottedKeyExample | internal/scanner/mongodb.go:189-209 | a dotted key breaks that closure |
| MongoInference.ClosedExactly | internal/scanner/mongodb.go:189-232 | for documents with any keys, the recorded paths are closed under the parent if and only if the path of every dotted key has its parent among them |
| MongoInference.InferColumn | internal/scanner/mongodb.go:149-171 | in any order the chosen type is one of maximal count, confidence its share, nullable if and only if types are mixed |
| MongoInference.NullableIsMixed | internal/scanner/mongodb.go:162-171 | a field is inferred nullable if and only if two documents have it with different types |
| MongoInference.NullableAsPromised | internal/scanner/mongodb.go:162-171 | "nullable when some document lacks the field" holds if and only if its types are mixed exactly when some document lacks it |
| MongoInference.NullabilityMisread | internal/scanner/mongodb.go:162-171 | from concrete documents, a field that one lacks is inferred not nullable and a field that none lacks nullable |

## Left out

- SyncIdempotence.SyncTwice: the second sync is only considered on a store whose keys are distinct, like every sync (`StoreKeysDistinct`); `KeysAfterSync` says when the first leaves such a store, and `SilentKeysDistinct` that it does whenever the second would be silent.
- Ddl.StatementReadsBack: statements with a key only; in one without, a type or default text could imitate a key list.
- DataQuality.ExecuteRule: rates are real numbers, not float64; failed and total are counts of one snapshot, though the program runs two queries.
- SourceSync.SaveSchema: only UNIQUE violations make a statement fail. Other failures, by CHECK constraints (object types), column lengths (`object_name VARCHAR(255)` holds "table.column"), drivers and connections, are not modelled, so "commits if and only if" is about scans that meet those.
- Row time stamps, change identifiers and detection times, column mappings and tags that cascade with a column, and DECIMAL(3,2) overflow.
- The journal's printed `object_name`: kept as table and column, because a printed dot can be ambiguous.
- Non-finite and negative-zero float64 confidences, and float64 rounding in general.
- TriggerSync around the sync: status writes, scanning, notifying alert rules and publishing events after the commit.
- The outbox protocol compares instants exactly; how the stores' comparisons distort them is carried through the lease protocol only.
- Event payloads, signing, HTTP delivery: an arbitrary success or failure per claimed row.
- Alert rule selection by scope, notifications, webhook sending and its retry loop.
- The sort library: modelled as insertion into sorted order, which `RankedUnique` shows is immaterial.
- GetLineageUpward: the mirror image of the downward query.
- Type and default-value mapping in DDL: their text is a parameter of a column.
- The custom_sql rule. Order and pattern matching are parameters (`Engine`); equality in NOT IN, GROUP BY and EXISTS is plain equality of values, so collations that equate different texts are not modelled.
- The MySQL and Postgres scanners, MongoDB type names and their SQL mapping, arrays (counted as one type).
- HTTP handlers, authentication, encryption, scheduling, tags, terms, users, dashboards, the SQL validator and the user interface: they would only add easy members.
