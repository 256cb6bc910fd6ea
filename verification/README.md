# A model of the documents module

This project models the parts of the documents module, its migration scripts and its recovery scripts that carry an
algorithm, and proves what those algorithms promise. `dafny verify dfyconfig.toml` checks all of it.

Tables are sequences or maps of records, texts are `string`, hashes are compared as what they hash, and a moment is its
ISO text, ordered like any other text. Code that changes state step by step is a method or a class with its fields, proved
against a function of the old state; the properties are lemmas about those functions, over single calls, whole runs and
interleavings.

| file | what it models |
|---|---|
| `Pagination.dfy`, `DocumentQuery.dfy` | keyset order, batches, the bounded scan behind a visibility filter, cursors |
| `MigrationSteps.dfy`, `MigrationGate.dfy`, `SchemaMigration.dfy` | migration files and histories, the release gate, applying and checking migrations |
| `SqliteImport.dfy` | the equal-skip, diverge-fail import with its manifest |
| `ProfileSeeding.dfy` | any number of concurrent seeders behind one transaction lock |
| `OptimisticLock.dfy` | compare-and-mutate on the event token, interleaved with releases that supersede |
| `Validation.dfy`, `Releases.dfy`, `Registry.dfy` | state invariants, superseding and releasing, registry rebuild and drift |
| `WorkflowProfiles.dfy`, `SeedReader.dfy`, `ProfileStore.dfy` | profile validator, runtime form and walk; the legacy reader; the relational store |
| `CommentSync.dfy` | reconciling extracted DOCX comments with stored ones |
| `SqlScanner.dfy`, `SqlRestripping.dfy`, `SqlSplitter.dfy` | comment stripping, once and twice, and the two splitters of the persistence gate |
| `Artifacts.dfy`, `ReadTracking.dfy` | current artifacts and the two PDF look-ups; tracked reading and its receipt |
| `Contracts.dfy`, `Sequences.dfy`, `Text.dfy` | shared records, filtering and sorting, text order |

Where the code and its surroundings differ, the model follows the code:

* `start` takes a minimum of seconds per page and stores it, but completion is decided by a fixed threshold of ten
  seconds (`ReadTracking.ReceiptIffEveryPageRead`; `ReadTracking.MinimumIsIgnored` is a case).
* Recording a dwell reads the seconds so far and writes an absolute number back, without a transaction. If two calls overlap
  on a page, seconds are lost and a completed page may become incomplete (`ReadTracking.LateWriteUncompletes`). The seconds
  are the sum of the dwells at every point of a run exactly if none are written to the page between another call's reading
  and its write (`ReadTracking.SecondsAreTheSumIffNoneBetween`), so with calls one after another they always are
  (`ReadTracking.SecondsAreTheSumSerially`).
* Superseding stores a state without a new event id, so a client whose token is still current can commit on a state it has
  not read (`OptimisticLock.SupersedeSlipsThrough`). The states alone decide it. While transactions write one at a time, as
  under SQLite's `BEGIN IMMEDIATE`, it happens exactly if the client read the version approved and it is archived by now
  (`OptimisticLock.SerialCommitsRunOnWhatWasRead`). On PostgreSQL two releases may have listed the same approved version.
  If both write, which takes that the version of the first is archived before the second approves its own, it also happens
  to a client that read it archived (`OptimisticLock.ArchivedTwiceSlipsThrough`). The condition that is exact for every
  interleaving is `OptimisticLock.CommitsRunOnWhatWasRead`.
* A release lists the versions without locking them and later writes whole rows back. On PostgreSQL a change request that
  commits in between is overwritten, together with its event token (`OptimisticLock.LateWriteLosesARequest`). The requests
  are all there at every point of a run exactly if no commit falls into such a gap
  (`OptimisticLock.RequestsAreLostIffCommitBetween`), so with one writer at a time none is lost
  (`OptimisticLock.NoChangeRequestIsLostSerially`).
* The gate hashes text with CRLF replaced by LF, a step's checksum hashes text as read in text mode. Equal gate texts have
  equal checksums; the converse holds exactly if a CR is left at the same places (`MigrationGate.GateDigestMeansChecksumAndCrs`),
  so always on files without a lone CR. Normalising first and reading afterwards is reading exactly if no CR stands directly
  before a CRLF (`MigrationGate.NormalisationsComposeIff`).
* The gate never discovers the base tree. Its append-only check stands in for that: with a valid current chain and nothing
  deleted it implies that the base chain is valid (`MigrationGate.AppendOnlyMeansValidBase`). Without it a release might fill
  a gap of the base (`MigrationGate.FilledGapIsNotAppended`). Of two valid chains it would follow from no deletion
  (`MigrationGate.DeletionFreeReleasesAppend`).
* An import also fails when a row's other unique columns are held by another row, so keys alone do not decide it
  (`SqliteImport.ImportFailsIffClash`).
* A comment sync does not refuse a key that an extraction brings twice beforehand; the natural unique index stops it
  (`CommentSync.SyncKeepsComments`).
* The drift checker takes the last approved version it scans, so with two approved versions of a document even a fresh
  rebuild may drift (`Registry.RebuildThenCheck`; `Registry.TwoApprovedDrift` is a case).
* The validator does not look at disabled transitions, but the transition table does: a definition can pass the validator
  and still be refused when it is stored (`ProfileStore.ImportSucceedsIff`; `ProfileStore.DisabledTransitionIsRefused`).
* Storing a new artifact and clearing the older ones of its slot are two writes. Between them a slot has two current
  artifacts, and the two look-ups differ (`Artifacts.TwoCurrentDisagree`); the completed creation settles it
  (`Artifacts.CreationSettlesSlot`). `Artifacts.ChoicesAgree` says of every listing whether they agree.
* Stripping comments may put two characters side by side that open a new comment. When that happens is
  `SqlRestripping.StrippingTwiceIsOnceIff`.
* The reader's remapping of a first phase IN_PROGRESS never acts, because normalising has turned it into DRAFT before
  (`SeedReader.NormalizedIsNeverInProgress`).

## Model

| member | source | states |
|---|---|---|
| Pagination.CursorTestMatchesComparator | modules/documents/service.py:782-801 | the "is the row behind the cursor" test and the sort comparator are the same strict total order for both directions: exactly one of behind, equal, before |
| Pagination.AfterIsTransitive | modules/documents/service.py:793-801 | that order is transitive although the primary key runs either way and the tie-breakers always upward |
| Pagination.AnswerIsSorted | modules/documents/service.py:770-805 | the answer to a query holds each matching row once, in strict order |
| Pagination.SortedIsUnique | modules/documents/sqlite_repository.py:227-286 | strictly sorted rows are determined by their members, so the database and the in-memory path answer alike |
| Pagination.RemainingIsSuffix | modules/documents/service.py:793-805 | what lies behind any cursor is a suffix of the answer, also if the cursor's own row no longer matches |
| Pagination.RemainingAfterRow | modules/documents/service.py:793-805 | a cursor made from a row leaves exactly the rows after it |
| DocumentQuery.CursorRoundTrip | modules/documents/service.py:164-244 | a cursor decodes to its position for the query that issued it and is refused for every other query |
| DocumentQuery.DocumentsService.QueryInMemory | modules/documents/service.py:760-807 | the in-memory batch is the first rows of the answer behind the cursor, and says whether there are more |
| DocumentQuery.DocumentsService.QueryRepository | modules/documents/sqlite_repository.py:227-286 | the repository batch, selecting before sorting and fetching one row more, is the same batch |
| DocumentQuery.SelectThenSort | modules/documents/sqlite_repository.py:227-286 | selecting behind the cursor and then sorting gives what dropping after sorting gives |
| DocumentQuery.DocumentsService.ConsumeBatch | modules/documents/service.py:725-737 | going through a batch collects exactly the readable rows up to the limit, stops at the row that fills the page, and leaves the cursor on the last row looked at |
| DocumentQuery.DocumentsService.JudgeBatch | modules/documents/service.py:738-749 | a full page carries its last row as cursor exactly if rows are left, inside or behind the batch |
| DocumentQuery.DocumentsService.ScanPage | modules/documents/service.py:695-758 | the nested, capped loop yields the page of a plain row-by-row scan with a budget of 1000 rows |
| DocumentQuery.ScanStopsOnce | modules/documents/service.py:699-749 | a scan that ends with the rows, the budget or the row filling the page ends in one place only |
| DocumentQuery.DocumentsService.QueryDocumentVersionsForActor | modules/documents/service.py:673-758 | errors first, then the page at the cursor's position in the answer |
| DocumentQuery.CursorAdvances | modules/documents/service.py:738-758 | a page's cursor is accepted again, lies strictly behind the one before, and leaves exactly the rows not scanned |
| DocumentQuery.FollowIsComplete | modules/documents/service.py:673-758 | repeating a request with each answer's cursor ends, and the pages put together are the readable rest of the answer, in order |
| DocumentQuery.PaginationEnumeratesReadableAnswer | modules/documents/service.py:673-758 | starting without a cursor this gives exactly the matching rows the actor may read, each once, sorted, for every store, actor, filter, sort, order and page size |
| DocumentQuery.EnumerationByFields | modules/documents/repository.py:47-56 | the same without the keys: the rows listed are those that match every filter and that the actor may read, and any two of them stand in order by title, by status word, or by last update with its fallbacks to the last event and the creation, upward or downward as asked, and by document and version where these are equal |
| DocumentQuery.RefusalsByFields | modules/documents/service.py:673-758 | a request is refused for its sort field, its order, its limit, or a cursor of another format or of another question, in this order, and answered otherwise |
| DocumentQuery.ShortPageMeansBudgetSpent | modules/documents/service.py:699-758 | a page shorter than the limit that carries a cursor has looked at the full budget of rows |
| MigrationSteps.ReadingFactorsThroughReplacement | modules/documents/postgres_schema.py:67-73 | reading in text mode is replacing CRLF and then every CR that is left |
| MigrationSteps.NamesReadBack | modules/documents/postgres_schema.py:83-115 | a file name is read as a version and a name exactly if it is those written: four digits, an underscore, small letters, digits and underscores, and .sql |
| MigrationSteps.DiscoverMigrations | modules/documents/postgres_schema.py:83-115 | discovery parses every file name or fails, and accepts only unique versions and names, contiguous from 1 |
| MigrationSteps.DiscoveredSteps | modules/documents/postgres_schema.py:83-115 | discovered steps are numbered 1..n in file-name order, one for each file, with the file's name and content |
| MigrationSteps.UnreadableNames | modules/documents/postgres_schema.py:83-115 | a name that cannot be read fails the discovery, under that name, and before everything else; so does a directory without migrations |
| MigrationSteps.ValidateHistoryPrefix | modules/documents/postgres_schema.py:268-288 | the check, error by error |
| MigrationSteps.HistoryCheckAcceptsPrefixes | modules/documents/postgres_schema.py:268-288 | it accepts exactly the histories that are a prefix of the steps in version, name and checksum |
| MigrationSteps.HistoryByFields | modules/documents/postgres_schema.py:268-288 | each answer on the rows' own fields: numbers from one, no more rows than steps, and the first row whose name or content differs from its step's under its number |
| MigrationGate.EvaluateGate | scripts/documents_postgres_migration_gate.py:88-219 | each check of the gate holds exactly when its meaning does, the report is ok exactly if the chain checks pass with the others, and none of the base checks passes without a readable base |
| MigrationGate.BaseChecksByName | scripts/documents_postgres_migration_gate.py:99-219 | on names and texts: nothing is deleted if every base name is kept, and the base is immutable if every kept file is readable and no current file of its name differs in more than its line ends |
| MigrationGate.NewFilesByName | scripts/documents_postgres_migration_gate.py:202-219 | and a tree only appends if each new file has a positive number higher than every number of the base |
| MigrationGate.GateMeansExtension | scripts/documents_postgres_migration_gate.py:99-219 | the gate's own checks (valid current chain, no deletion, immutable, append-only) pass exactly if every kept base file is readable and the current chain is valid and extends a valid base chain, up to the gate's text normalisation, or the base is empty |
| MigrationGate.AppendOnlyMeansValidBase | scripts/documents_postgres_migration_gate.py:202-219 | a base whose files are all kept in a valid chain that only appends is a valid chain itself, although the gate never discovers it |
| MigrationGate.FilledGapIsNotAppended | scripts/documents_postgres_migration_gate.py:202-219 | without the append-only check this fails: a base with a gap, all of whose files are kept by a tree that fills the gap, is no chain |
| MigrationGate.DeletionFreeReleasesAppend | scripts/documents_postgres_migration_gate.py:202-219 | with valid chains, a release that deletes nothing only appends |
| MigrationGate.GateKeepsHistoriesValid | scripts/documents_postgres_migration_gate.py:99-219 | for a tree that passes the gate, the base is valid or empty and every history it accepts, as well as an empty one, is accepted by the tree |
| MigrationGate.SameGateTextSameChecksum | scripts/documents_postgres_migration_gate.py:27-30 | files the gate takes as equal have equal step checksums, through two different newline normalisations |
| MigrationGate.GateDigestMeansChecksumAndCrs | scripts/documents_postgres_migration_gate.py:27-30 | gate digests are equal exactly if the checksums are and the replaced texts have their CR at the same positions |
| MigrationGate.DigestsAgreeWithoutLoneCr | scripts/documents_postgres_migration_gate.py:27-30 | so on files without a lone CR the two digests tell the same files apart |
| MigrationGate.GateIsStricterThanChecksum | scripts/documents_postgres_migration_gate.py:27-30 | a failing instance: two files with equal checksums that the gate tells apart |
| MigrationGate.NormalisationsComposeIff | modules/documents/postgres_schema.py:67-73 | reading the replaced text is reading the text exactly if no CR stands directly before a CRLF |
| MigrationGate.NormalisationsDoNotCompose | scripts/documents_postgres_migration_gate.py:27-30 | a failing instance: reading a text whose CRLF was replaced is not always reading the text |
| SchemaMigration.Database.Migrate | modules/documents/postgres_schema.py:574-639 | a run, with any step failing and rolling back, leaves the state and outcome of the reference attempt |
| SchemaMigration.AttemptExecutesScripts | modules/documents/postgres_schema.py:574-639 | there are databases from the one found to the one left, each made from the one before by executing the next step's script and recording its version, name, checksum and the fingerprint of the schema it leaves; the attempt stops before the first step whose connection, script or contracts fail, and with all steps applied it is Ok or fails on the contracts of the finished schema |
| SchemaMigration.RefusalsSayWhy | modules/documents/postgres_schema.py:574-639 | a database that may not be migrated is left as it is and refused for a gap in its history, a newer history, a mismatch, a bootstrap or a drift, whichever comes first |
| SchemaMigration.Database.AssertRuntimeSchemaReady | modules/documents/postgres_schema.py:642-667 | the readiness check, error by error, without touching the database |
| SchemaMigration.AttemptKeepsConsistency | modules/documents/postgres_schema.py:574-639 | at every point where a run may stop, the history is a contiguous matching prefix and its last fingerprint is the schema's; a success leaves the target version |
| SchemaMigration.ReadyMeansReady | modules/documents/postgres_schema.py:642-667 | a database is at its target exactly if history, version and fingerprint checks all pass |
| SchemaMigration.UnreadySaysWhy | modules/documents/postgres_schema.py:642-667 | a database that is not ready is refused for the first thing wrong with it |
| SchemaMigration.RerunCompletes | modules/documents/postgres_schema.py:574-639 | a run after a broken one ends as an unbroken run would have |
| SchemaMigration.FurtherRunAppliesNothing | modules/documents/postgres_schema.py:574-639 | a run after a successful one changes nothing and succeeds |
| SchemaMigration.GatedReleasesNeverStrandADatabase | modules/documents/postgres_schema.py:574-639 | over any sequence of gated releases, migrated by any of them in any order, breaking anywhere, the database stays consistent for the newest |
| SchemaMigration.PassedGatesNeverStrandADatabase | modules/documents/postgres_schema.py:574-639 | the same from the gate's checks alone: trees of files that each passed the gate against the one before, the first against an empty base |
| SqliteImport.Importer.ImportCore | modules/documents/sqlite_pg_import.py:144-197 | the core loop commits row by row: inserted, skipped if equal, failing on the first difference, dying anywhere |
| SqliteImport.Importer.ApplyProfiles | modules/documents/sqlite_pg_import.py:742-795 | the profile tables are applied in one transaction: all of them or none |
| SqliteImport.Importer.ImportSqliteToPostgres | modules/documents/sqlite_pg_import.py:85-287 | resume check, manifest, preflight in its order, transfer and final fingerprint, with the rows and manifest of the reference import |
| SqliteImport.OtherSnapshotsAreRefused | modules/documents/sqlite_pg_import.py:919-939 | next to the manifest of another snapshot, or one that cannot be read, the import fails for that reason and changes nothing, and it fails for that reason in no other case |
| SqliteImport.ChecksBeforeWriting | modules/documents/sqlite_pg_import.py:85-287 | the profile graph, the profile target and the artifact files are checked in this order before the first row is written |
| SqliteImport.ManifestSaysHowItEnded | modules/documents/sqlite_pg_import.py:85-287 | the manifest left names the snapshot and says completed with the counts, failed, or in progress after a death |
| SqliteImport.ImportAddsTheSnapshot | modules/documents/sqlite_pg_import.py:144-287 | only core records are added, or all records of the snapshot; a completed import has every record in the target with its payload, counts as inserted just what was not there and as skipped the rest |
| SqliteImport.OutcomeAtStop | modules/documents/sqlite_pg_import.py:144-197 | inserted and skipped rows together are the rows passed before the import stopped |
| SqliteImport.ExistingRowsUnchanged | modules/documents/sqlite_pg_import.py:144-197 | no row of the target is ever changed or removed |
| SqliteImport.AddedRowsAreSourceRows | modules/documents/sqlite_pg_import.py:144-197 | what is added are source rows and nothing else, and every passed row is there with its payload |
| SqliteImport.ResumeRows | modules/documents/sqlite_pg_import.py:144-197 | stopped after any row and rerun, the core import ends with the rows and outcome of one run |
| SqliteImport.TransferResumes | modules/documents/sqlite_pg_import.py:144-207 | the same for the whole transfer, dying in the core rows, in the profile transaction or after it |
| SqliteImport.CrashThenRerun | modules/documents/sqlite_pg_import.py:85-287 | the same through the manifest: an interrupted import may be resumed and ends with the rows, outcome and status of one run |
| SqliteImport.CrashesThenRerun | modules/documents/sqlite_pg_import.py:85-287 | after any number of attempts on one snapshot, each dying anywhere or failing, a run that survives ends with the rows, verdict and status of a single one |
| SqliteImport.FurtherImportInsertsNothing | modules/documents/sqlite_pg_import.py:144-207 | after a complete import another one inserts nothing and skips every row |
| SqliteImport.ImportFailsIffClash | modules/documents/sqlite_pg_import.py:144-207 | an import of a consistent source fails exactly if a row is already present with another payload or another row holds its unique columns |
| ProfileSeeding.ActKeepsInvariant | modules/documents/api.py:89-140 | every step of every seeder, a crash included, keeps the stock empty or one whole seed |
| ProfileSeeding.CommittedStockStays | modules/documents/api.py:89-140 | a committed seed is never changed again |
| ProfileSeeding.SeedingIsAtomic | modules/documents/api.py:113-140 | at every point of every interleaving the committed stock is empty or exactly one seeder's definitions, versions, transitions and bindings with one import row, and nobody is refused a re-seed |
| ProfileSeeding.LaterSeedersOnlyCheck | modules/documents/api.py:120-128 | seeders that had not looked when a seed was committed only check consistency, or die |
| ProfileSeeding.ObservingByFields | modules/documents/api.py:120-134 | any definition sends a seeder to the check, any import or type binding without one refuses the seeding, and otherwise it goes on to import |
| ProfileSeeding.CheckingByFields | modules/documents/workflow_profile_store.py:693-713 | the check passes exactly if each of the six document types is bound |
| ProfileSeeding.SeedRowsByFields | modules/documents/workflow_profile_store.py:590-650 | an import writes each profile's definition, version and transitions, one binding per type, external_control for EXT and long_release for the rest, and its own row, and nothing else |
| ProfileSeeding.SeededWhenAllHaveEnded | modules/documents/api.py:113-140 | a seeder that has ended is rejected only for a seed that cannot be imported, and if it could be and has not died, the stock is seeded |
| ProfileSeeding.NoDeadlock | modules/documents/api.py:114-119 | while a seeder is unfinished, some seeder can go on without crashing |
| ProfileSeeding.RunsEnd | modules/documents/api.py:113-140 | every action brings the end nearer: no run is longer than what its seeders have to do, so with the former every run can be brought to an end |
| OptimisticLock.AdmissionIsSafe | modules/documents/service.py:1585-1620 | an operation is let through exactly for an authorised actor with the current token, and a conflict with the current state is shown exactly to an authorised actor with another token |
| OptimisticLock.AdmissionByFields | modules/documents/service.py:1585-1620 | each answer on the version's own fields: unreadable is not found, without an actor or with a stranger to the guard it is denied or, with a stale token, not found, and an authorised actor with a stale token is shown the conflict |
| OptimisticLock.DocumentsService.MutateVersionIfCurrent | modules/documents/service.py:1564-1620 | the locked state is authorised, compared and mutated in this order; an error stores nothing |
| OptimisticLock.UpdateMetadataByFields | modules/documents/service.py:978-1024 | a metadata update by the owner or the quality manager takes over a title that is not blank, trimmed, and requests if given, notes event, actor and time, and changes nothing else |
| OptimisticLock.AddChangeRequestByFields | modules/documents/service.py:1026-1078 | a change request needs an id and a reason that are not blank and an id not used yet, compared trimmed; it comes behind the others under the actor's name, and nothing else changes but the event |
| OptimisticLock.LateArchiveByFields | modules/documents/postgres_repository.py:97-207 | a late write puts what was noted, archived for the new version, over whatever is stored, but for creation time and edit signature if these are set there |
| OptimisticLock.MutatingByFields | modules/documents/service.py:1564-1620 | in a run an operation is stored and noted as a commit exactly if its user may read the stored state, the token is the one read and the operation succeeds; nothing else that anyone has noted changes |
| OptimisticLock.RunKeepsInvariant | modules/documents/service.py:1735-1754 | under any interleaving of reads, mutations, listings and late writes of archived forms, all that anyone remembers under one token is one state or an approved state with its archived forms, and what differs from the stored state under its token has been archived since |
| OptimisticLock.CommitsRunOnWhatWasRead | modules/documents/service.py:1564-1620 | a committed operation ran on another state than its client had read exactly if it ran on an archived one and the client had read it approved, or archived with other marks; a client that read neither approved nor archived runs on what it read |
| OptimisticLock.SerialCommitsRunOnWhatWasRead | modules/documents/sqlite_repository.py:377-397 | with one writer at a time the condition is: read approved, ran on archived; a client that did not read it approved runs on what it read |
| OptimisticLock.SupersedeSlipsThrough | modules/documents/service.py:1735-1754 | the failing case exists for every approved state with its release event, even with one writer at a time: read, supersede, mutate with the token that is still current |
| OptimisticLock.ArchivedTwiceSlipsThrough | modules/documents/service.py:1735-1754 | with two releases that listed the same approved state, a client that read what the first archived commits on what the second archived |
| OptimisticLock.NoChangeRequestIsLost | modules/documents/service.py:1026-1078 | with clients that only add change requests and no commit between a listing and its write, the stored requests are the initial ones followed by id, reason and author of each commit, in commit order, with pairwise distinct ids |
| OptimisticLock.NoChangeRequestIsLostSerially | modules/documents/sqlite_repository.py:377-397 | so they are in every interleaving of a store that lets one writer in at a time |
| OptimisticLock.RequestsAreLostIffCommitBetween | modules/documents/postgres_repository.py:97-207 | all successful requests are stored at every point of a run if and only if no commit falls between a release's listing of the versions and its write of the archived row |
| OptimisticLock.LateWriteLosesARequest | modules/documents/postgres_repository.py:329-339 | the failing run exists for every approved state: list, read, commit a request, write the archived row; the request is gone and its predecessor's token is back |
| Validation.ArchiveKeepsInvariants | modules/documents/validation.py:69-89 | archiving an approved state that meets the invariants gives a state that meets them |
| Validation.InvalidStates | modules/documents/validation.py:69-89 | which states are invalid, reason by reason |
| Validation.ArchiveByFields | modules/documents/service.py:1735-1754 | archiving sets status, workflow flag, time, user and superseding version, and nothing else |
| Releases.DocumentsService.StoreState | modules/documents/service.py:1558-1562 | storing checks the invariants first and replaces the row of that version, or nothing |
| Releases.StoreByFields | modules/documents/postgres/migrations/0001_initial.sql:77-79 | storing refuses an invalid state, then a second approved version of its document, and otherwise replaces the row of that key or adds one |
| Releases.DocumentsService.SupersedeOtherApprovedVersions | modules/documents/service.py:1735-1754 | on stored states that meet the invariants it cannot fail and changes exactly the other approved versions of the document |
| Releases.SupersedingClearsTheWay | modules/documents/service.py:1735-1754 | afterwards no other version of the document is approved and all invariants still hold |
| Releases.DocumentsService.AcceptApproval | modules/documents/workflow_use_cases.py:268-322 | the approval's transaction: everything is stored, or nothing |
| Releases.ReleaseByFields | modules/documents/workflow_use_cases.py:268-322 | a release takes a version in an active workflow that waits for approval and one of its approvers not barred by four eyes; that row is released, the other approved versions of the document are archived for it, every other row stays, and it can only fail on the invariants of the released row |
| Releases.ReleaseLeavesOneApproved | modules/documents/workflow_use_cases.py:288-322 | a release leaves its version as the only approved one, archives the others pointing at it, and touches no other document |
| Releases.RunsKeepSingleApproved | modules/documents/workflow_use_cases.py:268-322 | over any run of creations, releases and other stores, those of approved versions included, at most one version of a document is approved |
| Releases.CreateByFields | modules/documents/service.py:551-612 | a created version is planned, with its key, its title or else its id, its owner and its time and nothing else, and is added unless its number is not positive or its key is stored |
| Releases.AnyWritesKeepSingleApproved | modules/documents/postgres/migrations/0001_initial.sql:77-79 | whatever rows any transactions write in any order, the partial unique index leaves at most one approved version per document |
| Releases.WriteByFields | modules/documents/postgres/migrations/0001_initial.sql:77-79 | one such write is refused for another approved version of the document, and else replaces the row of its key or adds one |
| Registry.EvaluateRegistryDrift | scripts/migration_gates_documents.py:129-210 | the checker's counts are the numbers of missing headers, wrong active versions and wrong states |
| Registry.CountedHeaders | scripts/migration_gates_documents.py:129-210 | a header counts as missing, as wrong in its active version or as wrong in its state exactly if its row is not there, does not name the approved version scanned last, or does not show what that version or else the latest one asks for |
| Registry.NoDriftIffProjected | scripts/migration_gates_documents.py:129-210 | drift is zero exactly if every header's registry row is the projection of its scanned versions |
| Registry.RegistryDatabase.RebuildFromDocuments | scripts/registry_recovery_drill.py:41-115 | the rebuilt table has one row for every header, made from its versions |
| Registry.RebuiltRowIsProjection | scripts/registry_recovery_drill.py:83-115 | that row has the highest approved version as active one and the approved state, or without one the state of the latest version |
| Registry.RebuiltRowByStatus | scripts/registry_recovery_drill.py:83-115 | the rebuilt row by status: with an approved version valid and findable with the highest one as active, otherwise by the latest version's status without an active one, and invalid without versions |
| Registry.RebuildThenCheck | scripts/registry_recovery_drill.py:83-115 | rebuilding and then checking gives no drift exactly if for each header the last approved version scanned is the highest |
| Registry.TwoApprovedDrift | scripts/migration_gates_documents.py:129-210 | a failing instance: two approved versions, scanned with the lower one last, drift after a rebuild |
| Registry.SingleApprovedMeansNoDrift | scripts/migration_gates_documents.py:129-210 | with at most one approved version per document, rebuilding and then checking gives no drift, in any scan order |
| Registry.RegistryRecoversAfterAnyRun | scripts/registry_recovery_drill.py:83-115 | so it does after any run of creations, drafts and releases |
| WorkflowProfiles.ValidateDefinition | modules/documents/workflow_profile_store.py:861-915 | accepts exactly the labelled, contiguously numbered definitions whose enabled transitions form one path from DRAFT to APPROVED that leaves no status twice |
| WorkflowProfiles.AcceptedByFields | modules/documents/workflow_profile_store.py:861-915 | accepted are exactly the named, numbered definitions whose enabled transitions, each with allowed statuses, its status's role, an engine policy and neither deadline nor revocation, follow one another from DRAFT to APPROVED without leaving a status twice |
| WorkflowProfiles.CheckTransitions | modules/documents/workflow_profile_store.py:881-910 | the validator's loop with its growing sets, as that path condition |
| WorkflowProfiles.ToRuntimeProfile | modules/documents/workflow_profile_store.py:99-126 | phases are the path's statuses with adjacent repeats collapsed, keys the signed edges, both in runtime words; unknown words are refused |
| WorkflowProfiles.SignedEdges | modules/documents/workflow_profile_runtime_adapter.py:25-37 | an edge is among an accepted definition's keys exactly if an enabled signed transition goes from a status shown as its source to one shown as its target, DRAFT shown as IN_PROGRESS and every other status as itself |
| WorkflowProfiles.PhasesPlaceByPlace | modules/documents/workflow_profile_store.py:99-126 | the phases are IN_PROGRESS and then, place by place, the status each enabled transition leads to, a repeated final approval left out |
| WorkflowProfiles.RefusedWords | modules/documents/workflow_profile_runtime_adapter.py:25-37 | any definition, accepted or not, is refused a runtime form exactly if an enabled transition leads to no known status or is signed and leaves a word that names none, trimmed and in upper case |
| WorkflowProfiles.KeysOfAny | modules/documents/workflow_profile_runtime_adapter.py:25-37 | and of any other one the keys are the edges that its signed transitions' words spell |
| WorkflowProfiles.SignedEdgesAreConsecutive | modules/documents/workflow_profile_store.py:99-126 | so every signed edge joins two consecutive phases, apart from a repeated final approval |
| WorkflowProfiles.PathPhases | modules/documents/workflow_profile_store.py:99-126 | an accepted path's phases start IN_PROGRESS, end APPROVED and repeat no other status |
| WorkflowProfiles.AcceptedProfilesReachApproved | modules/documents/validation.py:181-190 | walking an accepted profile from IN_PROGRESS reaches APPROVED within three steps without an error |
| SeedReader.ReadSignatureKeys | modules/documents/workflow_profile_seed_reader.py:77-85 | blank keys are skipped, a key without an arrow is an error, the others are kept in normal form |
| SeedReader.ParseProfile | modules/documents/workflow_profile_seed_reader.py:47-114 | a legacy entry is read into exactly one definition, or refused for a name, a class, its first or last phase, or a key |
| SeedReader.ReadableBySpelling | modules/documents/workflow_profile_seed_reader.py:47-114 | which entries are read, on their texts: named, one of four classes, first phase DRAFT or IN_PROGRESS, last one APPROVED, every key blank or with an arrow |
| SeedReader.TranslatedBySpelling | modules/documents/workflow_profile_seed_reader.py:47-114 | what is read from them: a transition from every phase to the next, with the role of its first status, signed exactly if a key names the pair, and all other fields as in the entry |
| SeedReader.NormalizedIsNeverInProgress | modules/documents/workflow_profile_runtime_adapter.py:17-22 | no normalised status is IN_PROGRESS |
| SeedReader.KeyTextMeansPair | modules/documents/workflow_profile_seed_reader.py:77-92 | looking up the joined text of an edge finds exactly the keys whose two sides name the edge |
| SeedReader.RolesAgree | modules/documents/workflow_profile_seed_reader.py:117-126 | the reader's role for a transition is the one the validator asks for |
| SeedReader.ValidatorAcceptsReading | modules/documents/workflow_profile_store.py:861-915 | the validator accepts what the reader produced exactly if the legacy phases are allowed statuses, the second is not the editor phase and only the last may repeat an earlier one |
| SeedReader.ReadingKeepsMeaning | modules/documents/workflow_profile_store.py:99-126 | legacy entry to relational definition to runtime profile keeps phases, signed edges and the four-eyes flag |
| SeedReader.RuntimePhasesReadBack | modules/documents/workflow_profile_seed_reader.py:47-114 | runtime phases written into a legacy entry are read, accepted and rebuilt as the same phases |
| ProfileStore.WorkflowProfileStore.CreateDefinition | modules/documents/workflow_profile_store.py:353-401 | validated, then definition and first version in one transaction, or nothing |
| ProfileStore.CreationByFields | modules/documents/workflow_profile_store.py:353-401 | it goes through exactly for an accepted payload with an actor, a new code, a known kind and transitions the table takes, and leaves an active definition with label and class, whose version 1 says what the payload says; nothing else changes |
| ProfileStore.WorkflowProfileStore.CreateVersion | modules/documents/workflow_profile_store.py:403-451 | the next number under an unchanged label and class, or nothing |
| ProfileStore.RevisionSucceedsIff | modules/documents/workflow_profile_store.py:403-451 | it goes through exactly for an existing code with the same label and class and a payload not stored before that the tables take, and is refused for the first of these that fails |
| ProfileStore.RevisionByFields | modules/documents/workflow_profile_store.py:403-451 | the new version has the number after the highest and says what the payload says; it becomes the active number, and label, class, flag and everything else stay |
| ProfileStore.WorkflowProfileStore.SetActive | modules/documents/workflow_profile_store.py:453-472 | only the flag of an existing definition changes |
| ProfileStore.FlagByFields | modules/documents/workflow_profile_store.py:453-472 | refused for a blank actor or an unknown code; otherwise the flag is the one asked for and nothing else changes |
| ProfileStore.LastFlagHolds | modules/documents/workflow_profile_store.py:453-472 | over every run a definition's flag is the one last asked for, whatever else is created, revised, bound or imported |
| ProfileStore.WorkflowProfileStore.BindDefaultProfile | modules/documents/workflow_profile_store.py:474-542 | a type is bound to an active definition and takes over its class, keeping its override flag unless told otherwise |
| ProfileStore.BindingByFields | modules/documents/workflow_profile_store.py:474-542 | the type's row names the code and its class and overrides as asked, else as before, else not; no other row changes, and only an active definition can be bound |
| ProfileStore.LastBindingHolds | modules/documents/workflow_profile_store.py:474-542 | over every run a type stays bound as it was last asked for, imports included |
| ProfileStore.WorkflowProfileStore.ImportSeed | modules/documents/workflow_profile_store.py:544-691 | all profiles, bindings and the import row, or no change to any table, with the row-wise report of what was validated closed as imported or blocked |
| ProfileStore.ImportByFields | modules/documents/workflow_profile_store.py:544-754 | every profile is defined, active, with a version 1 of its own words, of kind SEED exactly if the package has it word for word; types bound before stay bound as they are, the others get external_control for EXT and long_release for the rest, overridable only for OTHER; one import row is added |
| ProfileStore.WorkflowProfileStore.GetActiveDefinition | modules/documents/workflow_profile_store.py:231-264 | an active definition's highest version effective by now, put together again from its rows |
| ProfileStore.ReadingByFields | modules/documents/workflow_profile_store.py:231-264 | of an active code it is the payload of the highest version effective by now, and nothing exactly if there is none |
| ProfileStore.RunKeepsInvariant | modules/documents/workflow_profile_store.py:353-691 | over every run version numbers are exactly 1..n with n active, stored versions stay and still give their payload back, label and class never change, every binding names an existing definition |
| ProfileStore.ImportSucceedsIff | modules/documents/workflow_profile_store.py:544-754 | an import goes through exactly if every profile is accepted, new, distinct and storable, the two bound profiles are among them and the same import is not recorded |
| ProfileStore.DisabledTransitionIsRefused | modules/documents/workflow_profile_store.py:861-915 | every accepted definition stays accepted but is refused by its table with a disabled transition more that does not fit the table |
| ProfileStore.ReportIsTrue | modules/documents/workflow_profile_store.py:544-691 | the report of a successful import says imported exactly for the codes it has newly defined, and skipped only for codes it has not touched |
| ProfileStore.ReportByFields | modules/documents/workflow_profile_store.py:544-691 | the report has a row for each profile in order, with its kind, and when a legacy file is migrated one for each code only the package has: imported and skipped after a success, all blocked after a failure |
| ProfileStore.ReadsBackLastPayload | modules/documents/workflow_profile_store.py:231-264 | a definition reads back the last created payload exactly if it is active and that version is effective by now |
| ProfileStore.ActiveProfilesReadBack | modules/documents/workflow_profile_store.py:231-264 | with a clock that never runs backwards every active profile does, after any run from an empty store |
| CommentSync.PaddedParses | modules/documents/comment_sync_service.py:141-153 | a reference number written with at least four digits reads back |
| CommentSync.PaddedWidth | modules/documents/comment_sync_service.py:38-92 | the number is written in at least four digits, with leading zeros only up to that width |
| CommentSync.CommentSyncService.NextRefIndex | modules/documents/comment_sync_service.py:141-153 | the next number is one more than the highest among the references with the prefix |
| CommentSync.HighestIsReached | modules/documents/comment_sync_service.py:141-153 | the highest number is one of a stored reference, or zero |
| CommentSync.CommentSyncService.SyncDocxComments | modules/documents/comment_sync_service.py:38-92 | the sync loop, matching and removing from what remains, as the reference run with its outcome |
| CommentSync.SyncKeepsComments | modules/documents/comment_sync_service.py:38-92 | one sync keeps keys, references and ids unique and existing comments' identity, and succeeds exactly if no extracted key occurs twice |
| CommentSync.ItemIsTakenOverOrCreated | modules/documents/comment_sync_service.py:128-138 | an item takes over the remaining comment of its key, or the only remaining one of its identity, re-keying it in place and creating none; if there is neither, one comment is created behind the others with the next id and number |
| CommentSync.SyncStoresExtraction | modules/documents/comment_sync_service.py:38-92 | a sync that succeeds has every extracted comment stored with its key and content, leaves comments whose key was not extracted as they were, and adds new ones behind, active, with consecutive ids and numbers |
| CommentSync.RoundsKeepComments | modules/documents/comment_sync_service.py:38-92 | so does every run of syncs, failing ones included |
| CommentSync.RepeatedSyncIsIdempotent | modules/documents/comment_sync_service.py:124-138 | repeating an extraction creates no row and re-keys none, also after identity matches have re-keyed rows |
| SqlScanner.StripSqlComments | scripts/json_persistence_gate.py:231-269 | the scan by index and buffer returns what the token grammar keeps |
| SqlScanner.TokensRenderBack | scripts/json_persistence_gate.py:231-269 | the tokens found read the text back and are well formed: comments close at their first end mark, quotes are doubled inside |
| SqlScanner.WellFormedTokensAreFound | scripts/json_persistence_gate.py:231-269 | every well-formed reading of a text is the one the scan finds |
| SqlScanner.StrippingFollowsGrammar | scripts/json_persistence_gate.py:231-269 | stripping fails exactly on texts without a well-formed reading and else returns the non-comment tokens, quoted texts untouched |
| SqlScanner.StrippingFailsIffUnclosed | scripts/json_persistence_gate.py:231-269 | stripping fails exactly on texts that are well-formed tokens followed by an unclosed block comment or quote |
| SqlRestripping.StrippingTwiceIsOnceIff | scripts/json_persistence_gate.py:231-269 | what a text is stripped to is left alone by stripping again exactly if nowhere in it two dashes, or a slash and a star, have comments and nothing else between them |
| SqlRestripping.StrippingTwiceDiffers | scripts/json_persistence_gate.py:231-269 | a failing instance: two dashes divided by a comment become a comment |
| SqlSplitter.ScannersAgree | scripts/json_persistence_gate.py:272-354 | the doubled-quote-aware scan and the plain toggle see the same characters outside quotes at the same clamped depth, for every text |
| SqlSplitter.InsideIffOpened | scripts/json_persistence_gate.py:321-354 | a position is inside quotes exactly if such a quote, itself outside quotes, stands before it and none of its kind in between |
| SqlSplitter.DepthIsRise | scripts/json_persistence_gate.py:321-354 | the clamped depth is how far the count of parentheses outside quotes has risen above its lowest value so far |
| SqlSplitter.CutsByRules | scripts/json_persistence_gate.py:321-354 | so a separator cuts exactly if it stands outside quotes and no parenthesis opened before it is still open, however many were closed too often |
| SqlSplitter.PiecesJoinBack | scripts/json_persistence_gate.py:272-354 | the untrimmed pieces joined with the separator are the text |
| SqlSplitter.SplittingIsStable | scripts/json_persistence_gate.py:272-354 | splitting any piece alone gives just that piece |
| SqlSplitter.SplitColumns | scripts/json_persistence_gate.py:321-354 | the toggle loop reports the trimmed non-blank pieces between commas outside quotes and parentheses |
| SqlSplitter.SplitSqlStatements | scripts/json_persistence_gate.py:272-318 | the aware loop does so for semicolons after comments are stripped, and fails where stripping fails |
| Artifacts.DocumentsRepository.MarkCurrentArtifact | modules/documents/sqlite_repository.py:340-364 | clearing the slot and setting the one row, in this order |
| Artifacts.DocumentsRepository.CreateArtifact | modules/documents/artifact_ops.py:117-155 | add and mark, or nothing if the id is taken |
| Artifacts.CreationByFields | modules/documents/artifact_ops.py:117-155 | refused exactly for an id that is taken; else the artifact is added and current, every other one of its document, version and type is not current, and all others are as they were |
| Artifacts.ListedOldestFirst | modules/documents/sqlite_repository.py:315-325 | listed are exactly the version's artifacts, the oldest first |
| Artifacts.CreationSettlesSlot | modules/documents/artifact_ops.py:147-154 | a completed creation is the only current artifact of its slot, whatever was current before, and no other slot changes |
| Artifacts.RunKeepsOneCurrent | modules/documents/sqlite_repository.py:335-364 | any run of creations and deletions keeps at most one current artifact per document, version and type |
| Artifacts.LastCreatedIsCurrent | modules/documents/sqlite_repository.py:335-364 | over every run the artifact created last in a slot is current until it is deleted |
| Artifacts.DeletedStaysGone | modules/documents/sqlite_repository.py:335-338 | a deleted artifact is gone until its id is created again |
| Artifacts.DeletionRemovesOneId | modules/documents/sqlite_repository.py:335-338 | deleting removes the artifact of the id and no other |
| Artifacts.DocumentsRepository.ResolveReleasePdf | modules/documents/artifact_ops.py:179-199 | the loops over types and candidates return the first usable file of the release order |
| Artifacts.ReleaseChoosesBest | modules/documents/artifact_ops.py:179-199 | what is chosen is usable and of a type looked for, and no usable one is better: current before superseded, then by type, then the oldest current or the newest superseded one; nothing is chosen only if none is usable |
| Artifacts.DocumentsRepository.ResolveSignatureInputPdf | modules/documents/signature_guard.py:167-205 | the same for the signature order and the transition's priority |
| Artifacts.SignatureChoosesBest | modules/documents/signature_guard.py:167-205 | the same with the newest one always the better one |
| Artifacts.SignableTypes | modules/documents/signature_guard.py:167-205 | which types each transition may sign: from review or approval on only a signed PDF, out of editing also the source PDF, otherwise also the released one |
| Artifacts.ChoicesAgree | modules/documents/signature_guard.py:184-205 | on a listing with distinct ids, both orders choose the same artifact whatever files can be read exactly if, of every type looked for, the current artifacts are all of one creation time and no two others are |
| Artifacts.ResolversAgree | modules/documents/artifact_ops.py:179-199 | after any run of creations and deletions they do for the default priority exactly if no two superseded artifacts of a type looked for have one creation time |
| Artifacts.TwoCurrentDisagree | modules/documents/artifact_ops.py:179-199 | with two current artifacts releasing takes the older and signing the newer |
| Artifacts.EqualTimesDisagree | modules/documents/artifact_ops.py:179-199 | with equal creation times releasing takes the one listed last and signing the one listed first |
| ReadTracking.PdfReadTrackingService.GetProgress | modules/documents/sqlite_repository.py:760-786 | pages completed and missing, seconds and completeness, or an empty progress for an unknown session |
| ReadTracking.ProgressByFields | modules/documents/sqlite_repository.py:760-786 | on the rows themselves: completed pages are those marked, missing ones, in ascending order, those from 1 to the total that are not, seconds those stored, and it is complete exactly if there are pages and none is missing |
| ReadTracking.PdfReadTrackingService.RecordPageDwell | modules/documents/pdf_read_tracking_service.py:44-58 | a call that none overlaps adds the dwell to what the progress shows and marks the page by the fixed threshold |
| ReadTracking.UninterruptedCall | modules/documents/pdf_read_tracking_service.py:44-92 | in the run of separate reads and writes, a call that nothing comes between does what the two methods do |
| ReadTracking.PdfReadTrackingService.Finalize | modules/documents/pdf_read_tracking_service.py:70-92 | the session is closed as complete with a receipt, replacing the one of the same user, document and version, or as incomplete with the receipts as they were |
| ReadTracking.LastClosingHolds | modules/documents/pdf_read_tracking_service.py:70-92 | over every run of overlapping calls a session is complete or incomplete as it was last closed: complete exactly if with a receipt |
| ReadTracking.ReceiptsAreIssued | modules/documents/pdf_read_tracking_service.py:70-92 | every receipt a run leaves was there before or is one that a call closed its session with, under its own user, document and version |
| ReadTracking.LastReceiptIsStored | modules/documents/sqlite_repository.py:589-606 | the receipt issued last for a user, document and version is the one stored |
| ReadTracking.SecondsAreTheSum | modules/documents/pdf_read_tracking_service.py:44-49 | over every run of overlapping calls of all sessions, if none are written to a page between another call's reading of it and its write, the page's seconds are the sum of its own non-negative dwells |
| ReadTracking.SecondsAreTheSumIffNoneBetween | modules/documents/pdf_read_tracking_service.py:44-49 | at every point of a run a page's seconds are that sum if and only if there is no such write |
| ReadTracking.SecondsAreTheSumSerially | modules/documents/pdf_read_tracking_service.py:44-49 | so they are in every run of calls one after another |
| ReadTracking.LateWriteUncompletes | modules/documents/sqlite_repository.py:744-763 | the failing run exists for every session: read, read, write the longer dwell, write the shorter one; the completed page is incomplete and the sum is lost |
| ReadTracking.CompletedStaysCompleted | modules/documents/pdf_read_tracking_service.py:44-49 | without such a write a completed page stays completed, however the run goes on |
| ReadTracking.ReceiptIffEveryPageRead | modules/documents/pdf_read_tracking_service.py:70-92 | without such a write a finalising call issues a receipt exactly if there are pages and each has ten seconds in all |
| ReadTracking.ReceiptIffEveryPageReadSerially | modules/documents/pdf_read_tracking_service.py:70-92 | so it does in every run of calls one after another |
| ReadTracking.MinimumIsIgnored | modules/documents/pdf_read_tracking_service.py:44-49 | a session that asks for more than ten seconds a page is closed with a receipt after ten |
| ReadTracking.UnknownSessionKeepsLastDwell | modules/documents/pdf_read_tracking_service.py:44-49 | for an unknown session nothing adds up: the last dwell replaces the one before |

## Left out

- SQL engines, git, the file system, SHA-256, JSON and base64url: trusted. Hashes are compared as the values they are made of, cursors are records.
- The cursor's text form: an empty cursor text counts as no cursor in the code; the model has only a cursor or none. Malformed texts are one error.
- The search filter: case folding in memory and LIKE in the database are one parameter that says whether a row matches.
- The PostgreSQL form of the keyset comparison, with empty timestamps bound as NULL; the SQLite and in-memory order is modelled.
- Upper case is ASCII; digits in migration names and references are ASCII digits; a reference number is digits only, without the signs and underscores `int` would take.
- MigrationGate.EvaluateGate: the checks on provisioning text, bundling and discovery paths are one flag, and the other PostgreSQL gates, which repeat this one, are not modelled.
- SchemaMigration.Database.Migrate: role, privilege and catalogue contracts are one predicate a step may fail; the advisory lock is held by one run at a time.
- SqliteImport.Importer.ImportSqliteToPostgres: core, reading and profile rows are records with a key, a payload and unique columns; the profile graph check and the check of the artifact files are one flag each, in their place in the order; foreign keys are not modelled.
- ProfileSeeding.SeedingIsAtomic: whether all profiles of a seed are accepted is a flag; what that means row by row is ProfileStore.ImportSucceedsIff.
- OptimisticLock.NoChangeRequestIsLost: change requests carry id, reason and author; impact references and the other custom fields are not modelled.
- OptimisticLock.CommitsRunOnWhatWasRead: operations other than adding change requests and updating title or requests are an arbitrary change of the state that is then stamped and stored. Fresh event ids are a counter. A release's write counts from its commit, as its row lock keeps every mutation out until then.
- The record of a version state holds what the algorithms look at; description, type, profile, review and approval sets, extension notes and the creator are not in it.
- Releases.DocumentsService.AcceptApproval: signatures, distribution snapshots, the released PDF and the registry message are left out; a year's default validity is a parameter.
- Releases.RunsKeepSingleApproved: the other workflow steps and edits are stores of any state.
- Registry: the profile mapping and the header checks of the same script are single-branch counts.
- SeedReader.ParseProfile: JSON types and absent fields are taken after their defaults; the loop over a whole file, which only refuses repeated ids, is left out.
- ProfileStore.WorkflowProfileStore.ImportSeed: actors and update times of rows are left out, and of the report its paths, hashes and block reasons.
- ReadTracking.PdfReadTrackingService.GetProgress: completed pages are a set, so their sorted order is not stated; events and times are left out. A finalising call's two reads are one step, and so are its two writes.
- CommentSync.CommentSyncService.SyncDocxComments: the identity of a comment is an arbitrary function, as the comment reader is not part of this model.
- Reading CREATE and ALTER statements into table states and the scan for storage writes in Python source.
- Workflow permissions, custom-field checks and file naming: single-branch rules; permissions are a parameter.
- HTTP, command line, user interface and packaging.
