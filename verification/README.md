# Knowledge-base catalog: verified model of the data plane

The commands under `cmd/` that write, resume, merge, page and garbage-collect the Postgres
knowledge-base catalog, modelled in Dafny and proved to keep their promises over every run:
killed processes, failed commits, interleaved workers, interrupted directory removals. Where the
code does not keep a promise its documentation makes, the model keeps the code's behaviour, shows
a case that breaks the promise and proves exactly when it holds.

`dafny verify dfyconfig.toml` checks the whole project.

## How it is organised

| files | what they hold |
|---|---|
| `Basics` | an optional value, a minimum, a fact about set sizes |
| `Utf8` | Go's UTF-8 decoder and `sanitizeUTF8String`, at the byte level of RFC 3629 sections 3 and 4 |
| `Relational` | rows, keys and `INSERT ... ON CONFLICT DO NOTHING` |
| `MigrationModel`, `MigrationProofs`, `MigrationLanding`, `MigrationRuntime` | `db migrate-from-sqlite`: a run killed anywhere as a function, the resumability and remap theorems, what a complete run leaves column by column, and the imperative code proved against all of it |
| `LeafCodec`, `FolderNames` | ks_id text, snapshot folder names and what the orphan collector reads back |
| `SnapshotStore`, `SnapshotGc`, `SnapshotRuntime` | the two stores of a snapshot, paths as components and rows, under capture, gc and the orphan pass; what gc selects and deletes; the commands, each step of which may fail |
| `WorkerPool`, `WorkerLimit`, `BackfillRows`, `BackfillCounters`, `Backfills`, `StaticBackfill` | the producer and N workers as a state machine over all interleavings, what `--limit` bounds, what a run does to rows and counters, and the two backfills on top |
| `KeysetSearch` | `kb search` pages, cursors and the fallback |
| `ModuleUpsert`, `RepoIngest` | the modules upsert, the batched index loop, re-ingest and its sweep |
| `DedupBackfill` | the two-statement dedup backfill |
| `AttachProtocol` | the listener goroutine and the attaching caller |
| `SweepEpochs` | epochs of a sweep |
| `Loops`, `Graphs`, `Substitution`, `EnvExpansion` | `%VAR%` expansion: loops that rewrite a text from its front, chains of references, and when replacing references ends |
| `TextCodecs` | SQL quoting, `.reg` strings, hex lists |

## Where the code and its documentation part

- **A migration re-run is not always a no-op.** `module_sightings.byte_offset` may be NULL, and a
  NULL never conflicts in a unique key, so every re-run appends such rows again. Resumability
  holds exactly when no sent row has a NULL in its conflict key
  (`MigrationProofs.ResumableIff`).
- **`kb gc --orphan-folders` removes folders of live snapshots.** The folder name carries the
  stamp taken before analysis, the row's `captured_at` is the clock at insert, and the collector
  compares the two. Besides, only the version up to its first colon is sanitised; a slash after it
  makes the rest directories of their own, of which the collector decodes the first. A live folder
  survives exactly when the directory the walk meets on its way there does not decode, or decodes
  to a pair some row carries (`SnapshotStore.PassIsSafeIff`). `SnapshotStore.SeenIs` says what it
  decodes to: the snapshot's own stamp for a version without a colon, nothing for one without a
  slash after its colon, otherwise what the version's text says. `SnapshotStore.LiveFolderRemoved`
  and `SnapshotStore.NestedFolderRemoved` are two ways to lose a folder, a pass while a capture is
  between rename and insert a third (`SnapshotStore.PassBeforeRowIff`).
- **`kb gc` may remove folders of snapshots it keeps.** Version `1:2/3` with stamp 100 has its
  folder inside the one of version `1` with stamp 2. gc is safe whatever it selects exactly when
  no snapshot's folder lies in another's (`SnapshotStore.GcIsSafeIff`,
  `SnapshotStore.NestedFolderPurged`), as is the case without slashes after colons
  (`SnapshotStore.FlatNeverNests`).
- **`kb gc` fails on a snapshot with a scorecard.** `kb_scorecards.source_id` does not cascade, so
  one scorecard among the candidates aborts the deletion of all of them
  (`SnapshotGc.PurgeIsClean`).
- **A second gc run may select more.** It selects nothing, for all bounds and numberings, exactly
  when rows of one partition with one epoch agree on `captured_at`
  (`SnapshotGc.SecondRunSelectsNothingIff`). Only rows without kb_id, which the unique index on
  (kb_id, epoch) leaves out, can fail that (`SnapshotGc.OnlyUnownedRowsTie`,
  `SnapshotGc.TiesMayBeReselected`).
- **`--limit` is not a cap** from one page on. It is one exactly when it is below 500 or there are
  no more rows (`WorkerLimit.LimitIsCapIff`); otherwise the counter lags by the pages in channel
  and workers (`WorkerPool.LimitBound`, attained by `WorkerLimit.LimitBoundIsTight`).
- **Search pages lose rows that share (sim, captured_at, id)**, as two references from snapshots
  of one millisecond do (`KeysetSearch.PagesMatchIff`, `KeysetSearch.SecondRowLost`); a limit of 0 indexes an empty list
  (`KeysetSearch.Search`).
- **The re-ingest sweep stops at 32 bits.** `ingest_keep.id` is an INTEGER and module ids are
  BIGINT, so the sweep fails once a touched id is above 2147483647 (`RepoIngest.SweepIsExact`).
- **One epoch per registry entry, not per app.** The sweep registry lists `slack` twice and the
  global is reset for each entry. An app's passes share an epoch exactly when at most one of its
  entries has an attempt, and that entry's first attempt succeeds or is its only one
  (`SweepEpochs.OneEpochPerAppIff`, `SweepEpochs.ListedTwice`).
- **`expandWindowsEnv` may never return**, for instance when a variable's value contains a
  reference to itself (`EnvExpansion.SelfReferenceLoops`). With an even number of percent signs in
  every value it returns exactly when no name reachable from the text refers back to itself
  (`EnvExpansion.EndsIff`); with at most one it always does (`EnvExpansion.EndsIfSmall`).
- **Quoting rewrites strings that are not valid UTF-8** (`TextCodecs.QuoteReadsBack`).

## Model

| member | source | states |
|---|---|---|
| Utf8.DecodeOfEncode | cmd/db_migrate.go:259 | decoding at the encoding of any scalar value gives that value and its length, whatever follows |
| Utf8.EncodeOfDecode | cmd/db_migrate.go:259 | a prefix the decoder accepts is the one encoding of the code point it reports, so overlong forms and surrogates are refused |
| Utf8.ValidIffEncoded | cmd/db_migrate.go:254 | the validity test accepts exactly the concatenated encodings of scalar values |
| Utf8.SanitizeUTF8String | cmd/db_migrate.go:253-269 | fast path and loop both give the sanitised string: valid UTF-8, no NUL, at most three times the input; the loop ends |
| Utf8.CollectRunes | cmd/db_migrate.go:257-267 | the slow path's loop collects the runes of the specification |
| Utf8.SanitizeKeepsCodePoints | cmd/db_migrate.go:257-267 | code points that arrive intact come out in order, NUL as U+FFFD, whatever follows them |
| Utf8.SanitizeReplacesBadByte | cmd/db_migrate.go:260-264 | a byte no sequence starts with becomes U+FFFD and only that byte is consumed |
| Utf8.SanitizedEqualIffClean | cmd/db_migrate.go:253-256 | the string is unchanged exactly when it is valid UTF-8 without NUL, so the fast path is the slow path |
| Utf8.SanitizeIdempotent | cmd/db_migrate.go:253-269 | sanitising twice is sanitising once |
| Utf8.SanitizeGrowth | cmd/db_migrate.go:253-269 | the output has at most three bytes for each input byte |
| MigrationModel.ScannedTextIsClean | cmd/db_migrate.go:189-243 | no bad byte and no NUL reaches a text column, no binary value is sent as one; text arrives sanitised, clean text, numbers, NULL and declared BLOB and BYTEA columns as they were |
| MigrationModel.EntPut | cmd/db_migrate.go:299-303 | inserting a module or fact keeps ids and keys unique and returns the id that carries the row's key |
| MigrationProofs.EntAllNamed | cmd/db_migrate.go:287-334 | a whole pass keeps every id's key, gives what a pass by natural key gives, and maps each old id to a new one that carries the source's key |
| Relational.InsertAllCovers | cmd/db_migrate.go:402-413 | after a copy every sent row finds its conflict key, and every row was there before or was sent |
| Relational.ReplayIsOnePass | cmd/db_migrate.go:68-73 | replaying a list over a table that holds a prefix of it gives what one pass gives, unless a key is NULL |
| Relational.NullKeyDuplicates | pkg/knowledge/kb/db/migrations/000001_init_schema.up.sql:45-52 | a row with a NULL in its conflict key is appended by every pass |
| MigrationProofs.Simulates | cmd/db_migrate.go:107-171 | a run killed at any stage and row keeps the catalog well formed, and seen through parents' natural keys it is a run that never mentions an id |
| MigrationProofs.NamedAllIdempotent | cmd/db_migrate.go:287-334 | a second full pass over modules or app_facts changes nothing but ids burnt |
| MigrationProofs.KilledRunsResume | cmd/db_migrate.go:68-73 | any number of runs killed at any row, batch boundary or commit, then one complete run, leave what a single run leaves, up to renaming of generated ids |
| MigrationProofs.NullKeyBreaksReplay | cmd/db_migrate.go:415-431 | one NULL conflict key and a run that dies after its last commit leave a different catalog |
| MigrationProofs.ResumableIff | cmd/db_migrate.go:342-343 | every kill schedule resumes exactly when no sent row has a NULL in its conflict key |
| MigrationProofs.SrcKeyIsOwnKey | cmd/db_migrate.go:309-318 | with unique source ids the id map leads to the sanitised key of the row itself |
| MigrationProofs.MappedChildLands | cmd/db_migrate.go:415-477 | after a complete run a child whose parent was mapped is there under its remapped conflict key and the parent carries the same sanitised key |
| MigrationProofs.OnlyMappedChildrenLand | cmd/db_migrate.go:455-476 | nothing else lands: children of unmapped parents are dropped and an unmapped `to_id` is NULL |
| MigrationRuntime.BatchCounter.Tick | cmd/db_migrate.go:89-97 | flushes exactly when the cumulative count reaches a multiple of n |
| MigrationRuntime.BatchCounter.Done | cmd/db_migrate.go:99-105 | flushes exactly when a remainder is left |
| MigrationLanding.InsertAllLands | cmd/db_migrate.go:402-595 | each of the seven child tables, after a complete copy: the old rows in place, behind them only copies of source rows, column by column (parents by key, an unmapped `to_id` NULL); every copied row's key is there, and the row itself if it is the first with its key or has a NULL in it |
| MigrationLanding.ModulesLand | cmd/db_migrate.go:299-333 | modules: a new row takes each column from the first source row of its key, last_seen_at comes from the last one, a row that was there keeps the rest |
| MigrationLanding.FactsLand | cmd/db_migrate.go:500-545 | app_facts: a new row takes each column from the first source row of its key, a row that was there stays |
| MigrationLanding.CompleteMigrates | cmd/db_migrate.go:136-166 | a complete run does this to all nine tables |
| MigrationRuntime.FlushCount | cmd/db_migrate.go:68-73 | full batches plus a remainder make ceil(count / n) flushes |
| MigrationRuntime.Migrator.Exec | cmd/db_migrate.go:402-413 | a sent row joins the open transaction; a failed one costs the open transaction and no committed row |
| MigrationRuntime.Migrator.Flush | cmd/db_migrate.go:363-391 | committed rows are all rows sent so far, or on a failed commit what they were |
| MigrationRuntime.Migrator.SendAll | cmd/db_migrate.go:344-400 | throughout, committed rows plus the open transaction are exactly the rows sent, cut at a multiple of n |
| MigrationRuntime.Migrator.BatchedInTx | cmd/db_migrate.go:344-400 | however it ends the table gains a prefix of the rows to send, cut at a multiple of n until the final flush; at most n rows are lost; success commits all, flushes ceil(count / n) times and leaves no open transaction |
| MigrationRuntime.Migrator.CopyEnts | cmd/db_migrate.go:287-334 | modules and app_facts are copied whole or not at all; only the identity sequence may move on |
| MigrationRuntime.Migrator.SendEnt | cmd/db_migrate.go:515-535 | one insert, and for a fact already there the lookup, extend table and id map by exactly that row |
| MigrationRuntime.Migrator.Migrate | cmd/db_migrate.go:136-166 | the nine stages: however the command ends, its catalog is that of one killed run of the theorems above; success is the complete run, every table holding column by column what the source says, and it succeeds when nothing fails |
| LeafCodec.SanitizedIsSafe | pkg/knowledge/kb/fsutil/encode.go:41-56 | the version segment is 1 to 73 bytes, free of reserved and control characters, and ends in neither dot nor space |
| FolderNames.VersionSegmentIs | pkg/knowledge/kb/fsutil/encode.go:41-56 | for every version: forbidden characters become underscores, of every run of underscores one stays, all other characters stay in order, trailing dots and spaces go; "unknown" if nothing is left, and past 64 bytes the first 64, an underscore and the digest |
| FolderNames.CleanVersionStays | pkg/knowledge/kb/fsutil/encode.go:41-56 | a version of 1 to 64 bytes with nothing to replace, collapse or trim is its own segment |
| FolderNames.CleanFoldersDiffer | cmd/kb_capture.go:269-287 | snapshots of one app with clean versions get the folder `<kb_id>_<version>_<stamp>`, a different one each |
| LeafCodec.EncodeParts | pkg/knowledge/kb/fsutil/encode.go:32-39 | the folder name takes the version up to its first colon; the rest joins the stamp |
| LeafCodec.ParseOfFormat | cmd/kb_gc_orphan.go:360 | parsing a formatted 64-bit integer gives it back |
| FolderNames.FormatIntIs | pkg/knowledge/kb/identity/fingerprint.go:83-88 | a stamp is written as its digits without leading zeros, after a minus sign exactly if it is negative |
| FolderNames.ParseIntIff | cmd/kb_gc_orphan.go:360 | a number is read exactly from an optional sign and digits within 64 bits, at its value |
| LeafCodec.LeafDirectories | pkg/knowledge/kb/fsutil/encode.go:32-39 | as a path the folder name has one component, and one more for every slash after the version's first colon |
| LeafCodec.DecodeOfEncode | cmd/kb_gc_orphan.go:351-365 | from the first directory of a snapshot's path the collector reads (kb_id, number after the last underscore there): the snapshot's own stamp for every version without a colon, underscores included; nothing if no slash follows the colon |
| FolderNames.DecodesIff | cmd/kb_gc_orphan.go:351-365 | a name decodes exactly when it is a kb_id, anything, and a number, joined by underscores |
| LeafCodec.KsTextInjective | pkg/knowledge/kb/identity/fingerprint.go:83-88 | distinct snapshots have distinct ks_id texts |
| SnapshotStore.OrphanIff | cmd/kb_gc_orphan.go:289-382 | the pass takes a snapshot's folder exactly when the directory at depth three it is or lies in decodes to a pair no row carries |
| SnapshotStore.SeenIs | cmd/kb_gc_orphan.go:306-341 | what the walk decodes on its way to a snapshot's folder, from the version's text, unless the version climbs out with `..` |
| SnapshotStore.PassIsSafeIff | cmd/kb_gc_orphan.go:206-267 | a failure-free orphan pass keeps every committed snapshot's folder exactly when each is spared |
| SnapshotStore.PassLeavesNoOrphan | cmd/kb_gc_orphan.go:206-267 | afterwards no directory the scan would collect remains; a directory is gone exactly when it is one or lies in one, and what is left kept its files |
| SnapshotStore.CaptureIsSafe | cmd/kb_capture.go:149-199 | promoting onto a target that is not a complete folder, then committing its row, keeps every snapshot with a folder of its own |
| SnapshotStore.FreeMeans | cmd/kb_capture.go:283-285 | the rename goes through exactly when the target does not exist or is an empty directory |
| SnapshotStore.CaptureThenPassIff | pkg/knowledge/kb/ingest/ingest.go:334-357 | with every earlier snapshot spared, capture then orphan pass keeps the new one's folder exactly when it was spared before or its own row spares it; without a colon in the version, when both clock reads agree |
| SnapshotStore.PassBeforeRowIff | cmd/kb_capture.go:149-155 | a pass between another capture's rename and its insert leaves that snapshot its folder exactly when it was spared before it had a row |
| SnapshotStore.LiveFolderRemoved | pkg/knowledge/kb/ingest/ingest.go:349-351 | a row inserted one millisecond after its stamp loses its folder |
| SnapshotStore.NestedFolderRemoved | pkg/knowledge/kb/fsutil/encode.go:37-38 | version `1:2/3` loses its folder even when both clock reads agree |
| SnapshotStore.GcRemovesExactly | cmd/kb_gc.go:250-273 | after the file stage exactly what is at or under a purged row's folder is gone |
| SnapshotStore.PurgeIsSafeIff | cmd/kb_gc.go:250-273 | gc of given rows without failures keeps every other snapshot exactly when none of their folders lies in a purged one |
| SnapshotStore.PurgeIsSafe | cmd/kb_gc.go:250-273 | taking away anything under purged folders, interrupted removals included, is then safe too |
| SnapshotStore.GcIsSafeIff | cmd/kb_gc.go:250-273 | gc is safe for every selection exactly when no snapshot's folder lies in another's |
| SnapshotStore.FlatNeverNests | pkg/knowledge/kb/fsutil/encode.go:32-39 | folders of versions without a slash after a colon never lie in one another |
| SnapshotStore.NestedFolderPurged | cmd/kb_gc.go:267-268 | purging version `1` with stamp 2 takes the live folder of version `1:2/3` with stamp 100 |
| SnapshotRuntime.NextEpochIsMaxPlusOne | pkg/knowledge/kb/identity/merge.go:164-182 | 1 for an app's first row, otherwise one above its highest epoch |
| SnapshotRuntime.CaptureKeepsEpochsUnique | pkg/knowledge/kb/identity/merge.go:164-182 | a new epoch is above every epoch of its app and keeps (kb_id, epoch) unique |
| SnapshotRuntime.KbStore.Promote | cmd/kb_capture.go:269-287 | the rename happens only onto an absent or empty target and leaves a complete folder there; a failure leaves at most directories on the way |
| SnapshotRuntime.KbStore.Ingest | cmd/kb_capture.go:170-199 | one row or none, with the next epoch, in one transaction; none for a folder outside the store or if a key is refused |
| SnapshotRuntime.KbStore.RunCapture | cmd/kb_capture.go:133-212 | wherever it fails or dies every committed row has its folder; success means folder and row, or folder only when the binary was known |
| SnapshotRuntime.KbStore.DatabaseStage | cmd/kb_gc.go:215-248 | the two statements take effect together or not at all; without failures they do exactly when no foreign key refuses |
| SnapshotRuntime.KbStore.PurgeFolders | cmd/kb_gc.go:250-273 | each purged row's folder in turn, failures passed over: nothing outside those folders is touched, without failures all are gone |
| SnapshotRuntime.KbStore.RunGc | cmd/kb_gc.go:174-273 | select, delete, remove: rows go all or none, only what lies under purged folders is touched however the run ends, the other snapshots stay whole if no folder of theirs lies in a purged one. A run that gets through leaves exactly the recent rows, the n highest epochs of every app, both, or the rows with a module reference, as its flags say |
| SnapshotRuntime.KbStore.Walk | cmd/kb_gc_orphan.go:298-342 | the directory walk and its callback collect exactly the orphans below a directory, unless a directory cannot be read or the query fails |
| SnapshotRuntime.KbStore.Scan | cmd/kb_gc_orphan.go:289-346 | the scan collects exactly the orphan directories, none when there is no store |
| SnapshotRuntime.KbStore.RunOrphanFolders | cmd/kb_gc_orphan.go:206-287 | nothing outside orphan directories is touched, a pass without failures or warnings removes them all with everything below, and it is safe whenever every snapshot is spared, interrupted or not |
| SnapshotRuntime.KbStore.OtherRow | pkg/knowledge/kb/db/migrations/000004_kb_identity.up.sql:105-106 | a source of another writer is stored exactly when its (kb_id, epoch) is free or kb_id is NULL |
| SnapshotRuntime.KbStore.Session | cmd/kb_capture.go:133-212 | over any sequence of commands, each failing or dying anywhere, every committed snapshot has its folder, epochs stay unique and no reference dangles, if no orphan pass runs or each row spares its own folder, and no gc runs or no folder lies in another |
| SnapshotGc.RankingIsRowNumber | cmd/kb_gc.go:301-305 | ordering equal epochs by any tie-break gives a row numbering |
| SnapshotGc.RowNumberIsRanking | cmd/kb_gc.go:301-305 | every row numbering arises that way |
| SnapshotGc.TopCount | cmd/kb_gc.go:301-305 | the rows ranked 1 to n of an app number min(n, count) |
| SnapshotGc.SelectionLeaves | cmd/kb_gc.go:299-312 | for either bound alone and for both: what stays is recent or among the min(n, count) highest epochs of its partition, and a bound that is not given keeps nothing |
| SnapshotGc.EmptySelectionLeaves | cmd/kb_gc.go:337-352 | what stays is out of scope or has a module reference |
| SnapshotGc.KeepsLatest | cmd/kb_gc.go:301-311 | every app keeps its min(n, count) highest epochs, whatever the cutoff |
| SnapshotGc.NeverSelected | cmd/kb_gc.go:308-310 | nothing captured at or after the cutoff is selected, nor anything of an app with no more than n rows |
| SnapshotGc.SecondRunSelectsNothingIff | cmd/kb_gc.go:294-331 | run again with the same bounds nothing is selected, for all bounds and numberings, exactly when rows of one partition with equal epochs have equal captured_at |
| SnapshotGc.OnlyUnownedRowsTie | pkg/knowledge/kb/db/migrations/000004_kb_identity.up.sql:100-106 | under the unique index that is a condition on rows without kb_id only |
| SnapshotGc.TiesMayBeReselected | pkg/knowledge/kb/db/migrations/000004_kb_identity.up.sql:100-106 | two rows without kb_id at one epoch and different stamps: some second run selects one |
| SnapshotGc.TriggersByRow | pkg/knowledge/kb/db/migrations/000002_knowledge_sources.up.sql:27-36 | firing the foreign keys one after the other over all rows is firing all of them row by row |
| SnapshotGc.SchemaIs | pkg/knowledge/kb/db/migrations/000002_knowledge_sources.up.sql:26-36 | eight columns refer to a snapshot, two of them in modules and two in kb_diffs |
| SnapshotGc.PurgeIsClean | cmd/kb_gc.go:221-248 | from the foreign keys' actions: the transaction goes through exactly when no candidate has a scorecard; then, in whatever order they fire, nothing dangles, rows that refer to no purged snapshot are untouched, the others are gone or have those keys NULL, and the classified modules are exactly the still referenced ones |
| SnapshotGc.PurgedRowsFollow | pkg/knowledge/kb/db/migrations/000002_knowledge_sources.up.sql:26-36 | table by table: references and diffs of purged snapshots are gone, modules and sightings stay with NULL for a purged source, everything else is as it was |
| SnapshotGc.EmptyOnlyConverges | cmd/kb_gc.go:337-377 | purging the empty snapshots in scope leaves none and takes no module reference |
| WorkerPool.StepKeeps | cmd/knowledge_backfill_vendored.go:143-216 | every step of producer and workers keeps the invariant: pages tile the rows in order, channel and workers hold at most 3N pages, the counter lags by at most those |
| WorkerPool.RunsAreFinite | cmd/knowledge_backfill_vendored.go:143-219 | no interleaving over T rows has more than 10 T + 3 steps |
| WorkerPool.NeverStuck | cmd/knowledge_backfill_vendored.go:157-219 | until all goroutines have returned some step can be taken, errors and cancellation included |
| WorkerPool.CanFinish | cmd/knowledge_backfill_static.go:165-225 | every run goes on to a finished one, without an error if there was none |
| WorkerPool.AllCounted | cmd/knowledge_backfill_vendored.go:196-215 | in a finished run without errors every page was counted and the counter is the number of rows fetched |
| WorkerPool.LimitBound | cmd/knowledge_backfill_vendored.go:163-192 | a run without errors processes at least min(L, T) and at most min(T, L + 1500 w) rows, and all T without a limit |
| WorkerLimit.LimitBoundIsTight | cmd/knowledge_backfill_static.go:187-220 | for every limit L from 500 on, every w and T, some finished run without errors processes min(T, L + 1500 w) rows |
| WorkerLimit.LimitIsCapIff | cmd/knowledge_backfill_vendored.go:163-192 | every finished run without errors stays within a limit L exactly when L is below 500 or T at most L; below 500 it processes min(L, T) rows |
| BackfillRows.StepRows | cmd/knowledge_backfill_vendored.go:196-215 | a statement of one page changes that page's rows only, whatever the other pages are doing |
| BackfillRows.AnyStop | cmd/knowledge_backfill_vendored.go:143-225 | wherever a run stops each row is as it was, or has the first statement applied, or both |
| BackfillRows.FinishedRows | cmd/knowledge_backfill_vendored.go:143-225 | a finished run without errors applied both statements to the first rows in id order and left the others alone |
| BackfillRows.ExactlyOnce | cmd/knowledge_backfill_vendored.go:143-225 | without a limit every row is processed exactly once |
| BackfillCounters.RunLedger | cmd/knowledge_backfill_vendored.go:196-207 | wherever a run stops, each shared total is the gain of the pages counted so far, at their rows' values before the run, whatever the interleaving |
| BackfillCounters.FinishedTotal | cmd/knowledge_backfill_vendored.go:196-224 | a finished run without errors prints the gains of the rows it processed |
| Backfills.ClassifyVendored | cmd/knowledge_backfill_vendored.go:94-103 | the ids of the rows that are not marked and that the detector flags |
| Backfills.ClassifyUnvendored | cmd/knowledge_backfill_vendored.go:107-115 | the ids of the rows that are marked and that the detector no longer flags |
| Backfills.IdsWhereExact | cmd/knowledge_backfill_vendored.go:94-115 | the ids found are those of qualifying rows, all of them and no others |
| Backfills.ModuleTable.MarkPage | cmd/knowledge_backfill_vendored.go:269-299 | the page's rows go through both statements, every other row stays, a dry run writes nothing; the numbers returned are rows changed, or in a dry run found |
| Backfills.VendoredRun | cmd/knowledge_backfill_vendored.go:143-225 | in any interleaving the final flag is the detector's verdict under --reconcile and old OR detector without it |
| Backfills.VendoredKillAndRerun | cmd/knowledge_backfill_vendored.go:143-225 | killed anywhere, with errors or a limit, then run to the end: the flags an uninterrupted run leaves |
| Backfills.VendoredTotals | cmd/knowledge_backfill_vendored.go:196-224 | in any interleaving the printed totals are the rows to mark and to unmark among those processed, the same in a dry run |
| Backfills.TotalsBalance | cmd/knowledge_backfill_vendored.go:221-224 | flagged rows before, plus marked, minus unmarked, are the flagged rows after a complete run |
| StaticBackfill.InsertDeps | cmd/knowledge_backfill_static.go:354-366 | unless a statement fails, all non-empty imports are there afterwards and the counter is the number of new ones |
| StaticBackfill.StaticTable.ProcessPage | cmd/knowledge_backfill_static.go:327-384 | the page commits exactly when no statement and not the commit fails; then each of its rows holds the imports found, and the list found if it had none, an empty or a noisy one and the find is clean; the others stay and the counters are exact; otherwise nothing is stored or counted |
| StaticBackfill.DryPage | cmd/knowledge_backfill_static.go:310-323 | counts every import found, and every non-empty list found for a row that has none, an empty or a noisy one |
| StaticBackfill.StaticResult | cmd/knowledge_backfill_static.go:165-243 | after a finished run without errors every row processed, without a limit every row, holds what the extractor found for it, in any interleaving |
| StaticBackfill.StaticTotals | cmd/knowledge_backfill_static.go:213-243 | in any interleaving the printed totals are those of the rows processed |
| StaticBackfill.StaticTotalsMean | cmd/knowledge_backfill_static.go:213-243 | they are the new dependencies and the lists replaced, or for a dry run the imports and lists found |
| StaticBackfill.DryRunIsUpperBound | cmd/knowledge_backfill_static.go:309-384 | whatever their interleavings and numbers of workers, a dry run's totals bound those of a real run after it |
| StaticBackfill.StaticAnyStop | cmd/knowledge_backfill_static.go:309-384 | wherever a run stops dependencies only grew, clean non-empty symbols are kept and no noisy list was written |
| StaticBackfill.SecondRunWritesNothing | cmd/knowledge_backfill_static.go:165-243 | after a complete run a second one, stopped anywhere, has changed no row and its totals are zero |
| KeysetSearch.PastCursorIsOrder | cmd/kb_search.go:177-187 | the cursor predicate selects exactly the rows the sort order puts after the cursor's row |
| KeysetSearch.PagesAreTheList | cmd/kb_search.go:189-206 | with distinct keys the pages of any size concatenate to the sorted list, each row once |
| KeysetSearch.PagesMatchIff | cmd/kb_search.go:177-206 | they do so for every page size exactly when no two results share (sim, captured_at, id) |
| KeysetSearch.SecondRowLost | cmd/kb_search.go:177-206 | of two results that share it, pages of one row show only the first |
| KeysetSearch.Search | cmd/kb_search.go:262-342 | what a call returns for every limit: error, panic or page; the fallback fires only on an empty ranked page and never carries a cursor |
| KeysetSearch.FullLastPage | cmd/kb_search.go:331-342 | the cursor of an exactly full last page leads to an empty ranked page |
| KeysetSearch.BuildQuery | cmd/kb_search.go:130-210 | whatever filters are set each placeholder names its own value and the limit comes last |
| KeysetSearch.IndexMeans | cmd/kb_search.go:470-472 | a text is found exactly when it stands somewhere, at its first place |
| KeysetSearch.SnippetWindow | cmd/kb_search.go:475-487 | the window is in bounds and as long as it can be, and shows a match of up to 100 bytes inside the text |
| KeysetSearch.ExtractSnippet | cmd/kb_search.go:462-490 | a match is shown in such a window without newlines; other text is cut after 200 bytes as it is; the result has min(len, 200) bytes |
| ModuleUpsert.FirstReal | cmd/knowledge_kb_extract_index.go:218-222 | the index of the first name without `_module_` |
| ModuleUpsert.Longest | cmd/knowledge_kb_extract_index.go:226-231 | the index of the earliest of the longest symbol lists |
| ModuleUpsert.FoldMeans | cmd/knowledge_kb_extract_index.go:207-232 | any upserts on one key: OR of the vendored marks, first real name, earliest longest symbols if any is non-empty, first first_seen_at, last last_seen_at |
| ModuleUpsert.FoldColumns | cmd/knowledge_kb_extract_index.go:207-232 | the same on the texts: a name is synthesised when it contains `_module_`, lists compare by length |
| ModuleUpsert.FoldFrom | cmd/knowledge_kb_extract_index.go:207-232 | upserts on a row that is there do what they do after its own values |
| ModuleUpsert.PutAllByKey | cmd/knowledge_kb_extract_index.go:207-211 | keys do not interfere: each row is the fold of its own upserts |
| ModuleUpsert.Indexer.Index | cmd/knowledge_kb_extract_index.go:348-461 | rows land in committed batches and a run that fails has exactly its full batches on disk; a failing statement is only warned about, yet a run with one never succeeds; success gives the same rows for every batch size |
| RepoIngest.TouchAllTouches | cmd/knowledge_ingest.go:304-341 | exactly the touched rows are tagged (slug, root) and changed; ids keep their keys |
| RepoIngest.TouchAllIngests | cmd/knowledge_ingest.go:304-325 | the row of (slug, body) holds the upserts of all files with that body in order on what was there, the last one's language and the root, under its old id; all other rows are as before |
| RepoIngest.SweepIngests | cmd/knowledge_ingest.go:394-435 | the same after the sweep, which drops exactly the rows tagged (slug, root) that no file has |
| RepoIngest.SweepIsExact | cmd/knowledge_ingest.go:394-435 | the sweep goes through exactly when every touched id fits 32 bits; then the rows tagged (slug, root) are exactly the touched ones and all others, other apps' included, are as before |
| RepoIngest.RerunDeletesNothing | cmd/knowledge_ingest.go:347-365 | re-running on an unchanged tree touches the same rows and deletes nothing |
| RepoIngest.RepoIngester.Walk | cmd/knowledge_ingest.go:229-356 | a walk that fails keeps exactly its full batches; one with a failed statement never succeeds |
| RepoIngest.RepoIngester.Run | cmd/knowledge_ingest.go:134-375 | walk, touch and sweep: every file's row is stored so; after a failed walk that holds of the full batches and nothing is swept, a dry run changes nothing |
| RepoIngest.RepoIngester.SweepNow | cmd/knowledge_ingest.go:394-435 | fills the keep table id by id, gives up without deleting on one it cannot hold, does nothing for a run that touched nothing |
| DedupBackfill.Rep | cmd/knowledge_kb_backfill_dedup.go:98-103 | the lowest-id summarised module with the body |
| DedupBackfill.RichRep | cmd/knowledge_kb_backfill_dedup.go:70-76 | the lowest-id summarised module with the body that has an enrichment row |
| DedupBackfill.UpdateClears | cmd/knowledge_kb_backfill_dedup.go:91-107 | a module is cleared exactly when the count query counts it; flagged, un-hashed, summarised and out-of-scope rows never change |
| DedupBackfill.CountIsCleared | cmd/knowledge_kb_backfill_dedup.go:47-59 | the announced number is the number of modules cleared |
| DedupBackfill.ZeroLeft | cmd/knowledge_kb_backfill_dedup.go:47-59 | afterwards the count in the same scope is zero |
| DedupBackfill.InsertFirstExact | cmd/knowledge_kb_backfill_dedup.go:63-87 | enrichment rows are added for exactly the pending modules without one that have a source, copied from the lowest-id source; present rows stay |
| DedupBackfill.OrderMatters | cmd/knowledge_kb_backfill_dedup.go:140-149 | with the summary update first the enrichment insert adds nothing at all |
| DedupBackfill.SameSiblingIff | cmd/knowledge_kb_backfill_dedup.go:63-107 | summary and enrichment come from one sibling exactly when the lowest-id summarised one has an enrichment row |
| DedupBackfill.SummariesAreTaken | cmd/knowledge_kb_backfill_dedup.go:91-107 | each waiting module gets summary and tags of the lowest-id summarised module with its body, no other module or column changes |
| DedupBackfill.EnrichmentIsTaken | cmd/knowledge_kb_backfill_dedup.go:63-87 | each waiting module without an enrichment row gets a copy of the lowest-id enriched sibling's, no other row comes or changes |
| DedupBackfill.Catalog.Run | cmd/knowledge_kb_backfill_dedup.go:111-163 | a run that commits does both, clears exactly the announced number and leaves none; otherwise nothing changes |
| AttachProtocol.StepKeeps | cmd/capture_webview2_attach.go:203-267 | every step of listener and caller keeps the protocol's invariant |
| AttachProtocol.Honest | cmd/capture_webview2_attach.go:226-266 | over every interleaving the one send never blocks, "Attached" is printed exactly on return from a successful attach, and a refused attach is reported and returned as an error |
| AttachProtocol.NothingLeaks | cmd/capture_webview2_attach.go:213-257 | once the caller has returned the listener's context is cancelled, its connection closed and its slot free |
| AttachProtocol.RunsAreShort | cmd/capture_webview2_attach.go:203-267 | no interleaving has more than seven steps |
| AttachProtocol.CallerNeverWaits | cmd/capture_webview2_attach.go:229-266 | once attach has returned the caller can always take a step of its own and returns within four |
| SweepEpochs.MaxIsAttained | pkg/knowledge/kb/sources/sources.go:120-123 | the maximum is an epoch of the app, or 0 without rows |
| SweepEpochs.Sweeper.Begin | pkg/knowledge/kb/sources/sources.go:63-147 | a reused epoch's row is found or created, a fresh one is MAX + 1 |
| SweepEpochs.Sweeper.SweepEntry | cmd/knowledge_sweep.go:238-300 | every directory that reaches the catalog gets a pass; an entry's passes take m + 1, m + 2, ... until one succeeds and that epoch from then on; other apps keep theirs |
| SweepEpochs.Sweeper.Sweep | cmd/knowledge_sweep.go:225-297 | no epoch crosses from one entry to the next, whatever the global held, even for an app listed twice |
| SweepEpochs.OneEpochPerAppIff | cmd/knowledge_sweep.go:240-243 | all passes of an app in a sweep share one epoch exactly when at most one of its entries has an attempt and that entry's first attempt succeeds or is its only one |
| SweepEpochs.ListedTwice | cmd/knowledge_sweep.go:122-175 | the two entries for slack, both indexed, take two epochs |
| EnvExpansion.EndsIfSmall | cmd/knowledge_sweep.go:380-397 | with at most one percent sign in any value the loop ends within as many iterations as the input has percent signs |
| EnvExpansion.EndsIff | cmd/knowledge_sweep.go:380-397 | with an even number of percent signs in every value the loop ends exactly when no name reachable from the input, through values, refers back to itself |
| EnvExpansion.ResultIsExpanded | cmd/knowledge_sweep.go:380-397 | its result is then the input with every name replaced by its value and the names in values likewise |
| EnvExpansion.SelfReferenceLoops | cmd/knowledge_sweep.go:380-397 | a value that refers to its own variable keeps the loop going for ever |
| EnvExpansion.ExpandWindowsEnv | cmd/knowledge_sweep.go:380-397 | returns on exactly the inputs on which the iterations end, with their result; at most one percent sign is left |
| TextCodecs.DoubleQuotes | cmd/db_bootstrap.go:221-246 | the loop gives the runes of the text, U+FFFD for each bad byte, with every quote doubled |
| TextCodecs.Quote | cmd/db_bootstrap.go:221-246 | identifier and literal quoting give the quoted token of the specification |
| TextCodecs.QuoteReadsBack | cmd/db_bootstrap.go:221-246 | before any suffix not starting with its quote the token reads back with exactly that suffix left; the text read back is the input exactly when that was valid UTF-8 |
| TextCodecs.EscapeIsPerChar | cmd/registry.go:181-185 | the two replacements are one map over the characters |
| TextCodecs.RegStringRoundTrip | cmd/registry.go:181-185 | a reader that takes the character after a backslash recovers the string |
| TextCodecs.BytesToHex | cmd/registry.go:187-197 | the loop builds the comma-separated list |
| TextCodecs.HexRoundTrip | cmd/registry.go:187-197 | the list decodes to the same bytes and has 3 n - 1 characters |

## Left out

- EnvExpansion.EndsIff: environments that mix a value of two or more percent signs with one of an odd number are not decided; there a name can form across the end of a value. `EnvExpansion.SelfReferenceLoops` covers some of them.
- EnvExpansion.ExpandWindowsEnv: the method requires that the iterations end; on other inputs the function never returns and there is no result to state.
- MigrationLanding.InsertAllLands: compares tables with every parent named by its unique key, so up to renaming of generated ids.
- SnapshotStore.SeenIs: for versions that climb with `..` what the walk decodes is given by the cleaned path itself, not restated from the text.
- MigrationProofs.MappedChildLands: speaks of sources with unique ids, which SQLite's primary keys are; a repeated id keeps its last row in the map, as in the code.
- SnapshotRuntime.KbStore.Session: commands run one after the other; `SnapshotStore.PassBeforeRowIff` says what an orphan pass between another capture's rename and its insert does.
- Constraints of the target other than unique keys (NOT NULL, foreign keys, lengths) appear as statements that fail.
- The migrator's legacy anchor, its --verify pass and its dry run.
- A scan error half way through a source table: the same as a failing statement at that row.
- Alias resolution and `kb merge`, which give a row a kb_id its folder name no longer carries; `kb ingest` of an existing folder.
- What ingest, the classifier, the extractors, detectors and analysers compute: they are parameters, deterministic where the code relies on it.
- `kb gc --orphan-bodies` and `--orphan-files`: one statement each, nothing to reason about across functions.
- A snapshot folder's own sub-directories and files are one unit; Windows path syntax, where a backslash separates too.
- Resolving module_deps.to_id after a static backfill.
- The contents of module_sightings and module_bodies written by kb index and ingest-repo (their failures are in); the repos row.
- The argument lists of the dedup queries.
- Trigram similarity, ILIKE, SHA-256, base64 and JSON; similarity is a real number and a cursor its decoded token.
- The value names a `.reg` replay writes without escaping, and its other value types.
- Command-line wiring, prompts, tables, progress messages, wall-clock time, real sockets, processes and file contents.
