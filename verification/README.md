# PRTS data service: verified model

Dafny model of the data service's core algorithms and protocols, with proofs of what they promise.
`dafny verify dfyconfig.toml` checks everything.

The service answers questions about game data. The data come as JSON documents or as an immutable
SQLite database that is published in generations. The model has six parts.

1. **JSON pipeline** (`Json`, `OrderedPairs`, `OrderedMaps`, `Parsing`, `FrozenJson`, `Merging`,
   `EnemyDatabase`, `StageStats`, `PrintedStats`). Enemy statistics at a stage level with an override can be computed
   by parsing everything, normalizing, merging deeply and formatting; or by parsing under a
   projection into frozen trees with shared names, normalizing those, and resolving six fields
   through a deferred merge. Default statistics are extracted in full from the level-zero row. Raw
   documents are trees whose objects may repeat names; a malformed token is a leaf with its error. Main
   results: `StageStats.CachedStageStats` equals the plain pipeline on every document, enemy, level and
   override, and `StageStats.CachedDefaultStats` on every document and enemy, failures and their errors
   included; and `PrintedStats` says of the document's own values what both show.
2. **Generations** (`Publication`, `PublicationProgress`, `PublicationDecisions`, `PublicationFaults`,
   `Admission`). One publisher under `sync.lock` and any number of readers in other processes, one system call per step.
   The publisher may crash anywhere, which also stands for every failed call that ends its work; failed
   calls after which it goes on are steps of their own. Main results: open readers keep their file
   until they leave; an `active` that can be read names an intact file, and so does `previous` unless a
   pruning overlooked it; open readers hold their lease unless it was removed from a linked file;
   activations never step back unless a release was let through past an `active` that could not be
   read. For each of the three exceptions: a run, and exactly when a failed call leads to it. Every
   admission of an expected file is traceable to a full content check, and every refusal to a fault of
   the file, a change of it or a locked lease.
3. **Block-filtered search** (`RegexPrefix`, `RegexSearch`, `Utf`, `Matching`, `BlockSearch`). The
   literal prefix read from compiled bytecode is mandatory for every accepting run of a
   nondeterministic machine in which opcodes unknown to the analysis may do anything. Main result:
   `BlockSearch.SearchDerived`, from bytecode and records to results: searching the derived blocks
   finds what scanning the records finds, unless that scan gives up on a record of a skipped block.
4. **Directory lease lock** (`ActivationLock`). A clock and any number of processes. Main results:
   mutual exclusion under prompt owner files and heartbeats; without them, exactly when a process
   removes a directory that it did not make.
5. **Inverted index and relational copies** (`Appearances`, `Tables`, `Entities`).
6. **Bounded state and exact arithmetic** (`Objects`, `Sessions`, `ActivePointer`, `Civil`).

Methods follow the source's loops and updates and are proved against functions; lemmas state what
those functions mean. In the two protocols that are state machines, `Step` is the next state of one
action and `Run` any sequence of them.

## What the proofs assume

- A file identity never recurs on a path, and one identity always has one content. SHA-256 is taken
  as a function of the content, and SQLite's integrity check as a predicate of it. The quick check finds
  fault only with a content with which the full check does.
- Processes crash; the machine does not lose power. A rename, a removal and a pointer write are each
  one step. In the lease lock, checking a directory and renaming it away is one step, and so are
  reading the owner file and removing the directory, and reading the owner file and setting its
  modification time in a heartbeat (`src/sync/activation.rs:152-158`).
- A session watchdog reads the clock and goes to sleep in one step. The session table's counts are
  steps of their own, behind the table's lock, except in an eviction, which raises both counters
  in one step under the lock. So `evicted <= closed` holds between steps; a metrics snapshot, which
  does not take the lock, may fall between the two counters (`src/protocol/session.rs:161-162`).
- The regular expression engine answers as the machine does on the compiled bytecode
  (`Matching.Faithful`), and the compiler emits case-folded operands and well-formed group saves
  (`Matching.WellCompiled`). The fold table lower-cases ASCII letters
  and has the two properties that `src/text/regex_compat.rs:374-386` states.
- Text to number conversion, the formatting of the six values and of the full extraction, writing and
  reading stored search payloads, memory capacities, session ids and clocks are parameters.

## Findings

- *Lease lock.* The source says that a superseded holder never removes its successor's lock. That
  fails in two ways, each with a run under the default timing that leaves a running process without
  its lock. An owner file written late lands in the successor's directory, and the release removes that
  (`ActivationLock.LateOwnerBreaksTheLock`). Or writing it fails while nothing stands at the path, and
  the clean-up removes what stands there afterwards (`ActivationLock.LateCleanUpBreaksTheLock`).
  `ActivationLock.ForeignRemovalExactly` shows that there is no third way and that these always
  do: over every run, the process's own directory was not the one at the path when it wrote its owner
  file, or is not when it cleans up. Prompt owner files alone rule both out
  (`ActivationLock.OnlyOwnDirectoriesAreRemoved`), however late the heartbeats are.
- *A failed read of `active`.* Any read error counts as an invalid pointer
  (`src/storage/database.rs:79-85`, `src/sync/database.rs:121-150`), so an intact newer generation may
  be replaced by an older one that `previous` still names: `PublicationFaults.MisreadRun`.
  `PublicationFaults.MisjudgementExactly` is the exact condition, on the pointer, the release and the
  `active` that could not be read.
- *A failed read of `previous` before pruning.* It counts as nothing to keep
  (`src/sync/database_io.rs:175-177`), so the file of an intact `previous` is unlinked:
  `PublicationFaults.OversightRun`. It is possible exactly when that pointer is readable otherwise and
  names another file than `active`, with its lease (`PublicationFaults.OversightExactly`).
- *A lease removed from a linked file.* When the unlink of a refused file fails, the clean-up still
  removes its lease (`src/sync/database_io.rs:99-100`); and when a file cannot be looked up in a
  pruning, its lease counts as an orphan (line 202), even if a pointer names the file. These two failed
  calls, on a file that is linked and has its lease, are exactly those that may lead to it
  (`PublicationFaults.StrandingExactly`). The file may be found again and activated; readers then open
  it without a lock: `PublicationFaults.StrandedRun`, and exactly when the file has no lease
  (`PublicationFaults.ReaderOpensUnleasedExactly`). What they have open still stays, since pruning
  passes over a file without lease.
- *Idle watchdog.* It is said to fire no later than the timeout after the last activity
  (`src/protocol/session.rs:141`). Its first sleep lasts the whole timeout from the time it is
  first run, so it fires later exactly when that sleep began behind the last activity
  (`Sessions.SessionTable.DueLateExactly`), as in `Sessions.LateWatchdog`.
- *Session counts.* The closed and live sessions add up to the initialized ones exactly when as many
  sessions await being counted in as out (`Sessions.SessionTable.CountsAgreeExactly`); in
  `Sessions.UncountedSession` they do not.
- *Spawn counts.* Counts are summed in 64 bits and each addend may be as large as the type, so a
  recorded count is right exactly when the true total fits (`Appearances.CountIsExact`); two actions
  suffice to record a negative one (`Appearances.CountMayWrap`).
- *Idle timeout.* A configured timeout between zero and one millisecond enables eviction with no
  idle time at all (`Sessions.TimeoutIsEnabled`).

## Model

| member | source | states |
|---|---|---|
| OrderedPairs.GetPut | src/domain/enemy_db.rs:77-123 | Setting a key changes that key's lookup and no other |
| OrderedPairs.PutKeys | src/domain/enemy_db.rs:77-123 | Setting a present key moves no key; setting a new one appends it |
| OrderedMaps.OrderedMap.Insert | src/domain/enemy_db.rs:91-102 | Entry vector and position index stay in step and together behave as the ordered map; the old value is returned |
| OrderedMaps.OrderedMap.Lookup | src/domain/enemy_db.rs:103-111 | The indexed lookup is the ordered map's |
| Parsing.FullDistinct | src/storage/projection.rs:102-121 | However often a document repeats names, no object of the parsed value does, at any depth |
| Parsing.RoundTrip | src/storage/projection.rs:22-121 | Any value without repeated names, written down, is read back as itself, and fails exactly when it is nested more deeply than allowed |
| Parsing.FirstFaultOfDocument | src/storage/projection.rs:22-121 | A text fails exactly when something in it or behind its root is wrong, with the error that stands first |
| Parsing.ArrayCollects | src/storage/projection.rs:86-100 | The items of an array, one by one and in order |
| Parsing.ObjectCollects | src/storage/projection.rs:102-121 | With repeated names, a name has the value of its last entry and the place of its first |
| Parsing.ProjectPut | src/storage/projection.rs:102-121 | Selecting after an insertion is inserting after the selection, so fields can be dropped while repeated names still stream by |
| Parsing.ParseProjected | src/storage/projection.rs:22-121 | The projected parse yields the value, or the error, of parsing everything and selecting afterwards; discarded subtrees are validated in full |
| Parsing.VisitSeq | src/storage/projection.rs:86-100 | The item loop under a projection, for every nesting limit |
| Parsing.VisitMap | src/storage/projection.rs:102-121 | The field loop under a projection: last value, first position, for selected fields only |
| Parsing.ParseProjectedDocument | src/storage/projection.rs:22-27 | A whole text, trailing content included: same acceptance for every projection |
| FrozenJson.GetFrozenAgrees | src/storage/frozen.rs:26-34 | Reading a field of a frozen tree finds what reading the thawed value finds |
| FrozenJson.BuildIndex | src/storage/frozen.rs:168-220 | The hash index built at the sixteenth field holds exactly the positions of the names |
| FrozenJson.PlaceField | src/storage/frozen.rs:168-220 | Adding a field by linear scan or by index, on either side of the switch, is the ordered map's insertion |
| FrozenJson.FreezeMap | src/storage/frozen.rs:168-220 | A frozen object thaws to the projected object, order and repeated names included |
| FrozenJson.ParseFrozenDocument | src/storage/frozen.rs:72-85 | Frozen parse, then thaw, equals parse and project, errors included; equal names of one document share one allocation |
| Merging.ComputeMergeDefined | src/domain/enemy_stats.rs:176-207 | The two loops over a mutable map compute the recursive merge |
| Merging.GetMergeFields | src/domain/enemy_stats.rs:176-207 | In a merge every key is decided on its own by the base's value, null when absent, and the override's |
| Merging.MergeKeepsOrder | src/domain/enemy_stats.rs:176-207 | A merge keeps the base's keys first and in order and repeats none |
| Merging.FieldOfMerge | src/domain/enemy_stats.rs:176-207 | One field of a merge of any base, non-objects included, with skipped children left alone |
| Merging.MergedAt | src/domain/enemy_stats.rs:176-207 | At any depth: a place that the override defines holds its value; one it marks as undefined or does not mention holds the base's; at any other wrapper and at a non-object it is the base's, or null |
| Merging.DeferredAt | src/domain/enemy_stage_stats.rs:20-66 | The same of lazy reads along a path |
| Merging.KeysOfMerge | src/domain/enemy_stats.rs:176-207 | The keys of a merge are the base's, then those the override adds, in its order |
| Merging.MergeAgrees | src/domain/enemy_stage_stats.rs:21-33 | A deferred merge stands for the eager one, wrappers and non-object overrides included |
| Merging.GetMergedAgrees | src/domain/enemy_stage_stats.rs:35-66 | One lazy field read finds a value exactly when the eager merge has one, and the same value |
| Merging.DeferredPathAgrees | src/domain/enemy_stage_stats.rs:42-66 | Lazy reads along a path of any length agree with lookups in the materialized value |
| Merging.DeferredMergeIsMerge | src/domain/enemy_stage_stats.rs:20-66 | For every base of either tree kind, override and path, the deferred and the eager merge agree |
| Merging.GetViewAgrees | src/storage/json_view.rs:11-80 | The read interface over both tree kinds agrees with the plain value |
| EnemyDatabase.TruncateTowardZero | src/domain/enemy_db.rs:52-73 | Levels are truncated toward zero and lose less than one |
| EnemyDatabase.LevelReads | src/domain/enemy_db.rs:52-73 | Which level a row's `level` stands for: numbers and texts of numbers truncated within 64 bits, flags one or zero, anything else or nothing zero |
| EnemyDatabase.LevelsOfLast | src/domain/enemy_db.rs:166-184 | A level is known exactly when a row with an enemyData object carries it, and the last such row decides |
| EnemyDatabase.LegacyRowsLast | src/domain/enemy_db.rs:130-164 | In the legacy layout the last usable row of a name decides; later unusable rows change nothing |
| EnemyDatabase.KnownHasLevels | src/domain/enemy_db.rs:166-184 | Rows give levels exactly when one of them carries an enemyData object |
| EnemyDatabase.DirectRowsExactly | src/domain/enemy_db.rs:156-164 | In the direct layout an enemy is known exactly when its field is an array of such rows, with their levels |
| EnemyDatabase.NormalizeEnemyDatabase | src/domain/enemy_db.rs:130-184 | Both layouts, both failures: the index built in loops is the specified one |
| EnemyDatabase.FrozenDatabase.Add | src/domain/enemy_cache.rs:58-72 | Adding an enemy's frozen rows is adding their values |
| EnemyDatabase.FrozenDatabase.StageEntry | src/domain/enemy_cache.rs:77-80 | The requested level, or level zero, as the plain index selects it |
| EnemyDatabase.FrozenDatabase.DefaultEntry | src/domain/enemy_cache.rs:73-76 | Level zero, or else the least level, as the plain index selects it |
| EnemyDatabase.FromJson | src/domain/enemy_cache.rs:22-57 | The compact database stands for the index that normalizing the thawed document gives, or fails with the same error |
| StageStats.NormalizeCommutes | src/domain/enemy_db.rs:13-48 | Normalizing the projected document is projecting the normalized one, and both fail alike |
| StageStats.ProjectedIndexPrintsTheSame | src/domain/enemy_db.rs:13-48 | Whatever the projection dropped, selection, merge, the six printed values and the full extraction are those of the full index |
| StageStats.ProjectedDefaultIsTheSame | src/domain/enemy_db.rs:13-48 | The default row of the projected index extracts, in full, what the default row of the full index extracts |
| StageStats.LazyAttributeAgrees | src/domain/enemy_stage_stats.rs:69-112 | An attribute read through the deferred merge is the attribute of the merged row |
| StageStats.FormatCachedStageStats | src/domain/enemy_stage_stats.rs:69-112 | The lazy formatter prints what selecting, merging eagerly and formatting prints, with every fallback |
| StageStats.CachedStageStats | src/domain/enemy_stage_stats.rs:69-112 | End to end: same failure with the same error, or same text, as the plain pipeline, on all inputs |
| StageStats.ExtractFrozen | src/domain/enemy_stats.rs:50-159 | Extracting from a frozen row is extracting from its value, whatever is made of the nineteen attributes and the skills |
| StageStats.CachedDefaultStats | src/domain/enemy.rs:386-391 | End to end: the extraction from the cached default row, or its absence or failure, is the plain pipeline's, on all inputs |
| PrintedStats.RowsAreIndexed | src/domain/enemy_db.rs:130-184 | In either layout the index holds the levels of the enemy's rows: those of the last legacy row that names it, or its own field |
| PrintedStats.RefusedExactly | src/domain/enemy_db.rs:130-164 | Exactly when a database is refused, as no object or as one without levels |
| PrintedStats.StatsAreOfTheRow | src/domain/enemy_stage_stats.rs:69-112 | For every document not nested too deeply: the six values are those of maxHp, atk, def, magicResistance, moveSpeed and baseAttackTime in the row that answers, as the override leaves them |
| PrintedStats.OverrideIsShown | src/domain/enemy_stage_stats.rs:69-112 | An attribute that the override defines is shown with the override's value, whatever the row has |
| PrintedStats.WholeRowIsReplaced | src/domain/enemy_stage_stats.rs:75-89 | An override that is a wrapper replaces the whole row by an object it defines, and otherwise leaves it |
| PrintedStats.StatsWithoutEntry | src/domain/enemy_stage_stats.rs:90-97 | Without an entry the override's own attributes are shown, and without either the fixed text |
| PrintedStats.StatsFail | src/domain/enemy_stage_stats.rs:69-112 | Exactly when the statistics fail, and with which error first |
| PrintedStats.DefaultStatsAreOfTheRow | src/domain/enemy_stats.rs:50-159 | The default statistics are extracted from the nineteen attributes and the skills of the row of level zero, or of the least level |
| RegexPrefix.Prefix | native/regexp.c:67-99 | The loop over the bytecode computes the specified analysis and touches nothing behind what it returns |
| RegexPrefix.AnalysisFinds | native/regexp.c:67-99 | For any linear part behind the search loop, of literals in one case mode and group saves: exactly its literals up to the capacity, with that mode, complete exactly when a match follows and all fit |
| RegexPrefix.AnalysisIsEncoded | native/regexp.c:67-99 | Conversely, whatever is found stands in the code in that form, and what ends it could not have been taken |
| RegexPrefix.LinearIsMandatory | native/regexp.c:80-96 | Every accepting run from a point of the linear part consumes the literals still to be claimed |
| RegexPrefix.LoopIsLeft | native/regexp.c:72-79 | An accepting run leaves the search loop, at a character position |
| RegexPrefix.PrefixIsMandatory | native/regexp.c:67-99 | Whatever follows the linear part and whatever other opcodes do, every accepting run consumes the returned literals in order |
| RegexSearch.DecidedOnce | vendor/quickjs-regexp/libregexp.c:2832-3130 | An outcome of the backtracking matcher does not depend on how long it may go on |
| RegexSearch.LeftmostIsFirst | native/regexp.c:67-99 | The specified occurrence is none exactly when there is none, and otherwise the first |
| RegexSearch.LinearRun | vendor/quickjs-regexp/libregexp.c:2984-3096 | A complete linear part goes straight to the match or back to the pending alternative |
| RegexSearch.CompleteSearch | native/regexp.c:67-99 | On a complete program the matcher decides: it reports the leftmost occurrence as group 0, and fails exactly when there is none |
| Utf.StretchOfText | src/text/regex_compat.rs:172-176 | Bytes that encode a literal inside an encoded text are that literal inside the text |
| Utf.Utf8Synchronises | src/text/regex_compat.rs:151-157 | UTF-8 is injective per character and its lead bytes mark exactly the character starts |
| Utf.Utf8IsStandard | examples/data_compiler/derive.rs:38-64 | Texts are encoded as UTF-8 is laid out in section 3 of RFC 3629 |
| Utf.ReachesOffset | src/text/regex_compat.rs:199-204 | Character positions the machine meets in UTF-16 are those of the text |
| Utf.ConsumesIsMatch | src/text/regex_compat.rs:199-204 | Consuming literals in UTF-16 is matching them, folded or not, in the text |
| Matching.Compile | src/text/regex_compat.rs:108-148 | The prefix kept with an expression is the analysis of its bytecode, through the buffer of 32 |
| Matching.PrefixForm | src/text/regex_compat.rs:123-148 | Exactly which literals are kept as they are, which in the folded form, and which not at all |
| Matching.NativeNeedsLiterals | src/text/regex_compat.rs:108-148 | The engine matches no text without the analysed literals |
| Matching.NativeIsLiterals | src/text/regex_compat.rs:108-148 | On a complete program the engine matches exactly the texts that contain them |
| Matching.ExactOccurrence | src/text/regex_compat.rs:133-137 | For the exact form, folding never identifies two different characters |
| Matching.AsciiFoldContains | src/text/regex_compat.rs:308-327 | A decided scan is right about containment up to ASCII case; undecided only where a special fold may hide |
| Matching.ScanFindsFolded | src/text/regex_compat.rs:308-327 | An occurrence through folding is found by the scan or leaves it undecided |
| Matching.ScanIsFolded | src/text/regex_compat.rs:308-327 | A positive scan is an occurrence of ASCII characters in the text |
| Matching.ScanAnswers | src/text/regex_compat.rs:308-327 | The scan answers whenever no special fold may hide, and answers right |
| Matching.ShortcutAnswers | src/text/regex_compat.rs:172-197 | Whatever the engine would say: a text without the literal never matches, and one with it does when the literal is everything |
| Matching.IsMatchIsNative | src/text/regex_compat.rs:172-197 | The shortcut through the literal never changes the engine's answer |
| Matching.MayMatchBytes | src/text/regex_compat.rs:275-306 | The candidate loop decides whether some position matches byte by byte |
| Matching.MayMatchExactly | src/text/regex_compat.rs:275-306 | The bytes that pass are exactly those that hold the literal, or the encoding of some text that folds to it |
| Matching.BlockIsKept | src/text/regex_compat.rs:150-157 | No false negatives: bytes that contain a matching text pass the prefilter |
| Matching.AcceptedIsKept | src/text/regex_compat.rs:150-197 | Nor do bytes fail the prefilter that contain a text the shortcut alone accepts |
| Matching.CompiledIsSound | src/text/regex_compat.rs:64-197 | Every analysed expression may be used for filtered search |
| BlockSearch.Derive | examples/data_compiler/derive.rs:38-64 | Row per record with its payload as written; blocks are closed by the record that fills them and hold their records' NUL-terminated texts |
| BlockSearch.ExactlyOneBlock | examples/data_compiler/derive.rs:38-64 | Every ordinal lies in exactly one block: no gap, no overlap |
| BlockSearch.TextInPayload | examples/data_compiler/derive.rs:38-64 | A record's text stands unbroken in its block's payload |
| BlockSearch.FirstMatchesAreAll | src/domain/search.rs:144-157 | The scan's result is all matches in order, cut to the limit |
| BlockSearch.FirstMatchesExactly | src/domain/search.rs:144-157 | With an engine that may give up: the scan fails exactly when it does so before enough is found, and otherwise is all matches cut to the limit |
| BlockSearch.LinearSearch | src/domain/search.rs:144-157 | The in-memory loop computes the scan with the shortcut, giving up where that does; where the bare engine's scan completes, it is that scan |
| BlockSearch.SkippedBlock | src/domain/search.rs:261-314 | A linear scan passes through a rejected block unchanged, or gives up in it |
| BlockSearch.KeptIsEnough | src/domain/search.rs:261-314 | For every limit, scanning the blocks that are read agrees with the linear scan, unless that one gives up on a record that is not read |
| BlockSearch.SearchBlock | src/domain/search.rs:261-314 | One block: skipped or read, it hands on the same pending result, ends the search or gives up |
| BlockSearch.DatabaseSearch | src/domain/search.rs:261-314 | The block scan is exactly the scan of the records it reads with their payloads read back, failing where that gives up or a taken payload cannot be read; and the linear scan, limit and order included, unless that one gives up on a record of a skipped block |
| BlockSearch.ReadBack | src/domain/search.rs:293-301 | Scanning stored payloads and reading them back is scanning the records, when each payload reads back as itself |
| BlockSearch.SearchDerived | src/domain/search.rs:261-314 | Derive, compile, filter, search and read back end to end: the same on the derived blocks, and equal to the bare engine's scan where that completes |
| Publication.VersionOrder | src/sync/database.rs:116-167 | Version texts are strictly and totally ordered |
| Publication.StepKeepsInv | src/sync/database_io.rs:75-236 | Every system call of publisher or reader, failed call, crash and outside damage keeps the protocol's invariant; a linked database has its lease unless that was removed from under it |
| Publication.OpenReadersAreSafe | src/storage/sqlite.rs:157-228 | In every reachable state an open reader's file is linked; unless its lease was removed while it was, the reader holds the shared lock on it |
| Publication.OpenReadersStayOpen | src/storage/sqlite.rs:157-228 | No step but its own close takes an open reader's file away or changes its contents, whatever fails |
| Publication.OpenUntilClosed | src/storage/sqlite.rs:157-228 | From any open to any later state of a run: the reader has left, or its file is linked with unchanged contents |
| Publication.PinnedFileSurvives | src/sync/database_io.rs:174-236 | Pruning and failed publication never unlink a file that an open reader pins, by its lock or because the lease is gone |
| Publication.PointersAreIntact | src/sync/database_io.rs:113-145 | After any steps, crashes and failed calls an `active` that parses names a file with its digest; so does `previous` unless a pruning overlooked it |
| Publication.CandidatesAreIntact | src/storage/database.rs:93-130 | A configured path stands alone; else managed databases come before the others and are intact, save what a pruning overlooked, and the last activated one comes first whenever `active` can be read |
| Publication.CandidatesAre | src/storage/database.rs:93-130 | What is offered in any state: a configured path alone, or what each readable pointer names, then the root's and the bundled database |
| Publication.GenerationsAscend | src/sync/database.rs:116-167 | Without outside damage and without a release let through past an unreadable `active`, activations never go back, and one generation keeps its digest |
| PublicationFaults.FaultFreeIsSafe | src/sync/database_io.rs:75-236 | With crashes anywhere but no failed call after which the work goes on, none of the exceptions occurs: pointers intact, leases linked, open readers locked, activations ascending |
| PublicationFaults.MisjudgementExactly | src/sync/database.rs:121-150 | Exactly when a judgement lets activations step back: `active` was not read, the pointer read in its place does not refuse the release, and what is activated may not follow the `active` that was there |
| PublicationFaults.OversightExactly | src/sync/database_io.rs:175-196 | Exactly when a failed read before pruning may cost `previous` its file |
| PublicationFaults.StrandingIsPending | src/sync/database_io.rs:97-226 | Exactly in which states a linked file may lose its lease without a further failure |
| PublicationFaults.StrandingExactly | src/sync/database_io.rs:97-226 | For every failed call and every file: exactly when it may cost the linked file its lease |
| PublicationFaults.ReaderOpensUnleasedExactly | src/storage/sqlite.rs:157-228 | An uninterrupted reader opens a linked file without a lock exactly when the file has no lease |
| PublicationFaults.MisreadRun | src/storage/database.rs:79-85 | A run without damage in which one failed read steps activations back |
| PublicationFaults.OversightRun | src/sync/database_io.rs:175-177 | A run without damage in which one failed read costs `previous` its file |
| PublicationFaults.StrandedRun | src/sync/database_io.rs:97-102 | A run without damage in which one failed unlink ends with a reader open without a lock |
| PublicationProgress.SynchronizationSucceeds | src/sync/database.rs:94-167 | From any reachable idle state, undisturbed work on a newer release ends with it active, its file in place, and the replaced generation as `previous` |
| PublicationProgress.ReleaseIsWanted | src/sync/database.rs:116-167 | A newer release with another digest is neither refused nor served from what is there |
| PublicationProgress.FileIsPlaced | src/sync/database_io.rs:75-111 | Lease, file and verification come before any pointer changes |
| PublicationProgress.OutgoingIsKept | src/sync/database_io.rs:113-145 | Switching away from an intact generation leaves that behind as `previous` |
| PublicationProgress.PruneTakesTheUnpinned | src/sync/database_io.rs:174-236 | A file that neither pointer names and no reader pins goes with its lease, and nothing else does |
| PublicationProgress.PrunePassesThePinned | src/sync/database_io.rs:174-236 | A pinned file is passed over |
| PublicationProgress.ReaderOpens | src/storage/sqlite.rs:157-228 | An uninterrupted reader opens the file it chose under a shared lock |
| PublicationDecisions.VersionLessIsSmaller | src/sync/database.rs:132-139 | A version text is less when it is smaller at the first difference, or ends there |
| PublicationDecisions.PreparationExactly | src/sync/database.rs:116-150 | The whole decision from any reachable idle state: refused, served from `active` or, when that does not parse, from `previous`, or looked up |
| PublicationDecisions.RefusedFileGoes | src/sync/database_io.rs:75-102 | A database that does not verify goes again, with its lease |
| PublicationDecisions.ActivationExactly | src/sync/database_io.rs:113-123 | In every case `active` names the target, and `previous` the pointer replaced exactly when that names another, intact file with another digest |
| PublicationDecisions.PruningRetains | src/sync/database_io.rs:174-178 | What is retained beside the current file is what a readable `previous` names |
| PublicationDecisions.PrunePassesTheRetained | src/sync/database_io.rs:182-222 | A retained database, and one without lease, is not touched |
| PublicationDecisions.OrphanLeaseGoes | src/sync/database_io.rs:198-210 | A lease goes exactly when its file is gone and no reader holds it |
| PublicationDecisions.ReaderChooses | src/storage/database.rs:93-130 | A reader takes up what a pointer that parses names |
| PublicationDecisions.ReaderTurnsBack | src/storage/sqlite.rs:157-228 | A reader turns back wherever it finds the file gone or the lease locked, and lets its lock go |
| Admission.LiveKeeps | src/storage/validation.rs:117-131 | Dropping receipts of changed files keeps the others, in order, one per path |
| Admission.PopKeepsNewest | src/storage/validation.rs:103-106 | Popping the oldest receipt keeps the newest ones |
| Admission.MakeRoom | src/storage/validation.rs:103-106 | The eviction loop leaves exactly the newest receipts that fit |
| Admission.Process.VerifiedDigest | src/storage/validation.rs:117-131 | Found exactly when a current receipt proves the digest, a full one in strict mode |
| Admission.Process.RememberProof | src/storage/validation.rs:78-115 | The new receipt list in full: nothing without a current identity, an unlocked lease or a lease file; otherwise current receipts of other paths, the newest seven, then this one |
| Admission.Process.Forget | src/storage/validation.rs:133-141 | Exactly the path's receipts go |
| Admission.Process.Authenticate | src/storage/admission.rs:58-71 | Size and digest are those of the observed identity, though other processes act between the steps; a reused receipt stands for a recorded check |
| Admission.Process.OpenHandle | src/storage/sqlite.rs:108-228 | A reused or newly opened handle is bound to an identity the path had during the call |
| Admission.Process.CheckCustom | src/storage/sqlite.rs:244-256 | What level of check a handle without expectation has reached |
| Admission.Process.StampMatches | src/storage/validation_stamp.rs:27-46 | A stamp matches exactly when it is this engine's for these bytes, and then a full check of such bytes is on record |
| Admission.Process.Admit | src/storage/admission.rs:47-118 | Every admission of an expected file is authentic and traceable to a full check of its digest, a strict or fresh one to a check by this process on this identity; and every refusal rests on a fault of the content that the path had, a newer identity, or a locked lease |
| Admission.AdmitAlone | src/storage/admission.rs:47-118 | A process that nobody disturbs admits every expected file that is sound or has a receipt, with its lease free; and one with a receipt and a live handle even with its lease locked |
| Admission.AdmitAgain | src/storage/admission.rs:97-118 | What an undisturbed process has admitted once, with a lease file, it admits again from the receipt, even with the lease locked meanwhile |
| Admission.AdmitBeside | src/storage/admission.rs:47-118 | Two processes on one disk: an admission by one keeps the other's receipts and records valid |
| Admission.ReplaceBeside | src/storage/validation.rs:117-131 | A file replaced or removed on disk keeps a process valid, and none of its receipts is current for the new identity |
| ActivationLock.WriteIsRemembered | src/sync/activation.rs:127-136 | A process carries along, until it is done, which directory stood at the path when it wrote its owner file |
| ActivationLock.ForeignRemovalExactly | src/sync/activation.rs:127-175 | Over every run and whatever the timing: exactly which releases and clean-ups take away a directory that the process did not make |
| ActivationLock.SupersededHolderLeaves | src/sync/activation.rs:166-175 | A superseded holder whose owner file went into its own directory leaves any successor alone, whatever it still does |
| ActivationLock.StepKeepsGrace | src/sync/activation.rs:83-136 | Prompt owner files keep every owner file in its writer's directory |
| ActivationLock.OnlyOwnDirectoriesAreRemoved | src/sync/activation.rs:133-175 | With prompt owner files no process removes a directory it did not make, except by quarantine |
| ActivationLock.StepKeepsHold | src/sync/activation.rs:68-177 | Prompt owner files and heartbeats keep a single holder |
| ActivationLock.AtMostOneRuns | src/sync/activation.rs:68-177 | In every such run at most one process is in the protected section, and the standing directory is its own |
| ActivationLock.OnlyAbandonedLocksExpire | src/sync/activation.rs:87-119 | With prompt owner files and heartbeats a lock that may be quarantined has no holder |
| ActivationLock.AbandonedLockIsAcquired | src/sync/activation.rs:87-136 | From any reachable state: a standing lock left alone for the stale time can be acquired by any waiting process, which then runs in a fresh directory of its own |
| ActivationLock.RunningGoesOn | src/sync/activation.rs:147-175 | A process runs on until it finishes or dies by itself, whatever happens to its lock |
| ActivationLock.HeartbeatRefreshes | src/sync/activation.rs:147-161 | An owner's heartbeat makes its lock new again; any other leaves the lock alone |
| ActivationLock.QuarantinedExactly | src/sync/activation.rs:83-119 | Exactly when a standing directory may be taken away, by the times of its owner file and its own; a new one is made exactly when none stands |
| ActivationLock.WholeTurn | src/sync/activation.rs:68-177 | An undisturbed turn from mkdir to release leaves the path free |
| ActivationLock.CleanUpFreesThePath | src/sync/activation.rs:131-136 | A process whose owner file cannot be written leaves the path free |
| ActivationLock.LateOwnerBreaksTheLock | src/sync/activation.rs:68-177 | A run under the default timing in which two processes run and one removes the other's lock |
| ActivationLock.LateCleanUpBreaksTheLock | src/sync/activation.rs:127-136 | A run under the default timing in which a failed maker's clean-up removes the directory of a running process |
| Appearances.CountsAreTotals | src/domain/level_parser.rs:24-76 | An enemy is counted exactly when it is spawned, with its total reduced to 64 bits |
| Appearances.CountIsExact | src/domain/level_parser.rs:69-71 | The recorded count is the true one exactly when the true one fits |
| Appearances.CountReads | src/domain/level_parser.rs:57-69 | What an action's `count` counts for: truncated, at least one, within 64 bits, and one where it is no number |
| Appearances.TotalOfLevel | src/domain/level_parser.rs:24-76 | An enemy's total is the sum over the actions of a level whose type is SPAWN or 0 and whose key is the enemy |
| Appearances.CountsInOrder | src/domain/level_parser.rs:24-76 | Enemies are listed in the order of their first spawns |
| Appearances.CountMayWrap | src/domain/level_parser.rs:69-71 | Two actions whose recorded sum is negative |
| Appearances.SpawnCounts | src/domain/level_parser.rs:24-76 | The nested loops count all spawns in file order, by first appearance |
| Appearances.WavesAreEnough | src/domain/stage_enemy.rs:259-269 | Reading only the waves of a level changes no count |
| Appearances.IndexIsExact | src/domain/stage_enemy.rs:237-282 | For every enemy the index holds its stages in table order, and nothing for an enemy of none |
| Appearances.StagesAreSpawns | src/domain/stage_enemy.rs:237-282 | A stage is listed with a count exactly when its readable level spawns the enemy with that total |
| Appearances.RowsInOrder | src/domain/stage_enemy.rs:237-282 | An enemy's stages are those whose levels spawn it, in table order |
| Appearances.LevelIsRead | src/domain/level_parser.rs:17-20 | A stage's level is read from its id in lower case, with slashes |
| Appearances.EnemyAppearanceIndex | src/domain/stage_enemy.rs:237-282 | The loops over stages and counts build that index |
| Appearances.InsertRows | examples/data_compiler/derive.rs:89-98 | The table the export is inserted into, by enemy and ordinal |
| Appearances.SelectionIsUnique | src/storage/sqlite.rs:351-362 | In whatever order rows are found, the ordered query gives the enemy's rows in insertion order |
| Appearances.SelectedExport | src/domain/stage_enemy.rs:496-504 | Flattening the index and picking one enemy's rows gives back its list |
| Appearances.CopyIsExact | src/storage/sqlite.rs:351-362 | The database answers exactly as the index: the enemy's stages in table order |
| Tables.UpsertsMatch | examples/data_compiler/entities.rs:22-42 | Upserts that keep the ordinal hold the rows of an ordered map, ordinals in its order |
| Tables.ListingIsFold | src/storage/sqlite.rs:364-373 | Reading upserted rows by ordinal gives the ordered map's entries and nothing else can be read |
| Entities.NameTable.Name | examples/data_compiler/entities.rs:36-42 | One upsert of a name, other datasets untouched |
| Entities.NameTable.CaptureNames | examples/data_compiler/entities.rs:82-113 | The rows one document leaves in the table |
| Entities.NameToId | src/domain/operator.rs:246-281 | The vector and its position index fold names as `Map.set` does (ECMA-262 14th edition, section 24.1.3.9) |
| Entities.LastNameDecides | src/domain/operator.rs:246-281 | A name is found exactly when an accepted record carries it, and the last such record decides |
| Entities.NamesAreTheFold | src/domain/operator.rs:239-285 | The compiled table, in ordinal order and by lookup, is the in-memory fold, repeated names included |
| Entities.CompiledNameId | src/domain/operator.rs:287-296 | Looking a name up in the compiled table finds what the in-memory fold finds, for every document and name |
| Entities.BucketIsTheObject | src/storage/sqlite.rs:317-349 | A bucket read back in ordinal order is the source object, fields in their order |
| Objects.ChargeCoversObject | src/storage/objects.rs:23-47 | The saturating charge covers all text and a table for every nested object, at any depth |
| Objects.ObjectSaturates | src/storage/objects.rs:23-47 | The charge is the plain sum of tables, capacities and slots over the whole tree, or the greatest number where that is more |
| Objects.NextPowerIsLeast | src/storage/objects.rs:24-27 | A table has the least power of two of slots that holds the fields |
| Objects.CompactObjects | src/storage/objects.rs:51-68 | Rebuilding the maps preserves the tree |
| Objects.EvictIsLeast | src/storage/objects.rs:84-90 | Eviction keeps the longest suffix with room for the charge |
| Objects.Objects.MakeRoom | src/storage/objects.rs:85-90 | The eviction loop terminates with that suffix, its running count being the sum of charges |
| Objects.Objects.Store | src/storage/objects.rs:82-96 | The cache after a new entry: what eviction keeps, then the entry; budget and unique keys hold |
| Objects.StoredExactly | src/storage/objects.rs:84-95 | An entry of at most eight mebibytes is kept, behind the longest suffix that leaves room; a larger one changes nothing |
| Objects.Objects.GetOrLoad | src/storage/objects.rs:70-98 | A caller cannot tell the cache from the loader; charges stay within the budget, keys unique, failures and oversized objects are not kept |
| Sessions.TimeoutIsEnabled | src/protocol/session.rs:47-58 | Exactly which configured values enable eviction, for how many whole milliseconds, and which with no idle time |
| Sessions.SessionTable.Register | src/protocol/session.rs:62-75 | A session under a new id, not yet counted |
| Sessions.SessionTable.Announce | src/protocol/session.rs:76-81 | It is counted, and its watchdog spawned when eviction is enabled |
| Sessions.SessionTable.StartWatchdog | src/protocol/session.rs:143-146 | The first sleep lasts the timeout from when the watchdog is first run |
| Sessions.SessionTable.Touch | src/protocol/session.rs:84-93 | Only the last activity moves; state and channel are returned |
| Sessions.SessionTable.SetState | src/protocol/session.rs:100-104 | Only a live session's state changes |
| Sessions.SessionTable.Remove | src/protocol/session.rs:110-111 | A live session goes, to be counted as closed once |
| Sessions.SessionTable.CountClosed | src/protocol/session.rs:112-116 | The count that follows, behind the lock |
| Sessions.SessionTable.Wake | src/protocol/session.rs:143-168 | Evicts exactly at the timeout without activity, no creation or touch being more recent, and counts it; otherwise sleeps for what remains |
| Sessions.SessionTable.IdleIsBounded | src/protocol/session.rs:141-168 | No session outlives its timeout by more than its watchdog starts and wakes late |
| Sessions.SessionTable.DueLateExactly | src/protocol/session.rs:141-168 | Exactly when a watchdog is due later than the timeout from the last activity |
| Sessions.LateWatchdog | src/protocol/session.rs:77-79 | With a timeout of 10 ms and a watchdog first run 5 ms late, the watchdog is due later than promised |
| Sessions.SessionTable.CountsAgreeExactly | src/protocol/session.rs:62-168 | Initialized sessions are the live and the closed ones exactly when as many await being counted in as out |
| Sessions.UncountedSession | src/protocol/session.rs:65-76 | Between registration and count the counts do not add up |
| ActivePointer.LinesOfText | src/storage/database.rs:21-25 | Any text is its lines with some endings between them |
| ActivePointer.LinesOfWeave | src/storage/database.rs:21-25 | Lines are read back whatever endings they were written with |
| ActivePointer.ParsedAreSpelled | src/storage/database.rs:29 | Exactly which texts parse as a 64-bit number: its decimal form after zeros and an optional plus |
| ActivePointer.ValidExactly | src/storage/database.rs:36-58 | Exactly which pointers are valid: a file name without separators that ends in `.sqlite` behind a stem, a revision of at least one, a digest of 64 lower-case hexadecimal digits |
| ActivePointer.AcceptedTexts | src/storage/database.rs:21-58 | Exactly which texts are accepted as a given pointer |
| ActivePointer.RoundTrip | src/storage/database.rs:20-66 | Encoding fails on exactly the invalid pointers and is parsed back |
| ActivePointer.AcceptedReencodes | src/storage/database.rs:20-66 | Whatever was accepted is valid, and its own encoding means the same |
| Civil.YearOfEraExact | src/lib.rs:73 | The division-only year of an era is the year the day falls in |
| Civil.EraRoundsDown | src/lib.rs:71 | The adjusted truncating division rounds down for negative days |
| Civil.CivilIsExact | src/lib.rs:68-79 | Every day number, negative ones included, gives a calendar date, from which the closed formula gives it back |
| Civil.CivilIsOnto | src/lib.rs:68-79 | Every date of the proleptic Gregorian calendar is the date of its day number |
| Civil.SuccessorIsTomorrow | src/lib.rs:68-79 | The next day number gives the next calendar day (ISO 8601:2004 section 3.2.1) |
| Civil.CountsDaysFromTheEpoch | src/lib.rs:68-79 | Day zero is 1970-01-01 and day numbers count calendar days from it in both directions |

## Left out

- BlockSearch.DatabaseSearch: writing and reading a payload's text are parameters; the limit's validation, the optional stored block filter and the story search are not part of this model.
- EnemyDatabase.ParseLevel: the conversion of an integer to a double is taken as exact, which it is up to 2^53 in magnitude.
- Appearances.CountOf: the conversion of an integer to a double is taken as exact, as above.
- Appearances.PathOf: unsafe level paths and fallback stores are covered by a parameter that gives a path's document or none.
- FrozenJson.Take: gives the value moved out; the rest of the row, which nobody reads again, is dropped.
- Merging.View: number and truth views are left out; they would only add easy members.
- RegexPrefix.Machine: opcodes other than those the analysis names have no meaning of their own; they may do anything.
- Matching.Faithful: cancellation and the engine's limits appear only as missing answers; replacement of matches is left out.
- Publication.Run: downloading, decoding and staging are left out, and metadata checks during verification are a free choice. A receipt's or a handle's lease counts as one more reader. Lease inodes are identified with their file names, which are never reused. Pruning may visit entries in any order. Failed calls that end the work are crashes; existence tests may fail only when a lease is judged.
- Publication.CandidatesAreIntact: nothing is claimed of what a configured path, the root's own database and the bundled one contain; the source expects nothing of them either.
- Admission.Process.Admit: the per-path flight lock, file descriptors behind observations and the descriptor text of a receipt are left out; what opening asks of a file is one predicate of its content.
- ActivationLock.Run: waiting times and the timeout of a contender are a free choice to give up; random owner texts are distinct by construction; symbolic links at the lock's path are left out.
- Objects.Objects.GetOrLoad: each call is one step, since the lock is held throughout; a loader is given by its answer.
- Sessions.SessionTable.Wake: epoch timestamps and snapshots for metrics and the log line are left out; ids are assumed not to repeat.
- Civil.CivilFromDays: integers are unbounded; days near the ends of the 64-bit range, which no clock gives, would overflow.
- ActivePointer.Parse: texts are sequences of characters; reading the file and its UTF-8 validation are left out.
- Entities.NameTable.CaptureNames: one document per dataset; serialization of entity payloads to text and back is taken as the identity.
- Windows branches, external changes to files other than the two activation files, and power loss.
- HTTP, stdio and control servers, JSON-RPC, the command line, configuration, image synchronization, renderers and message texts.
