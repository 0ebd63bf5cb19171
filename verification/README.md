# rdlt connectors: protocols, formats and planners

A Dafny model of the hard parts of the rdlt connector crates, with their
properties proved for all inputs, all runs and all interleavings.

- **Session lease** (`LeaseProtocol`, `LeaseSession`). The object-store arm of
  the file destination's lease is a transition system over one versioned
  document and any number of sessions with distinct owner tokens, every request
  a step of its own with the values captured so far. The retry loop, heartbeat,
  guard and release are then written as methods whose every request is a step of
  that system, under arbitrary interference and lost requests.
- **Crash-replay publish** (`PublishProtocol`, `FileLoad`, `Layout`). What one
  attempt leaves on disk when it stops anywhere, what any sequence of attempts
  adds up to, and the imperative load (open parts, staging, phases) that only
  ever produces such states. Names are shown injective and recognised exactly.
- **Iceberg exactly-once commit** (`IcebergCommit`, `IcebergReceipts`,
  `IcebergLoad`, `IcebergSchema`). The bounded optimistic retry against rivals,
  the per-table convergence shared by publish and replay, receipts merged by
  maximum and retained per scope, structural drift and field numbering.
- **DuckDB types and widening** (`DuckTypes`, `Widening`, `SchemaEvolution`,
  `CatalogRuns`, `DuckStage`). The type printer and its quote- and depth-aware
  parser, the widening lattice and what its decimal edges mean in values, the
  filter and the schema steps over any number of sessions and ensures, and the
  positional stage append.
- **File source** (`FileCursor`, `FileRuns`, `WholeFileRuns`, `JsonlReader`). The
  cursor's two planners, the line reader whose records the next plan resumes from,
  and what any history of file changes, listings and reads consumes and refuses.
- **Smaller loops** (`S3Reader`, `OracleDecimal`). The chunked reader with the
  download above it, and exact decimal scaling.

`Wrappers`, `Text` and `EngineTypes` hold what these share.

Where the code and its comments or an expected property part ways, the model
follows the code and says exactly when the property holds:

- The lease's release re-reads and deletes in two requests. A run is safe if and
  only if each delete finds no other session live
  (`RunIsSafeExactlyWhenHarmless`); deleting on evidence that still passes the
  session's own guard is a test it can make that implies this
  (`ExclusionWithCarefulReleases`), and `LateReleaseBreaksExclusion` is a run of
  the code that fails it.
- When a lease document parses only on the second read, the acquire judges it
  with the first read's version (`crates/rdlt-connector-file/src/destination/lease.rs:492-628`), so its swap is refused and
  the loop turns; `JudgeDebris` keeps this.
- A receipt is pruned behind eight entries, and these are eight loads of its scope
  if and only if no undecodable entry is kept (`PrunedOnlyBehindEightNewer`): one
  stamped 0 ranks with the undecodable ones
  (`ZeroStampLosesToAnUndecodableEntry`).
- The planner plans an empty range for an empty file that was never recorded
  (`crates/rdlt-connector-file/src/source/cursor.rs:164-167`); every other planned range is non-empty.
- Append-only files can be refused. A read past the listed size records that size
  under the listing's stamps (`crates/rdlt-connector-file/src/source/read/jsonl.rs:233-276`), so a file that grows while it
  is read and is then left alone looks rewritten
  (`AppendOnlyIsRefusedExactlyWhen`, `GrowthDuringARunIsRefused`).
- A session's own last schema reaches the widen planner unfiltered
  (`crates/rdlt-connector-duckdb/src/destination/load.rs:346-351`). A re-ensure that changes a column's type rewrites the
  live column, and that widens it if and only if the live text says the new type
  already or reads as a type it widens (`ReensureWidensExactlyWhen`, over whole
  histories `LaterWidensEarlierExactlyWhenSafe`). It fails after a skipped drift
  (`SkippedDriftIsRewrittenLater`) and without any, from Int64 to Float64
  (`ValueCheckedEdgeIsRewritten`).
- After a failed ensure a stage can keep columns the session does not remember.
  Over whole sessions stages and memory stay in step if and only if no ensure
  fails behind its first new column
  (`SessionIsInSyncExactlyWhenNoneFailsLate`); after one that does, the next
  ensure leaves the stage in schema order if and only if its columns are a prefix
  of that schema (`StagedOrderExactlyWhenPrefix`, `FailedEnsureCanDisorder`).
- The lattice counts the digits before a decimal's point as at least none, so a
  type whose scale exceeds its precision may widen to one that does not hold its
  values (`DecimalWidensExactlyWhenHeld`, `TooManyZerosInFront`).
- `scaled_i128` reads two signs in front of a number and a sign behind the point
  (`ScalesExactlyWhenSpelled`), wraps at the most negative product
  (`TwoSignsKeepOneAtTheEdge`), and finds nothing for a text without whole digits
  at scale 0, nor at a negative scale.

## Model

| member | source | states |
|---|---|---|
| `LeaseProtocol.ExclusiveExactlyBelowTheSkewLimit` | crates/rdlt-connector-file/src/destination/lease.rs:117-170 | for any number of sessions and any interleaving with harmless releases, no two pass the write guard at one instant if and only if clocks differ by less than 31,000 ms |
| `LeaseProtocol.Exclusion` | crates/rdlt-connector-file/src/destination/lease.rs:367-868 | in every run whose clocks stay within the limit and whose releases never delete under another live session, two different sessions never both pass the guard |
| `LeaseProtocol.RunIsSafeExactlyWhenHarmless` | crates/rdlt-connector-file/src/destination/lease.rs:750-766 | a run is safe at each of its points, for all that may follow, if and only if each of its releases deletes with no other session live: none passing its guard or about to |
| `LeaseProtocol.DeleteIsSafeExactlyWhenHarmless` | crates/rdlt-connector-file/src/destination/lease.rs:750-766 | the same for one delete in any system that keeps the invariant |
| `LeaseProtocol.HarmfulDeleteLetsTwoPass` | crates/rdlt-connector-file/src/destination/lease.rs:750-766 | a delete under a live session lets any idle session, the releaser included, acquire and pass the guard beside it |
| `LeaseProtocol.ExclusionWithCarefulReleases` | crates/rdlt-connector-file/src/destination/lease.rs:750-766 | exclusion when every releasing session deletes on evidence that would still pass its own guard, or deletes what names itself or nothing: a test it can make |
| `LeaseProtocol.CarefulReleasesAreHarmless` | crates/rdlt-connector-file/src/destination/lease.rs:750-766 | over any run, releases that make that test never delete under another live session |
| `LeaseProtocol.ExclusionWithAtomicReleases` | crates/rdlt-connector-file/src/destination/lease.rs:367-868 | with each release's re-read and delete as one step, the clock limit alone gives exclusion |
| `LeaseProtocol.AtomicReleasesAreCareful` | crates/rdlt-connector-file/src/destination/lease.rs:750-766 | a delete that directly follows its own re-read passes that test, so it only ever removes this session's document |
| `LeaseProtocol.RunKeepsInv` | crates/rdlt-connector-file/src/destination/lease.rs:453-868 | every run with harmless releases keeps the invariant: a session with proof of holding is named by the document or has outlived its own guard, and a captured version pins what was read with it |
| `LeaseProtocol.StepKeepsInv` | crates/rdlt-connector-file/src/destination/lease.rs:453-868 | one step of any session, heartbeats and partial acquires included, keeps that invariant |
| `LeaseProtocol.GuardPassesOnlyForTheNamedHolder` | crates/rdlt-connector-file/src/destination/lease.rs:693-712 | whoever passes the guard is the session the stored document names, with a stamp at least as new as its proof |
| `LeaseProtocol.BeatLosesExactlyWhenOutvoted` | crates/rdlt-connector-file/src/destination/lease.rs:819-868 | a held lease is lost exactly when a beat finds its document gone, of a later format or foreign, or its swap finds none or another version |
| `LeaseProtocol.LostNeverPasses` | crates/rdlt-connector-file/src/destination/lease.rs:693-712 | a lost lease stays lost along any run of the same session and never passes the guard |
| `LeaseProtocol.LateReleaseBreaksExclusion` | crates/rdlt-connector-file/src/destination/lease.rs:750-766 | the code reaches such a delete: with equal clocks, a release that stalls between its re-read and its delete until it is taken over lets two sessions pass the guard together |
| `LeaseProtocol.SkewAtTheLimitBreaksExclusion` | crates/rdlt-connector-file/src/destination/lease.rs:604-628 | at a skew of 31,000 ms a stale-looking but live lease is taken over while its holder still passes the guard |
| `LeaseProtocol.TakesOver` | crates/rdlt-connector-file/src/destination/lease.rs:495-628 | a document that may be replaced, whether its own, stale or twice unreadable, is held by the acquirer after an undisturbed create, read, re-read of debris, swap and return |
| `LeaseProtocol.AcquiresFreshScope` | crates/rdlt-connector-file/src/destination/lease.rs:467-484 | with no document, create and return make the session the holder with the stamp of its own clock |
| `LeaseSession.World.CreateDocExclusive` | crates/rdlt-connector-file/src/location/s3.rs:339-360 | exclusive create lands exactly when there is no document, and is the protocol's create step |
| `LeaseSession.World.ReplaceDocIf` | crates/rdlt-connector-file/src/location/s3.rs:390-417 | compare-and-swap lands exactly when the document still has the captured version, and is the protocol's swap step |
| `LeaseSession.World.ReadDocVersioned` | crates/rdlt-connector-file/src/location/s3.rs:361-389 | a versioned read returns the document of that instant and is the protocol's read step |
| `LeaseSession.World.DeleteDoc` | crates/rdlt-connector-file/src/location/s3.rs:418-428 | an unconditional delete leaves no document; absence is success |
| `LeaseSession.AcquireWithWait` | crates/rdlt-connector-file/src/destination/lease.rs:453-638 | under arbitrary interference and lost requests the unbounded loop takes only protocol steps and ends once the interference does; it returns a lease exactly in step with the protocol, refuses a live foreign holder with its age and remaining seconds, and fails exactly when a request fails, at the first that does, never for a lost race; undisturbed it decides exactly as the document says |
| `LeaseSession.AcquireRound` | crates/rdlt-connector-file/src/destination/lease.rs:467-493 | one round of the loop: create, else judge the document in the way; undisturbed it never loops |
| `LeaseSession.JudgeDebris` | crates/rdlt-connector-file/src/destination/lease.rs:509-569 | undisturbed, bytes that still do not parse after the wait are reclaimed with a stamp taken then; in any case the outcome is a lease in step with the protocol, whose re-read step judges a document that parses now with the first read's version, or a refusal |
| `LeaseSession.JudgeHolder` | crates/rdlt-connector-file/src/destination/lease.rs:572-637 | an own document is replaced, a foreign one only when older than the TTL; otherwise the refusal carries holder, age and remaining time |
| `LeaseSession.Lease.Renew` | crates/rdlt-connector-file/src/destination/lease.rs:819-868 | under any interference a beat changes the handle only as what it met decides: unheard or unreadable it changes nothing, outvoted it loses the lease, a swap that lands and is answered is the only new proof and a refused one the loss; undisturbed, a beat refreshes its own document and proof to its clock |
| `LeaseSession.Lease.SwapBeat` | crates/rdlt-connector-file/src/destination/lease.rs:855-867 | a swap against the version read keeps the lease exactly when it lands, and makes its stamp the new proof exactly when it lands and is answered; against the unchanged document it lands |
| `LeaseSession.Lease.CheckStillHeld` | crates/rdlt-connector-file/src/destination/lease.rs:693-712 | the handle's guard is the protocol's guard; when it passes, within the clock limit and with harmless releases, no other session's does |
| `LeaseSession.Lease.Release` | crates/rdlt-connector-file/src/destination/lease.rs:750-766 | deletes only after re-reading its own document with the lease not lost; what it deletes is the document of the instant of the delete, which is the one re-read when nobody acts between; otherwise the document stays |
| `LeaseSession.OwnReleaseIsHarmless` | crates/rdlt-connector-file/src/destination/lease.rs:750-766 | deleting one's own document harms no live session, in any system the protocol reaches |
| `PublishProtocol.EveryCrashPointIsAccounted` | crates/rdlt-connector-file/src/destination/load.rs:454-534 | wherever an attempt stops, every file of a pending commit is among the names of the manifest on record |
| `PublishProtocol.ReceiptLeavesExactlyOwnParts` | crates/rdlt-connector-file/src/destination/load.rs:497-588 | an attempt that reaches its receipt leaves under its commit exactly its own parts, whatever its predecessors staged |
| `PublishProtocol.OtherCommitsStand` | crates/rdlt-connector-file/src/destination/load.rs:412-594 | no step of an attempt changes a file of another commit, except Replace truncation |
| `PublishProtocol.FileStands` | crates/rdlt-connector-file/src/destination/load.rs:429-515 | wherever an attempt stops, a file that is not of its commit stands unchanged, unless the load has no receipt, the table is replaced, and the file is owned or falls under the frozen rule |
| `PublishProtocol.OnlyOwnFilesAppear` | crates/rdlt-connector-file/src/destination/load.rs:533-554 | whatever stands after an attempt stood before, unchanged, or is one of its own parts with that part's rows |
| `PublishProtocol.TruncatedTableIsOwn` | crates/rdlt-connector-file/src/destination/load.rs:429-452 | a receipted attempt that truncated a table leaves there only its own commit's files and foreign ones outside the frozen rule |
| `PublishProtocol.FirstReceiptDecides` | crates/rdlt-connector-file/src/destination/load.rs:412-594 | any number of crashed attempts with any splits, then one that reaches its receipt, then any legal run that does not truncate the tables of its parts: the commit's files are that attempt's parts, exactly |
| `PublishProtocol.RunsStayAccounted` | crates/rdlt-connector-file/src/destination/load.rs:412-594 | over any legal run the manifest invariant holds and no receipt is ever lost |
| `PublishProtocol.ReceiptedFilesStand` | crates/rdlt-connector-file/src/destination/load.rs:429-452 | a receipted commit's files in a table that is not truncated are never touched again |
| `PublishProtocol.ReplaceLoadOwnsItsTable` | crates/rdlt-connector-file/src/destination/load.rs:426-452 | over any run of a load whose first receipted attempt replaces the table, with crashes and new sessions: once it has a receipt the table holds only this load's receipted or pending files |
| `PublishProtocol.TruncatesOnlyBeforeTheFirstReceipt` | crates/rdlt-connector-file/src/destination/load.rs:429-452 | once a load has a receipt, no run of that load truncates any table, whatever its sessions ensured |
| `PublishProtocol.ReplaceLoadEndsWithItsReceiptedParts` | crates/rdlt-connector-file/src/destination/load.rs:426-588 | a Replace load's whole run, with nothing pending, leaves as the table's own files exactly the parts of its receipted attempts, rows included |
| `PublishProtocol.LogIsTheReceiptedTries` | crates/rdlt-connector-file/src/destination/load.rs:379-394 | over any legal run a commit is found in the receipt log exactly when it was there before or one of its attempts reached its receipt |
| `FileLoad.Load.constructor` | crates/rdlt-connector-file/src/destination/load.rs:157-188 | a new session starts with empty staging, no open part and nothing delivered |
| `FileLoad.Load.ClosePart` | crates/rdlt-connector-file/src/destination/load.rs:195-233 | closing a part moves its rows from the open to the staged ones under the next index of its key and keeps staged-then-open equal to delivered; it becomes one file exactly when it has bytes or the format writes some for no rows |
| `FileLoad.Load.CountStaged` | crates/rdlt-connector-file/src/destination/load.rs:209-213 | the index is the number of parts already staged for this table and partition |
| `FileLoad.Load.Survey` | crates/rdlt-connector-file/src/destination/load.rs:243-252 | the sum of the open parts and a largest one |
| `FileLoad.Load.EnforceOpenBudget` | crates/rdlt-connector-file/src/destination/load.rs:241-261 | ends with the open total within its ceiling, closes nothing when it already is, and never leaves open a part longer than one it closed |
| `FileLoad.Load.CloseAllParts` | crates/rdlt-connector-file/src/destination/load.rs:268-278 | no part spans a commit, and no row is lost |
| `FileLoad.Load.AppendGroup` | crates/rdlt-connector-file/src/destination/load.rs:336-375 | one group's rows are delivered exactly once, in order; they go on in the part open for the key unless the column format finds another schema there, and that part stays open exactly if it is below target and not yet old enough |
| `FileLoad.Load.Write` | crates/rdlt-connector-file/src/destination/load.rs:330-377 | without the lease nothing changes, and only then is it refused; a successful write delivers every row in order, leaves every open part below target, in a line format counted by its rows' own bytes, and their total within the ceiling; it stops only when the process does |
| `FileLoad.Load.Replay` | crates/rdlt-connector-file/src/destination/load.rs:396-410 | drops open and staged parts |
| `FileLoad.Location.PublishPart` | crates/rdlt-connector-file/src/location/kind.rs:251-274 | a part lands under its final name with its staged bytes; a stop between copy and delete is allowed for |
| `FileLoad.Load.Truncate` | crates/rdlt-connector-file/src/destination/load.rs:429-452 | deletes exactly the protocol's truncation targets, a subset of them when stopped; which files these are is what `Publish` says by its own words |
| `FileLoad.Load.Sweep` | crates/rdlt-connector-file/src/destination/load.rs:502-515 | removes exactly the predecessor's names that are not this attempt's own, and only for this very commit |
| `FileLoad.Load.PublishStaged` | crates/rdlt-connector-file/src/destination/load.rs:538-554 | every staged part lands under its final name with its own rows |
| `FileLoad.Load.RunPhases` | crates/rdlt-connector-file/src/destination/load.rs:424-588 | the durable phases in their order: the disk is always where some progress of one protocol attempt leaves it, and done means the receipt |
| `FileLoad.Load.Publish` | crates/rdlt-connector-file/src/destination/load.rs:412-594 | whatever the outcome the disk is a protocol state of this attempt; every file of a table last ensured as Append, or never ensured, stands unchanged but this commit's own; done, a table last ensured as Replace before the load's first receipt holds this commit's owned files alone, and foreign top-level parquet files go exactly under local, parquet and unpartitioned; the parts carry every delivered row in order, of one schema each in the column format; done exactly at the receipt, with the state written; it stops only when the process does |
| `FileLoad.Load.CloseOtherSchema` | crates/rdlt-connector-file/src/destination/load.rs:346-356 | a part open for the key is closed first exactly when the format holds one schema a file and this batch brings another |
| `FileLoad.Load.AttemptKeeps` | crates/rdlt-connector-file/src/destination/load.rs:429-554 | what an attempt keeps and replaces, in terms of the modes the session last ensured, the log and the format |
| `FileLoad.StageOneMore` | crates/rdlt-connector-file/src/destination/load.rs:209-222 | one more staged part appends its rows to its own key and disturbs no other |
| `FileLoad.FinalsCarryStagedRows` | crates/rdlt-connector-file/src/destination/load.rs:483-496 | final names 0..n-1 per table and partition carry the staged rows in order, and no other final exists |
| `FileLoad.StagedNamesDiffer` | crates/rdlt-connector-file/src/destination/load.rs:209-215 | no two staged parts share a staging or a final name |
| `Layout.EncodePartitionValue` | crates/rdlt-connector-file/src/destination/layout.rs:124-142 | the byte loop computes the encoding that is proved invertible |
| `Layout.EncodingIsInvertibleAndSafe` | crates/rdlt-connector-file/src/destination/layout.rs:124-164 | decoding undoes the encoding on every byte string; the name has no slash, no leading dot, is never the NULL directory nor a reserved device name |
| `Layout.OwnNameExactlyWhenPlain` | crates/rdlt-connector-file/src/destination/layout.rs:124-164 | a value is written as it is exactly when it is not empty, every byte is one that is kept at its place, and it names no device; all else is escaped |
| `Layout.ReservedExactlyTheDevices` | crates/rdlt-connector-file/src/destination/layout.rs:145-164 | a name counts as reserved exactly when one of the 22 devices, in any case, is all of it or stands before its first dot |
| `Layout.SplitPartitions` | crates/rdlt-connector-file/src/destination/stage.rs:124-168 | the row loop builds exactly the groups of equal slugs, in slug order, rows in batch order |
| `Layout.SameGroupExactlyWhenEqual` | crates/rdlt-connector-file/src/destination/stage.rs:140-159 | two rows share a group exactly when both are NULL or their rendered values are equal |
| `Layout.GroupsKeepOrder` | crates/rdlt-connector-file/src/destination/stage.rs:140-168 | each row is in exactly one group, once, and groups keep the batch order |
| `Layout.ReadTailPrinted` | crates/rdlt-connector-file/src/destination/truncate.rs:44-77 | reading a printed final name from the right recovers partition, load, seq, index and format, dashes in the load included |
| `Layout.ReadIsPrinted` | crates/rdlt-connector-file/src/destination/truncate.rs:44-77 | whatever the ownership rule accepts is a printed name, read back to itself |
| `Layout.OwnsExactlyPrintedNames` | crates/rdlt-connector-file/src/destination/truncate.rs:44-77 | the ownership rule accepts exactly the shapes the printer can produce, with the numbers as they are spelled |
| `Layout.FinalTailIsInjective` | crates/rdlt-connector-file/src/destination/layout.rs:84-96 | equal final names come from the same table, partition, load, seq, index and format |
| `IcebergCommit.Catalog.TryCommit` | crates/rdlt-connector-iceberg/src/destination/commit.rs:101-106 | a commit is a compare-and-swap against the table its plan was built from; it lands right on top of that table or not at all |
| `IcebergCommit.CommitWithRetry` | crates/rdlt-connector-iceberg/src/destination/commit.rs:107-148 | at most four commit calls, at most one landing, planned from the very metadata it replaced; settled without a landing only when the plan settles on a table it was given; it breaks off only when the plan refused a table or its last commit call failed, gives up otherwise only after four calls each lost to a step of somebody else, and is done at once when nobody interferes |
| `IcebergCommit.TryOnce` | crates/rdlt-connector-iceberg/src/destination/commit.rs:122-145 | one round turns again exactly for a conflict: the table has moved past the one planned from, and nothing landed |
| `IcebergCommit.CommitUnrefused` | crates/rdlt-connector-iceberg/src/destination/commit.rs:107-148 | for a plan that never refuses, breaking off means a failed commit call |
| `IcebergCommit.AppendCommit` | crates/rdlt-connector-iceberg/src/destination/commit.rs:174-208 | against rivals that append and expire whatever they like but this identity, between any two requests: at most four calls, this commit's rows land at most once, and on success the identity is in the history exactly once; with answers that come it is never broken off, and gives up only after four calls each lost to a foreign step |
| `IcebergCommit.LoadSnapshotsAre` | crates/rdlt-connector-iceberg/src/destination/commit.rs:81-94 | the snapshots of a load's commit are exactly those whose identity is that load and number under whatever scope |
| `IcebergCommit.FoundUnderAnyScope` | crates/rdlt-connector-iceberg/src/destination/commit.rs:81-94 | a commit of a load counts as committed exactly when some scope's identity with that load and number is in the history |
| `IcebergCommit.AtMostOnceAlong` | crates/rdlt-connector-iceberg/src/destination/commit.rs:54-72 | with every writer appending the identity only where it is absent, it is never in a table's history twice |
| `IcebergCommit.ReappliedOnlyAcrossExpiry` | crates/rdlt-connector-iceberg/src/destination/commit.rs:47-53 | where the identity was committed, an append is planned again only if some step in between removed it |
| `IcebergLoad.ConvergeTable` | crates/rdlt-connector-iceberg/src/destination/load.rs:480-512 | a window already committed under any scope is discarded, any other lands; a table never holds it twice; it stops only for a failed commit call or four lost to others, and undisturbed never |
| `IcebergLoad.ConvergeTables` | crates/rdlt-connector-iceberg/src/destination/load.rs:457-518 | after a converged pass every table with rows holds its window exactly once; a stopped pass undoes nothing |
| `IcebergLoad.Marker.LoadOrCreate` | crates/rdlt-connector-iceberg/src/destination/state.rs:243-260 | the marker table is loaded, or created when it is missing, and whoever loses the creation to somebody else gets theirs; a handle is one the table had |
| `IcebergLoad.WriteState` | crates/rdlt-connector-iceberg/src/destination/state.rs:234-293 | this writer's own step, at most one, sets this scope's state in the table it replaced and leaves every other scope's as it was there, with the receipts of one stamp whose clock is read at that attempt; on success the step landed and state, covering receipt and at most eight receipts of the scope are on record; it fails only for a failed request or four commits lost to others, and undisturbed never |
| `IcebergLoad.Drive` | crates/rdlt-connector-iceberg/src/destination/load.rs:684-725 | publish and replay: tables first, then state and receipt; the marker is not written while a table lacks its window |
| `IcebergLoad.Redrive` | crates/rdlt-connector-iceberg/src/destination/load.rs:457-553 | any number of attempts under any scopes, each stopping anywhere: when one gets through, every table holds the window once and state and receipt are recorded |
| `IcebergLoad.StatePlanRecords` | crates/rdlt-connector-iceberg/src/destination/state.rs:270-289 | the property commit always proposes, against any table, exactly this: the scope's state set, every other scope's as it was, the receipts merged by maximum and pruned to the newest eight of the scope |
| `IcebergLoad.StepExtendsTheReceipt` | crates/rdlt-connector-iceberg/src/destination/state.rs:134-140 | after a step the load's receipt answers for a number exactly if it is covered by this commit or was before, and no other load's receipt answers for more |
| `IcebergLoad.ReceiptAnswersForWhatWasWritten` | crates/rdlt-connector-iceberg/src/destination/load.rs:651-682 | over any run of marker writes a receipt answers for a commit only if that load was recorded at that number or a later one, and does so for every one recorded as long as the receipt is kept |
| `IcebergReceipts.StampedIs` | crates/rdlt-connector-iceberg/src/destination/state.rs:128-165 | a stamp leaves everything as it was but its own receipt and the oldest prunable receipts beyond the retention |
| `IcebergReceipts.StampKeepsTheNewestEight` | crates/rdlt-connector-iceberg/src/destination/state.rs:128-165 | in terms of the receipts alone: the load's own gets the maximum number, this stamp and scope; others keep their values; what goes is prunable, at most eight prunable stay, none goes while fewer do, and none that stays is older than one that goes |
| `IcebergReceipts.HighWaterNeverFalls` | crates/rdlt-connector-iceberg/src/destination/state.rs:134-140 | merging by maximum: a kept receipt's number never falls and never lies below the stamped one |
| `IcebergReceipts.HighWaterOverARun` | crates/rdlt-connector-iceberg/src/destination/state.rs:128-165 | the same over any run of stamps by any scopes, while the receipt is kept |
| `IcebergReceipts.AtMostEightPerScope` | crates/rdlt-connector-iceberg/src/destination/state.rs:142-164 | right after its own stamp a scope holds at most eight receipts |
| `IcebergReceipts.PrunedOnlyBehindEightNewer` | crates/rdlt-connector-iceberg/src/destination/state.rs:142-164 | a decodable receipt is pruned only by its own scope's stamp, behind eight kept entries that are of the scope or undecodable and rank no older; they are eight loads of the scope if and only if no undecodable entry is kept |
| `IcebergReceipts.ZeroStampLosesToAnUndecodableEntry` | crates/rdlt-connector-iceberg/src/destination/state.rs:142-164 | the input of the other case: a receipt stamped 0 is pruned before an undecodable entry and leaves fewer than eight loads of its scope |
| `IcebergReceipts.EvictedOnlyByItsOwnScope` | crates/rdlt-connector-iceberg/src/destination/state.rs:117-127 | over any run under a non-decreasing clock, whatever its stamp, a receipt not stamped again stays as it is unless a stamp of its own scope finds it behind eight such entries: foreign stamps alone never evict it |
| `IcebergSchema.NoDriftExactlyWhenSame` | crates/rdlt-connector-iceberg/src/destination/schema.rs:134-179 | no drift is reported exactly when live is wanted up to ids, order of struct children at any depth, and required relaxed to optional |
| `IcebergSchema.PlanAdditions` | crates/rdlt-connector-iceberg/src/destination/load.rs:406-431 | the column loop adds exactly the missing columns, optional, and refuses on the first contradiction |
| `IcebergSchema.SettlesExactlyWhenPresent` | crates/rdlt-connector-iceberg/src/destination/load.rs:384-431 | the plan settles exactly when the partition spec is the wanted one and every wanted column is present and compatible |
| `IcebergSchema.ReconcileConverges` | crates/rdlt-connector-iceberg/src/destination/load.rs:384-442 | once the planned columns have arrived and the wanted ones that were there still are, whatever rivals moved, dropped or added besides, the next plan settles |
| `IcebergSchema.Reconcile` | crates/rdlt-connector-iceberg/src/destination/load.rs:384-442 | at most four commits, every schema on the way valid, and on success the returned table has the wanted partition spec and settles the plan |
| `IcebergSchema.BuildField` | crates/rdlt-connector-iceberg/src/destination/schema.rs:53-86 | the counter threaded through the children computes the numbering below |
| `IcebergSchema.NumberedInPreOrder` | crates/rdlt-connector-iceberg/src/destination/schema.rs:53-100 | a schema's fields are numbered consecutively in pre-order without gaps |
| `IcebergSchema.BuiltReadsBack` | crates/rdlt-connector-iceberg/src/destination/schema.rs:53-132 | a built field read back is its column: name, type at any depth, and required exactly when not nullable; only Json becomes text and provenance is dropped |
| `IcebergSchema.CreatedTableSettles` | crates/rdlt-connector-iceberg/src/destination/load.rs:384-442 | a table created from a schema needs nothing added for it |
| `DuckTypes.SpelledReadsBack` | crates/rdlt-connector-duckdb/src/destination/catalog.rs:337-434 | printing a type and reading it back, with any mix of quoted and bare field names as the catalog may show them, gives it with Uuid as text and nullability and provenance reset, exactly for types without a list of decimals or an empty struct at any depth; the rest read as nothing |
| `DuckTypes.PrintedReadsBack` | crates/rdlt-connector-duckdb/src/destination/catalog.rs:337-361 | the same for the fully quoted text the printer itself writes |
| `DuckTypes.TypeIsInert` | crates/rdlt-connector-duckdb/src/destination/catalog.rs:393-412 | whatever characters the field names hold, a printed type shows the splitter no comma at its own level |
| `DuckTypes.SplitTopLevelLoop` | crates/rdlt-connector-duckdb/src/destination/catalog.rs:393-412 | the character loop computes the split by top-level commas |
| `DuckTypes.SplitsIntoFields` | crates/rdlt-connector-duckdb/src/destination/schema.rs:38-45 | a printed field list is cut into exactly its fields |
| `DuckTypes.SplitQuoted` | crates/rdlt-connector-duckdb/src/destination/catalog.rs:419-434 | the loop over a quoted name computes the name and the rest after it |
| `DuckTypes.QuotedReadsBack` | crates/rdlt-connector-sqlcore/src/dialect.rs:15-17 | reading a quoted identifier undoes the doubling of its quotes, for any name and any text after it |
| `DuckTypes.DecimalReadsBack` | crates/rdlt-connector-duckdb/src/destination/catalog.rs:379-388 | printed precision and scale read back |
| `DuckTypes.ParseType` | crates/rdlt-connector-duckdb/src/destination/catalog.rs:337-361 | the recursive parser with its push loop computes the specified reading of every text |
| `DuckTypes.PrintsAlikeExactlyWhenNormalAlike` | crates/rdlt-connector-duckdb/src/destination/schema.rs:35-68 | any two types print the same text exactly when they agree up to Uuid, nullability and provenance |
| `Widening.WideningIsTransitive` | crates/rdlt-connector-duckdb/src/destination/catalog.rs:229-269 | the widening lattice is transitive |
| `Widening.BinaryExactlyAtALeaf` | crates/rdlt-connector-duckdb/src/destination/catalog.rs:163-169 | the Binary guard sees a type exactly when some path of field positions or list items ends in Binary |
| `Widening.Int64WidensExactlyWhenHeld` | crates/rdlt-connector-duckdb/src/destination/catalog.rs:247-253 | a 64-bit column widens to a decimal exactly when every 64-bit value is a value of it (19 integer digits) |
| `Widening.DecimalWidensExactlyWhenHeld` | crates/rdlt-connector-duckdb/src/destination/catalog.rs:254-267 | for any two decimal types, the lattice edge and the inclusion of values agree if and only if the one type is not all zeros before its digits with still more of them in the other (and, for a type without digits, its scale does not shrink) |
| `Widening.OrdinaryDecimalWidensExactlyWhenHeld` | crates/rdlt-connector-duckdb/src/destination/catalog.rs:254-267 | with no more digits behind the point than there are, a decimal widens to another exactly when every value it can hold is a value of the other |
| `Widening.TooManyZerosInFront` | crates/rdlt-connector-duckdb/src/destination/catalog.rs:254-267 | the input of the other case: two digits at scale 5 widen to one digit at scale 6, which does not hold 0.00099 |
| `SchemaEvolution.Prefilter` | crates/rdlt-connector-duckdb/src/destination/catalog.rs:122-149 | the loop over the incoming columns computes the filtered image |
| `SchemaEvolution.FilteredAt` | crates/rdlt-connector-duckdb/src/destination/catalog.rs:122-149 | the image keeps its live type where the incoming one genuinely widens it and adopts the incoming one elsewhere |
| `SchemaEvolution.SchemaSteps` | crates/rdlt-connector-sqlcore/src/ensure.rs:82-106 | the nested loops emit, per leg, the table, every column and a widen for every retyped one |
| `SchemaEvolution.WidensExactlyTheGenuine` | crates/rdlt-connector-sqlcore/src/ensure.rs:93-104 | against a filtered image a widen is emitted, on both legs, exactly when rendered types differ and the incoming type widens the live one |
| `CatalogRuns.LiveSchema` | crates/rdlt-connector-duckdb/src/destination/catalog.rs:31-85 | the row loop keeps exactly the columns whose type text can be read, and answers nothing for a missing or wholly unreadable table |
| `CatalogRuns.RunOnColumn` | crates/rdlt-connector-duckdb/src/destination/load.rs:346-367 | a fresh session's ensure rewrites a live column's type exactly when it can be read, prints differently and is widened |
| `CatalogRuns.FirstEnsureRewritesExactly` | crates/rdlt-connector-duckdb/src/destination/catalog.rs:104-269 | which text a live column has after a fresh session's ensure, without the lattice: unreadable text and text of the same type stay; over a type without Binary at any depth, text and Json targets take over; a decimal target takes over 64-bit integers when it has 19 digits before its point, and decimals with no more digits on either side of theirs (none counting before the point when the scale is as large as the precision); all else stays |
| `CatalogRuns.MissingTableIsCreated` | crates/rdlt-connector-sqlcore/src/ensure.rs:82-106 | a missing table is created with every column of the schema, in order, under its own type |
| `CatalogRuns.LaterWidensEarlierExactlyWhenSafe` | crates/rdlt-connector-duckdb/src/destination/load.rs:291-367 | over any sessions with any number of ensures each, a live column's type at any moment widens what it was at every earlier one, if and only if each re-ensure that rewrites it does so over live text that says the new type already or reads as a type it widens |
| `CatalogRuns.EachEventWidensExactlyWhenSafe` | crates/rdlt-connector-duckdb/src/destination/load.rs:291-367 | the same for each event of a history |
| `CatalogRuns.ColumnsStay` | crates/rdlt-connector-duckdb/src/destination/load.rs:291-367 | over any history every live column keeps its place and its name |
| `CatalogRuns.FirstEnsuresOnlyWiden` | crates/rdlt-connector-duckdb/src/destination/catalog.rs:104-121 | with one ensure a session, whatever schemas the sessions bring, a live column's type only ever widens |
| `CatalogRuns.RunIsIdempotent` | crates/rdlt-connector-duckdb/src/destination/catalog.rs:125-140 | ensuring the same schema in a new session changes nothing more, drifted columns included |
| `CatalogRuns.ReensureWidensExactlyWhen` | crates/rdlt-connector-duckdb/src/destination/load.rs:346-351 | within a session the last ensured type is compared unfiltered: any change of it rewrites the live column, and that widens it exactly when its text says the new type already or reads as a type the new one widens |
| `CatalogRuns.RewriteOfOwnTypeWidensExactlyWhen` | crates/rdlt-connector-duckdb/src/destination/load.rs:346-351 | for a column live at the session's own previous type: exactly when the two types print alike or the new one is a readable widening of the old |
| `CatalogRuns.SkippedDriftIsRewrittenLater` | crates/rdlt-connector-duckdb/src/destination/load.rs:346-351 | a concrete history in which a drift skipped at the first ensure is enacted by the session's next widening, turning live text into a decimal |
| `CatalogRuns.ValueCheckedEdgeIsRewritten` | crates/rdlt-connector-duckdb/src/destination/catalog.rs:201-209 | a concrete history without any drift: Int64 to Float64, which the engine allows on a check of the run's own values, casts the committed rows to floating point |
| `CatalogRuns.RespelledTextIsSettled` | crates/rdlt-connector-duckdb/src/destination/catalog.rs:414-434 | live text of the same type with names left unquoted is never altered |
| `DuckStage.GuardPassesExactlyForAPrefix` | crates/rdlt-connector-duckdb/src/destination/load.rs:307-336 | the drop and reorder guards pass exactly when the previous columns are a prefix of the new ones |
| `DuckStage.StagedIsInSchemaOrder` | crates/rdlt-connector-duckdb/src/destination/schema.rs:104-142 | creating and extending a stage in schema order leaves it in schema order and only pads earlier rows |
| `DuckStage.StagedOrderExactlyWhenPrefix` | crates/rdlt-connector-duckdb/src/destination/schema.rs:104-142 | whatever earlier ensures left behind, ensuring a schema leaves the stage in its order if and only if the stage's columns are a prefix of it |
| `DuckStage.PositionalIsByNameExactlyInOrder` | crates/rdlt-connector-duckdb/src/destination/load.rs:420-470 | appending by position puts every row's values under their own names if and only if the stage is in the batch's order |
| `DuckStage.Session.EnsureTable` | crates/rdlt-connector-duckdb/src/destination/load.rs:291-418 | the new state is that of the session machine; refused by a guard, nothing changes; a statement fails exactly when one does and the guards pass; a success restores the schema's order exactly when the stage was a prefix of it; in a session in step, it stays so exactly when the ensure does not fail late; dropped columns are named |
| `DuckStage.StaysInSyncExactlyWhenNotLate` | crates/rdlt-connector-duckdb/src/destination/load.rs:291-418 | with every table staged exactly when it is remembered and in the remembered order, a call keeps that if and only if it is not an ensure that fails behind its first new column |
| `DuckStage.SessionIsInSyncExactlyWhenNoneFailsLate` | crates/rdlt-connector-duckdb/src/destination/load.rs:291-470 | over any session of ensures and writes, refusals included, that holds at every moment if and only if no ensure fails late |
| `DuckStage.EveryValueIsUnderItsName` | crates/rdlt-connector-duckdb/src/destination/load.rs:291-470 | over any such session a table's stage holds exactly the rows of its accepted batches, in order, each value in the column of its own name and NULL in every column it was not given |
| `DuckStage.Session.Write` | crates/rdlt-connector-duckdb/src/destination/load.rs:420-470 | a batch is appended exactly when its columns are the ensured ones in order and as many as the stage has, and a refusal changes nothing; each value lands under its own name when the stage is in order; a session in step stays so |
| `DuckStage.FailedEnsureCanDisorder` | crates/rdlt-connector-duckdb/src/destination/load.rs:361-398 | the input of the other case: an ensure that fails after its DDL, then a schema that passes the guard with the stage as wide as it and in another order |
| `FileCursor.LastEntryStands` | crates/rdlt-connector-file/src/source/cursor.rs:154-156 | after recording any entries in turn the last one of a path stands, a path without one keeps its record, and no path is forgotten |
| `FileCursor.LastEntryDecides` | crates/rdlt-connector-file/src/source/cursor.rs:154-219 | the next plan over an unchanged file picks up where its last entry left off: refused only inside a record with units left, passed over when complete, else read from the recorded unit; the whole-file planner starts over |
| `FileCursor.OthersArePlannedAsBefore` | crates/rdlt-connector-file/src/source/cursor.rs:154-219 | a path without an entry in the run is planned, refused and vouched for as before |
| `FileCursor.WhatIsLeftIsPlanned` | crates/rdlt-connector-file/src/source/cursor.rs:161-192 | whatever is on record, a file that is not refused has at least the consumed units, and is read further exactly if it has more: nothing is passed over with units left |
| `FileCursor.FileCursor.Plan` | crates/rdlt-connector-file/src/source/cursor.rs:161-192 | fails with the first refused file of the listing and only then; otherwise plans fresh and unfinished files in listing order |
| `FileCursor.FileCursor.PlanWhole` | crates/rdlt-connector-file/src/source/cursor.rs:198-219 | the same for whole-file formats; when it refuses, in sizes and stamps, is `WholeFileRuns.RefusedExactlyWhenResizedOrRestamped` |
| `FileCursor.ResumeCheckFor` | crates/rdlt-connector-file/src/source/cursor.rs:285-299 | a check is armed exactly for consumed files with one of the two hashes, and is of that very hash; its window is the consumed bytes, or 4096 of them |
| `FileCursor.WhatIsIncompleteIsReadWhole` | crates/rdlt-connector-file/src/source/cursor.rs:198-219 | whatever is on record, a file of a whole-file format that is not refused is read exactly if it is new or fewer units than it has were consumed |
| `FileCursor.WholeTasksStartOver` | crates/rdlt-connector-file/src/source/cursor.rs:198-219 | a whole-file task starts at zero without a check, only for files new or not fully recorded |
| `FileCursor.Snapshot` | crates/rdlt-connector-file/src/source/connector.rs:202-250 | exactly the objects that are not vouched for are fetched; the others are described with their recorded units |
| `FileCursor.SettledIsNeverRead` | crates/rdlt-connector-file/src/source/connector.rs:252-266 | an object vouched for without a fetch is read by neither planner, and refused exactly when both modification times are known and differ |
| `FileCursor.EveryTaskIsFetched` | crates/rdlt-connector-file/src/source/connector.rs:202-250 | whatever the planner hands out has been fetched, so no task lacks its local copy |
| `FileCursor.VouchingAgreesExactlyWhenUnchanged` | crates/rdlt-connector-file/src/source/connector.rs:252-266 | vouching decides as a fetch would, for both planners, if and only if the object still has its recorded units |
| `FileRuns.StepKeepsInv` | crates/rdlt-connector-file/src/source/cursor.rs:161-192 | every listing, read and change of a file keeps: consumed ranges chain from 0 to the recorded offset, and a record carries the stamps of the listing it was taken under |
| `FileRuns.RefusedExactlyWhenShrunkRewrittenOrTorn` | crates/rdlt-connector-file/src/source/cursor.rs:161-283 | after any history of changes, listings and reads, a listed file is refused if and only if it is shorter than what was listed or read of it, or as long with a stamp known to differ, or has unread bytes behind a read that ended mid-record |
| `FileRuns.RewritesThatPass` | crates/rdlt-connector-file/src/source/cursor.rs:161-299 | content that does not continue what was consumed passes the planner if and only if it is longer with the last read on a record boundary, or as long with no stamp known to differ and nothing unread behind a torn end; the hash check is then all that is left |
| `FileRuns.TasksAreThePlanned` | crates/rdlt-connector-file/src/source/cursor.rs:161-192 | what a history reads is exactly what the planner plans |
| `FileRuns.AppendHistoryKeepsInv` | crates/rdlt-connector-file/src/source/cursor.rs:161-192 | over append-only histories a file always continues what was listed and what was read of it |
| `FileRuns.HistoryConsumesEachByteOnce` | crates/rdlt-connector-file/src/source/cursor.rs:161-192 | after any history of appends and runs the bytes a file has given are its first bytes up to the recorded offset, each once and in order |
| `FileRuns.AppendOnlyIsRefusedExactlyWhen` | crates/rdlt-connector-file/src/source/cursor.rs:161-299 | an append-only file is refused if and only if bytes follow a torn end, or reading outran its listing and the file kept that size under other stamps; it is passed over exactly when all of it is consumed, and the only empty range planned is that of an empty file never recorded |
| `FileRuns.GrowthDuringARunIsRefused` | crates/rdlt-connector-file/src/source/read/jsonl.rs:233-276 | a concrete append-only history that is refused: a file grows between listing and read, is read to its end and then left alone |
| `FileRuns.ChainDoesNotOverlap` | crates/rdlt-connector-file/src/source/cursor.rs:175-189 | consumed ranges are in order and never overlap |
| `WholeFileRuns.RefusedExactlyWhenResizedOrRestamped` | crates/rdlt-connector-file/src/source/cursor.rs:198-283 | after any history of changes, listings and reads, a file of a whole-file format is refused if and only if it was read to its end before and is now listed with another size than then, or with a stamp known to differ, and the reason names which; otherwise it is read from the start exactly if it never was |
| `WholeFileRuns.DeliveredAtMostOnce` | crates/rdlt-connector-file/src/source/cursor.rs:198-219 | no history reads a file to its end twice |
| `WholeFileRuns.StepKeepsInv` | crates/rdlt-connector-file/src/source/cursor.rs:198-219 | every change, listing, read or stop keeps: a record is complete, carries size and stamps of the listing it was taken under, and is the one reading of its file to the end |
| `WholeFileRuns.TasksAreThePlanned` | crates/rdlt-connector-file/src/source/cursor.rs:198-219 | what a history reads is exactly what the planner plans |
| `JsonlReader.Slabs.Next` | crates/rdlt-connector-file/src/source/read/jsonl.rs:107-137 | whatever a read delivers at a time, slabs are never empty, join to the stream, and end a line or the stream; none comes only when nothing is left |
| `JsonlReader.FoldIntoTail` | crates/rdlt-connector-file/src/source/read/jsonl.rs:141-153 | the rolling tail is the last 4096 bytes of everything consumed, however it was cut |
| `JsonlReader.CheckLines` | crates/rdlt-connector-file/src/source/read/jsonl.rs:341-358 | the loop over a slab's lines passes exactly when each is blank or JSON, and else names the start of the first that is neither |
| `JsonlReader.ReadTask` | crates/rdlt-connector-file/src/source/read/jsonl.rs:161-285 | a task whose check fails reads nothing; otherwise what is fed and recorded are fronts of the rest of the file at line ends or its end, every record carrying the tail's hash, and all fed lines are blank or JSON where that is checked; a completed read has fed all of it, not less than was listed; the cursor is handed over after every record and shows it; each refusal is warranted by what was found, a failed read stops it and nothing else passes for one, and it is cancelled exactly when its consumer said so |
| `JsonlReader.RecordsAreReads` | crates/rdlt-connector-file/src/source/read/jsonl.rs:236-249 | every record of a read is a reading event of the file histories, with the hash of what came before it |
| `JsonlReader.ResumesExactlyWhenTailHashesAlike` | crates/rdlt-connector-file/src/source/read/jsonl.rs:186-212 | a resume is let through if and only if the file still reaches the recorded offset and the window before it hashes as it did |
| `JsonlReader.AppendedFileIsNeverTakenForRewritten` | crates/rdlt-connector-file/src/source/read/jsonl.rs:186-212 | after any history of appends and reads every task the planner hands out stands its check: growth is never mistaken for a rewrite |
| `S3Reader.S3Reader.ReadFull` | crates/rdlt-connector-file/src/location/s3.rs:455-471 | for any chunking, empty chunks included, the buffer gets the next min(length, remaining) bytes and the rest stays; a fault surfaces exactly when the bytes before it do not fill the buffer |
| `S3Reader.DownloadObject` | crates/rdlt-connector-file/src/source/connector.rs:364-388 | ends, with the file equal to the object, or with the stream's first fault |
| `OracleDecimal.ScaledI128` | crates/rdlt-connector-oracle/src/source/batch.rs:217-240 | the sign, point, trailing-zero and digit-loop steps compute the specified reading, within 128 bits |
| `OracleDecimal.ScalesExactlyWhenSpelled` | crates/rdlt-connector-oracle/src/source/batch.rs:217-240 | every text that scales to a value: an outer sign before a decimal text with at most one further sign, or before a point that a sign and digits follow at a scale of two or more; and what each is worth |
| `OracleDecimal.TwoSignsKeepOneAtTheEdge` | crates/rdlt-connector-oracle/src/source/batch.rs:239-239 | two minus signs before 2^127 give minus 2^127, as the product wraps around |
| `OracleDecimal.ScalesExactlyWhenAnInteger` | crates/rdlt-connector-oracle/src/source/batch.rs:217-240 | a decimal text gives a value exactly when text times ten to the scale is an integer of magnitude below 2^127, and then that integer; without whole digits at scale 0, or at a negative scale, nothing |
| `OracleDecimal.PrintedReadsBack` | crates/rdlt-connector-oracle/src/source/batch.rs:217-240 | printing a 128-bit integer at a scale and reading it back gives it, for all but the most negative one |

## Left out

- The local-disk arm of the lease: its recheck and unlink are not atomic, as `crates/rdlt-connector-file/src/destination/lease.rs:357-366` records, and an own-owner reacquire there has no compare-and-swap.
- Two sessions that share one owner token.
- LeaseSession.AcquireWithWait: what the others do is an arbitrary but finite schedule, so that the loop ends; under endless interference the source loops on.
- LeaseProtocol.Exclusion: assumes clocks that never run backwards and requests that take effect before their session moves on; a write that lands after its session gave up is not modelled.
- The S3 etag is modelled as a version that is fresh at every write; object contents that hash alike are not distinguished.
- LeaseSession.Lease.Release: other sessions act between its two requests where `gap` says so, and a world that promises harmless releases admits no such gap, nor clocks beyond the limit.
- The write guard is checked at the start of a write or publish only, as in the source; a session that stalls inside a publish past its guard is not modelled.
- fsync, power loss and torn local writes: a stop is a process stop between durable steps.
- The steps of `prepare_staging`; staging starts empty in one step.
- FileLoad.Load.Publish: the engine's discipline (a commit without a receipt is re-driven before any other, a receipted one never) is a hypothesis, and a pending commit abandoned under a new load id is outside it.
- Replace tables first ensured after the load's first commit, which the truncation guard does not reach.
- Parquet and Arrow encoding: a part is its rows and an encoded length; the reasons reported for closed parts.
- The partition column's lookup and rendering errors, and the 32-bit row index, in `split_partitions`.
- Layout.OwnsExactlyPrintedNames: numbers are taken as they are spelled, so a name with leading zeros is accepted as its own printed form.
- Concurrent Iceberg attempts of one load under different scopes: the retry's own check is scope-matched, so convergence is stated for attempts one after another with nobody else writing that commit of that load.
- IcebergCommit.AppendCommit: a rival that expires the identity itself, which the source names as the limit of its guarantee; `ReappliedOnlyAcrossExpiry` says that nothing else undoes it.
- IcebergCommit.CommitWithRetry: a commit that landed but is answered as a conflict; an answer is either right or lost. Loading a table succeeds; where it fails, the source ends the call as it does for a failed commit.
- IcebergLoad.Marker.LoadOrCreate: nobody drops the marker table, and a failed request took no effect.
- Iceberg data writers: accumulating, retiring and realigning windows (`write`, `reinstall`, `align`); the window of a table is given.
- IcebergSchema.Reconcile: the ids assigned by `update_schema` are not modelled.
- Backoff, jitter and session nonces.
- CatalogRuns.LaterWidensEarlierExactlyWhenSafe: the live text of a column the destination creates or alters is what it printed; text found at the start is arbitrary. A catalog that shows some names unquoted reads the same (`SpelledReadsBack`), and `RespelledTextIsSettled` covers its comparison. Column names compare exactly, as the source compares them; DuckDB's own case folding, and errors of its DDL on the target, are not modelled.
- DuckTypes.SpelledReadsBack: the target leg only, as only the target is read back.
- DuckStage.EveryValueIsUnderItsName: the calls between two publishes; emptying the stages at a publish, and appends that fail halfway, are not modelled.
- The index drops before an ALTER, merge DDL, the sqlcore commit planner and merge arms.
- The engine's within-run type contract: any pair of schemas may be ensured one after the other.
- JsonlReader.ReadTask: one read sees one content of the file, and whether a line is JSON is a given predicate; the whole-file variant for compressed streams, and the row-group digest of the parquet reader, are not modelled.
- JsonlReader.ResumesExactlyWhenTailHashesAlike: the hash is any function; that different windows hash differently is not assumed.
- `plan_work`'s split by codec and its sort by path; the downloads behind `Snapshot` succeed.
- OracleDecimal.ScaledI128: multiplication wraps as in the release build, where a debug build stops. Characters stand for bytes: a text with others than ASCII behind its point finds nothing here, where the source stops if it cuts inside one.
- Snowflake, Postgres, REST, the per-format readers, configuration, error wording and classification: easy members or library semantics.
