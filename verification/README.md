# ToroidalStore, proved

ToroidalStore is the storage engine under ToroidalDB: a versioned key-value store whose disk holds
a write-ahead log, an append-only manifest and immutable sorted segments, and whose memory holds an
active table, a queue of frozen tables and a list of open segments, newest first. Puts, deletes,
freezes, flushes, checkpoints, compactions and reopening move versions between these layers. This
project models that engine and proves what it is for: no move changes what a reader sees, and a
crash between any two durable effects recovers what was acknowledged. Three smaller algorithms of
the repository are proved as well: bounded breadth-first search (both versions), the union-find
behind `betti_numbers`, and the inverted-file index against brute force.

## How the proofs are built

* `Machine` states the store as a state machine over records. Its events are the durable effects of
  every job, so a crash can fall between any two of them, keeping any part of the manifest's
  unsynced tail. `Safety` is the invariant and its preservation event by event, `Recovery` that a
  crash at any point keeps it, `Runs` the theorems about whole runs.
* `Framing` turns "a prefix of the bytes" into "a prefix of the records", for any self-delimiting
  code. `WalCodec`, `WalLog` and `Wal`, and `Manifest`, prove that the two logs are such codes; the
  classes `Wal` and `Manifest` do in place what the source does, loop by loop.
* `Segment` and `SegmentReader` prove the segment file: its round trip, and the block-cached read
  against the decoded one.
* `Store` is the store itself as a class over those parts. Each operation is proved to take the
  machine along a path of its events. `Effects` says what whole operations and a reopening do, field
  by field and without the machine, and `LiveFiles` which segment files stand on the disk. `Reopening` gives each store the run it has made, and composes
  the two sides: from the bytes that any crash leaves of it, opening recovers what was acknowledged.
* `Timeline` is what remains of the store without a crash: the acknowledged operations and some marks
  on them. `Backend` sets the store beside the in-memory map that the repository uses as its
  specification, and proves that both answer alike, snapshots included.
* `TornCompaction` and `Headed` say exactly when a compaction may be torn by a crash and where a
  snapshot is taken after one. `Limits`, `IdleCheckpoint`, `Lapses` and `Uncrashed` mark the other
  edges: where the code does not keep a promise, an exact condition says when it does and a run from
  the empty store shows that it may fail.

The checksum is an uninterpreted function: nothing is claimed about detecting damage. Integers are
unbounded and the 64-bit limits are written out. A file keeps its synced bytes over a crash, and any
prefix of the rest.

## Where the code and its documentation disagree

The model follows the code.

* An append of several operations numbers its frames `first + i` but advances the counter by one
  (`crates/toroidal-store/wal.rs:352-358`). `Limits.NextWriteSurvivesIff`: the next append is kept
  over a reopen exactly when this one held a single operation. `Limits.BatchLosesNextWrite` and
  `Lapses.FlushRevives` are runs in which an acknowledged put is lost, or an overwritten value comes
  back. `Batchers.SurvivesIff` says which acknowledged operations of a group commit are read again.
* The table admits payloads that the log refuses after their sequence was taken
  (`crates/toroidal-store/memtable.rs:55-63`, `crates/toroidal-store/wal.rs:730-734`).
  `Limits.WriteAfterRejectSurvivesIff`: the gap is harmless exactly when the log is empty;
  `Runs.AlignedIff` says when it is closed again, and `Lapses.RefusedLosesNextWrite` is a run that
  loses an acknowledged put.
* Compaction is documented to keep what live snapshots see (`crates/toroidal-store/snapshot.rs:178-180`);
  as coded it keeps one version per key (`crates/toroidal-store/store.rs:673-679`).
  `Limits.CompactionKeepsSnapshotIff` says exactly which snapshot reads survive, and
  `Compaction.DocumentedRuleKeepsSnapshots` that the documented rule would keep all of them.
* A checkpoint with nothing to write publishes an empty segment with maximum 0, and compaction takes
  the merged maximum from the segment in front (`crates/toroidal-store/store.rs:527`, `593`, `656`).
  `TornCompaction.TornMergeReadsIff` is the exact condition under which a crash may tear such a
  compaction, and `Headed.HeadedTornIff` the same in terms of the front segment;
  `IdleCheckpoint.TornCompactionReadsStale` is a reachable run that reads a stale value after a crash.
  `Runs.SnapshotTakesAllIff` and `Headed.HeadedBoundaryIff` say exactly when a snapshot is taken at
  the last operation; `IdleCheckpoint.SnapshotAfterIdleCompaction` is a run in which it is not.
* A flush pops a table under one lock and publishes its segment under a later one
  (`crates/toroidal-store/store.rs:488-517`). The machine has these as separate steps:
  `Runs.ReadIff` says exactly what a reader misses in between.
* Log truncation empties the file and then rewrites it (`crates/toroidal-store/wal.rs:592-597`).
  `Limits.TornTruncationIff` is the exact condition under which a crash inside is harmless, and
  `Lapses.TornTruncationLosesWrite` a reachable truncation at which one loses an acknowledged put.
* Opening does not cut an incomplete batch at the end of the log (`crates/toroidal-store/wal.rs:503-504`).
  `WalLog.StandaloneReplaysIff`: a later standalone append replays exactly when no batch is pending.
* The segment footer is documented as 48 bytes (`crates/toroidal-store/segment.rs:28`); the code
  writes and reads 44 (`crates/toroidal-store/segment.rs:68`).
* The block-cached read shows an older version when the versions of a key straddle a block:
  `SegmentReaders.CachedReadIff` is the exact condition, `SegmentReaders.StaleCachedRead` a file.

The runs that may crash (`Runs.ValidRun`) are those whose events meet `Machine.Allowed`: one
operation an append, none behind a refused one, and no crash between the records of a compaction
whose segments may not be merged so (`Machine.MergeSafe`). Compactions themselves are always
allowed. Keys that the log replays are exempt from that condition in `TornCompaction.TornReadsIff`
but not in `Allowed`, because a later truncation may uncover them.

## Model

| member | source | states |
|---|---|---|
| Runs.RunReads | crates/toroidal-store/store.rs:339-403 | in every state of every run, crashes included, a current read is the last operation on the key in the acknowledged history and a snapshot read at or above the watermark the last at or below the snapshot, unless a flush or checkpoint stands between popping and publishing |
| Runs.ReadIff | crates/toroidal-store/store.rs:371-403 | at any point of any job, a reader gets what the history says if and only if the version owed is in a layer it can see |
| Runs.RunInvariant | crates/toroidal-store/store.rs:148-196 | the invariant holds in every state of every run, after any events and any number of crashes |
| Runs.StepKeeps | crates/toroidal-store/fault.rs:17-36 | every event keeps the invariant for the history it leaves |
| Runs.RunSequences | crates/toroidal-store/wal.rs:292-299 | sequences strictly increase over the whole run, across truncation and reopening; the log stays consecutive and the counter above all of them |
| Runs.AlignedIff | crates/toroidal-store/wal.rs:347-365 | in every run the counter stands directly behind the log's last frame if and only if no append was refused behind a frame that still stands in the log: a truncation that empties the log, or a reopening, closes the gap |
| Runs.SnapshotStability | crates/toroidal-store/store.rs:296-314 | in every run, crashes and compactions included, a snapshot at or above the watermark reads the same at every later step, and one at the last operation what a current read gave when it was taken |
| Runs.SnapshotTakesAllIff | crates/toroidal-store/store.rs:296-314 | the boundary of a new snapshot is never above the last acknowledged sequence, and is that sequence if and only if a table in memory holds something, some segment declares it, or nothing was written |
| Runs.BoundaryIsLastIff | crates/toroidal-store/store.rs:296-314 | the same for any readable state, whatever the disk holds, as long as no segment declares more than was written |
| Runs.GetIsGetAt | crates/toroidal-store/store.rs:339-363 | the fast path without sequence comparison equals the snapshot read at the top |
| Runs.ManifestClosure | crates/toroidal-store/manifest.rs:221-297 | whatever of the manifest a crash keeps, at any step of any run, every segment it makes live exists as a file |
| Recovery.CrashKeeps | crates/toroidal-store/store.rs:148-196 | crash refinement: after a crash between any two durable effects, whatever records survive and however equal maxima are sorted, the reopened store has the invariant for the very same history |
| Recovery.SurvivingOK | crates/toroidal-store/store.rs:704-735 | for every cut of the unsynced records of a flush, checkpoint or compaction, the live segments cover at least what was covered before, and exist |
| Recovery.MergedSortable | crates/toroidal-store/store.rs:704-735 | where each key's oldest holder that declares as much as the front segment holds its newest version, the merged segment and any rest of the old ones can be sorted by what they declare, ties either way, without an older answer in front |
| Recovery.RestoredAbove | crates/toroidal-store/wal.rs:252-299 | the restored counter is above every sequence ever used and directly after the last frame of a non-empty log |
| Recovery.OpenLog | crates/toroidal-store/store.rs:787-801 | replaying the log into a fresh table gives the window of the history from the log's start, even where it overlaps the segments |
| Safety.WriteKeeps | crates/toroidal-store/store.rs:202-231 | a one-operation append with the counter directly behind the log extends the history by its operation and keeps the invariant, in the middle of any job |
| Safety.PublishKeeps | crates/toroidal-store/store.rs:583-595 | publishing written tables as segments keeps the invariant with the covered part of the history advanced |
| Safety.TruncateKeeps | crates/toroidal-store/wal.rs:566-600 | cutting the log at the checkpoint boundary loses no operation that the segments do not cover, even with writes since the freeze |
| Safety.RegisterMergedKeeps | crates/toroidal-store/store.rs:704-712 | appending ADD of the merged and REMOVE of the old segments keeps the invariant, with the watermark raised |
| Safety.PublishMergedKeeps | crates/toroidal-store/store.rs:716-726 | swapping the old segments for the merged one keeps the invariant |
| Safety.MergedIs | crates/toroidal-store/store.rs:656-693 | the merged segment reaches up to the last covered operation and declares what the front segment declared, which is never more than it holds |
| Layers.LayeredReadIff | crates/toroidal-store/store.rs:371-403 | a walk over proper layers, newest first, returns the operation with the greatest sequence at or below the snapshot if and only if that operation is in some layer |
| Layers.LayeredRead | crates/toroidal-store/store.rs:371-403 | over layers that cover the history the walk equals the history |
| Layers.CurrentIsLatest | crates/toroidal-store/store.rs:339-363 | the first layer holding the key decides as the comparison at the top sequence does |
| Layers.PrependWindow | crates/toroidal-store/store.rs:60-82 | a table of later operations on top of covering layers covers the longer history, also when it overlaps what they cover |
| Layers.HigherPrecedes | crates/toroidal-store/store.rs:583-595 | of two proper layers the one that reaches further up may stand in front: no reader at or above the watermark is given an older version for it |
| Layers.Rearrange | crates/toroidal-store/store.rs:165-170 | the order in which equal maxima are sorted, and repetitions, do not matter as long as no older answer comes to stand in front |
| Compaction.MergedOK | crates/toroidal-store/store.rs:659-693 | compaction preserves meaning: the merged table alone covers the history for every current reader, tombstones included, and reaches up to its last sequence |
| Compaction.MergedWithRest | crates/toroidal-store/store.rs:704-735 | the merged table with any of the old segments not yet removed still covers the history |
| Compaction.MergedHas | crates/toroidal-store/store.rs:673-693 | the merged table holds exactly the newest version of each key in any segment |
| Compaction.FullChainHas | crates/toroidal-store/store.rs:659-672 | merging the chains of all segments by insertion gives exactly the versions that some segment holds |
| Compaction.DocumentedRuleKeepsSnapshots | crates/toroidal-store/snapshot.rs:178-180 | under the documented rule every snapshot at or above the retention floor keeps its reads |
| Compaction.CodedRuleKeepsSnapshotIff | crates/toroidal-store/store.rs:673-679 | the coded rule keeps a snapshot's read of a key if and only if the newest version is within the snapshot, or it reads nothing there anyway |
| Compaction.CodedRuleLosesSnapshot | crates/toroidal-store/store.rs:673-679 | a concrete store in which the coded rule loses a live snapshot's value and the documented rule keeps it |
| TornCompaction.TornReadsIff | crates/toroidal-store/store.rs:704-735 | every cut of a compaction's records and every order of equal maxima reopens to reads of the last operations if and only if, for each key that the log does not replay, the oldest segment that holds it and declares at least what the front one does holds its newest version |
| TornCompaction.TornMergeReadsIff | crates/toroidal-store/store.rs:643-735 | the same, asked of the state before the compaction starts |
| Headed.HeadedTornIff | crates/toroidal-store/store.rs:643-735 | where segments declare their true maxima: if and only if the front segment is not empty, or for each key that the log does not replay the oldest segment that holds it holds its newest version |
| Headed.GuardedIsValid | crates/toroidal-store/store.rs:643-735 | a run that compacts only over non-empty front segments may crash anywhere, whatever record is torn, and its segments always declare their true maxima |
| Headed.CompactedBoundaryIff | crates/toroidal-store/store.rs:296-314 | a snapshot after a compaction is taken at the last operation if and only if a table in memory holds something, the front segment declared that operation's sequence, or nothing was written |
| Headed.HeadedBoundaryIff | crates/toroidal-store/store.rs:296-314 | where segments declare their true maxima: if and only if memory or the front segment is not empty, or nothing was written |
| Limits.CompactionKeepsSnapshotIff | crates/toroidal-store/store.rs:643-738 | for the whole store, whatever the floor: when compaction keeps what a snapshot reads of a key |
| Limits.NextWriteSurvivesIff | crates/toroidal-store/wal.rs:347-365 | after an append of `n` operations the next append survives reopening if and only if `n` is 1 |
| Limits.BatchLosesNextWrite | crates/toroidal-store/store.rs:237-273 | a run: a batch of two, an acknowledged put, a restart, and the put is gone |
| Limits.FlushKeepsFrontIff | crates/toroidal-store/segment.rs:759-784 | writing a table out keeps the current read of a key if and only if the front of its chain has the greatest sequence |
| Limits.WriteAfterRejectSurvivesIff | crates/toroidal-store/wal.rs:730-734 | after an append refused once its sequence was taken, the next survives reopening if and only if the log was empty |
| Limits.FlushHidesValue | crates/toroidal-store/store.rs:487-520 | a run in which an acknowledged value is invisible while its table is being flushed |
| Limits.TornTruncationIff | crates/toroidal-store/wal.rs:592-597 | after a crash that leaves `n` rewritten frames of a truncation every current read is right if and only if all frames were rewritten, or the segments hold the last operation and no key among those `n` is written again in a missing one |
| Limits.FlushedTruncationIff | crates/toroidal-store/wal.rs:592-597 | after a checkpoint that flushed something: if and only if all frames were rewritten |
| IdleCheckpoint.MergedTruthfulIff | crates/toroidal-store/store.rs:656 | where segments declare their true maxima, the merged one does if and only if the front segment is not empty or all are empty |
| IdleCheckpoint.QuietIsReachable | crates/toroidal-store/store.rs:526-606 | two puts, freezes and a checkpoint reach a state whose front segment is empty |
| IdleCheckpoint.QuietIsUnsafe | crates/toroidal-store/store.rs:656 | that state fails the condition under which a compaction may be torn |
| IdleCheckpoint.TornCompactionReadsStale | crates/toroidal-store/store.rs:704-735 | from there, a compaction torn by a crash reads a stale value after reopening |
| IdleCheckpoint.SnapshotAfterIdleCompaction | crates/toroidal-store/store.rs:296-314 | from there, without a crash, a snapshot after the compaction has boundary 0 and reads nothing |
| Lapses.RefusedLosesNextWrite | crates/toroidal-store/memtable.rs:55-63 | a run: a put, a put of the largest value the table admits, which the log refuses, an acknowledged put, a restart, and that put is gone |
| Lapses.CutIsReachable | crates/toroidal-store/store.rs:526-606 | a put, and a checkpoint during which a second put is acknowledged, reach a truncation that has a frame to keep |
| Lapses.TornTruncationLosesWrite | crates/toroidal-store/wal.rs:592-597 | a crash there, after the file was emptied, loses the second put |
| Lapses.FlushRevives | crates/toroidal-store/store.rs:487-520 | a run: a batch of three, an acknowledged put on the same key, a freeze and a flush, and without any crash the store reads the value that the put had overwritten, whatever segment the flush writes |
| Uncrashed.StepFaithful | crates/toroidal-store/store.rs:202-738 | without a crash every event, one-operation appends, refused appends and compactions over empty segments included, keeps the tables covering the history at a watermark that a compaction raises only to the greatest sequence merged |
| Uncrashed.CalmRunReads | crates/toroidal-store/store.rs:339-363 | in every state of every run of one-operation appends without a crash a current read is the last acknowledged operation |
| Uncrashed.CompactFaithful | crates/toroidal-store/store.rs:643-738 | a whole compaction keeps the tables covering the history; the watermark rises to the last operation that the segments covered and no further |
| Uncrashed.CheckpointFaithful | crates/toroidal-store/store.rs:526-606 | after a whole checkpoint the segments cover every acknowledged operation |
| Timelines.SnapshotContents | crates/toroidal-store/store.rs:371-403 | a snapshot that saw the first `b` operations, none of them passed by a compaction, reads what a map held after them |
| Timelines.BoundaryIsSeen | crates/toroidal-store/store.rs:296-314 | without a crash the history, the ends of the frozen tables, how far the segments reach and what each declares determine where a snapshot is taken |
| Timelines.SeesAllIff | crates/toroidal-store/store.rs:296-314 | it sees every operation if and only if something is not in segments yet, a segment declares to reach the last one, or there is none |
| Timelines.OnMove | crates/toroidal-store/store.rs:487-520 | publishing the oldest frozen tables as segments moves those marks and nothing else |
| Timelines.OnCompact | crates/toroidal-store/store.rs:643-738 | so does a compaction, which declares what the front segment did |
| Framing.TornLog | crates/toroidal-store/wal.rs:619-649 | every byte-prefix of a log written record by record reads as exactly the records wholly within it |
| Encoding.LessIsComesBefore | crates/toroidal-store/store.rs:466 | the key comparison holds if and only if the first key is a proper prefix of the second, or they agree before some place where the first has the smaller byte |
| Encoding.FieldBytes | crates/toroidal-store/segment.rs:932-940 | a field of two, four or eight bytes is their weighted sum, the first byte counting least |
| WalCodec.FrameRoundTrip | crates/toroidal-store/wal.rs:116-232 | a frame that can be encoded decodes to itself and its length field is its length, within the limits |
| WalCodec.FrameLayout | crates/toroidal-store/wal.rs:143-170 | the place, width and value of every field of a frame, byte by byte |
| WalCodec.DecodesIff | crates/toroidal-store/wal.rs:172-222 | bytes decode to a frame if and only if they are its encoding |
| WalCodec.ReadsIff | crates/toroidal-store/wal.rs:672-700 | the reader sees the end, a frame cut short or a frame exactly by the bytes at the cursor, and a frame if and only if they start with its encoding |
| WalCodec.PayloadRoundTrip | crates/toroidal-store/wal.rs:721-817 | every admitted payload decodes to the operation encoded |
| WalCodec.EncodableOperation | crates/toroidal-store/wal.rs:721-756 | an operation can be framed if and only if its payload is within 16 MiB |
| WalCodec.DecodedIsEncodable | crates/toroidal-store/wal.rs:172-222 | every frame that decodes can be written again |
| WalCodec.FramesDelimit | crates/toroidal-store/wal.rs:672-700 | what follows a frame never changes how it reads, and its own bytes suffice |
| WalCodec.TornFrameIsNotCorrupt | crates/toroidal-store/wal.rs:672-700 | a frame cut short reads as the end of the file or as truncated, never as corrupt |
| WalLog.TornLogAtomicity | crates/toroidal-store/wal.rs:426-532 | for every byte-prefix of a log of single operations and batches, replay returns exactly the operations of the units wholly before the cut, each batch whole or absent |
| WalLog.TruncationKeepsUnits | crates/toroidal-store/wal.rs:566-600 | truncation keeps a suffix of whole units, those with a frame above the boundary; opening accepts all of it and replay returns exactly their operations |
| WalLog.ScanStops | crates/toroidal-store/wal.rs:619-649 | the scan takes exactly the longest run of consecutive frames |
| WalLog.ScanReaches | crates/toroidal-store/wal.rs:619-649 | a frame is accepted if and only if no frame up to it breaks the run of sequences |
| WalLog.StandaloneReplaysIff | crates/toroidal-store/wal.rs:476-532 | a standalone operation appended after a log that replays can be replayed if and only if no batch is pending |
| WalLog.BatchReplays | crates/toroidal-store/wal.rs:476-532 | behind any log that replays with no batch pending, a batch adds all its operations in order with its COMMIT, and nothing without |
| WalLog.KeepIsKept | crates/toroidal-store/wal.rs:577-590 | truncation keeps exactly the frames above the boundary or of a batch that has one, in the order they stood |
| WalLog.TornBatchPoisonsLog | crates/toroidal-store/wal.rs:503-504 | a log torn after BEGIN opens, takes an acknowledged put, and then cannot be opened |
| WalFile.InFlightFrame | crates/toroidal-store/wal.rs:702-707 | a crash during an append leaves the log as it was or with the whole frame, whichever bytes arrived |
| WalFile.Wal.ScanValidPrefix | crates/toroidal-store/wal.rs:619-649 | the end and the last sequence of the longest consecutive prefix, or an error exactly behind the top sequence |
| WalFile.Wal.Open | crates/toroidal-store/wal.rs:252-286 | opening keeps exactly the accepted frames, cuts the rest, and sets the counter behind them; it fails exactly when sequences are exhausted |
| WalFile.Wal.OpenWithSequence | crates/toroidal-store/wal.rs:292-299 | the counter is above every accepted frame and at or above the floor |
| WalFile.Wal.NextSequenceLocked | crates/toroidal-store/wal.rs:607-614 | hands out the counter and advances it, refusing the last |
| WalFile.Wal.AppendManyStandaloneSync | crates/toroidal-store/wal.rs:347-365 | the group is appended whole or not at all; the counter advances by one either way |
| WalFile.Wal.AppendBatch | crates/toroidal-store/wal.rs:426-466 | BEGIN, operations and COMMIT under consecutive sequences; a frame that cannot be stored stops the append with the frames before it in the file |
| WalFile.Wal.Replay | crates/toroidal-store/wal.rs:476-532 | the loop returns the committed operations of the valid prefix, or an error if the file is corrupt or the frames break the batch rules |
| WalFile.Wal.TruncateKeepAbove | crates/toroidal-store/wal.rs:566-600 | the file holds exactly the kept frames, re-encoded, and the counter is untouched |
| ManifestFile.EntryRoundTrip | crates/toroidal-store/manifest.rs:304-339 | a record reads back as written, whatever follows it |
| ManifestFile.EntryReadsIff | crates/toroidal-store/manifest.rs:221-297 | bytes decode to a record if and only if one stands there, field by field and with its checksum |
| ManifestFile.EntryLayout | crates/toroidal-store/manifest.rs:304-339 | the encoding is such a record, of the exact length |
| ManifestFile.EntriesDelimit | crates/toroidal-store/manifest.rs:221-297 | what follows a record never changes how it reads |
| ManifestFile.TornEntries | crates/toroidal-store/manifest.rs:221-297 | any byte-prefix of appended records reads as the records that were there and the leading whole ones |
| ManifestFile.TornManifest | crates/toroidal-store/manifest.rs:221-297 | any byte-prefix of appended records replays to the fold of those before and the leading whole ones |
| ManifestFile.Manifest.constructor | crates/toroidal-store/manifest.rs:67-97 | opening leaves memory equal to the replay of the valid records and cuts the file behind them, so later appends are read |
| ManifestFile.Manifest.Replay | crates/toroidal-store/manifest.rs:221-297 | the loop computes the live set, the flushed maximum and the valid length of the file |
| ManifestFile.Manifest.AddSegment | crates/toroidal-store/manifest.rs:110-122 | memory still equals the replay of the file, which holds one more record |
| ManifestFile.Manifest.AppendCompactionBatch | crates/toroidal-store/manifest.rs:160-190 | all records or none are appended, and memory equals the replay |
| ManifestFile.Manifest.AppendBatch | crates/toroidal-store/manifest.rs:194-212 | the records up to the first that cannot be encoded are appended; memory equals the replay if and only if the checkpoint covers every added segment |
| SegmentCodec.FileRoundTrip | crates/toroidal-store/segment.rs:263-569 | parsing the bytes of a segment gives back exactly the entries in order, whatever the block split, with index, filter and declared maximum |
| SegmentCodec.EntryRoundTrip | crates/toroidal-store/segment.rs:903-926 | an entry reads back wherever it stands; an empty value stays distinct from a tombstone |
| SegmentCodec.EntryDecodesIff | crates/toroidal-store/segment.rs:986-1053 | an entry is decoded at a place if and only if it stands there, field by field |
| SegmentCodec.EntriesDecodeIff | crates/toroidal-store/segment.rs:976-1055 | so are all entries of a block, one behind the other |
| SegmentCodec.BlockLayout | crates/toroidal-store/segment.rs:903-926 | a block is its count, its entries one behind the other and its checksum |
| SegmentCodec.FileLayout | crates/toroidal-store/segment.rs:831-861 | the place, width and value of every field of header and footer, and where blocks, filter and index stand |
| SegmentCodec.IndexLayout | crates/toroidal-store/segment.rs:815-827 | the index is the number of blocks and one entry for each, one behind the other |
| SegmentCodec.BloomLayout | crates/toroidal-store/segment.rs:802-811 | the filter region is the number of hashes, the length and the bits |
| SegmentCodec.OpensOnlySound | crates/toroidal-store/segment.rs:263-360 | nothing opens whose checksum, magic number or version is wrong or whose regions reach outside the file |
| SegmentCodec.IndexTiles | crates/toroidal-store/segment.rs:759-867 | the (offset, size) pairs tile the data region, each on exactly its block |
| SegmentCodec.BlockRoundTrip | crates/toroidal-store/segment.rs:976-1055 | decoding a block gives its entries |
| SegmentCodec.BlockChecksum | crates/toroidal-store/segment.rs:903-926 | the last four bytes of a block are the checksum of the rest |
| SegmentCodec.BloomRoundTrip | crates/toroidal-store/segment.rs:134-199 | the filter reads back bit for bit |
| SegmentReaders.InsertKey | crates/toroidal-store/segment.rs:157-173 | exactly the bits at the positions of the key are set besides those that were; so an inserted key is contained, and no contained key is lost |
| SegmentReaders.BuildBloom | crates/toroidal-store/segment.rs:759-867 | exactly the bits at the positions of the keys written are set, so the filter contains each of them |
| SegmentReaders.ContainsIff | crates/toroidal-store/segment.rs:174-192 | such a filter contains a key if and only if each position of the key is a position of a key written |
| SegmentReaders.PositionIs | crates/toroidal-store/segment.rs:157-173 | the positions, computed with wrapping arithmetic, are the exact sums modulo 2 to the 64 and then modulo the number of bits |
| SegmentReaders.BitIs | crates/toroidal-store/segment.rs:163-169 | bit `j` of a byte is the one that 2 to the `j` stands for |
| SegmentReaders.SplitFits | crates/toroidal-store/segment.rs:776-805 | the writer's split loses and reorders nothing, always fits the file's fields, and is the greedy one: each block is within 32768 counted bytes or one entry, and the first entry of the next would have overflowed it |
| SegmentReaders.WriteBlocks | crates/toroidal-store/segment.rs:776-805 | the writing loop produces the blocks of that split and their index |
| SegmentReaders.WriteSegment | crates/toroidal-store/segment.rs:759-901 | the bytes written are the file of those blocks, with a filter of exactly the keys written |
| SegmentReaders.WrittenReadsBack | crates/toroidal-store/segment.rs:263-569 | what a flush writes, opening reads: the table with its chains sorted, and a filter without false negatives |
| SegmentReaders.CachedReadIff | crates/toroidal-store/segment.rs:576-595 | filter, binary search, block and decoding agree with the decoded map on a key, present or absent, if and only if its versions do not straddle the block found |
| SegmentReaders.StaleCachedRead | crates/toroidal-store/segment.rs:576-595 | two versions of a key too large for one block: the block-cached read of the file the writer makes of them returns the older, the decoded read the newer |
| SegmentReaders.OneVersionReadsCached | crates/toroidal-store/segment.rs:576-595 | with one version a key, as compaction leaves it, they agree on every key |
| MemTables.MemTable.PushVersion | crates/toroidal-store/memtable.rs:98-110 | the version goes to the front of its key's chain; nothing else changes |
| MemTables.MemTable.GetVisible | crates/toroidal-store/memtable.rs:128-131 | the first version of the key's chain at or below the sequence, and none if and only if all are above it |
| MemTables.MemTable.ScanEntriesVisible | crates/toroidal-store/memtable.rs:151-173 | in ascending byte-lexicographic order of the keys, exactly the visible versions of the keys that are not before the start and are before the end |
| MemTables.MemTable.ScanAllVersions | crates/toroidal-store/memtable.rs:183-197 | all versions, keys in ascending byte-lexicographic order and each key newest first; grouping them gives the table with its chains sorted |
| MemTables.MemTable.MaxSequence | crates/toroidal-store/memtable.rs:212-223 | the greatest sequence among the fronts, none exactly for an empty table |
| Snapshots.SnapshotManager.Register | crates/toroidal-store/snapshot.rs:201-206 | one more handle at the sequence |
| Snapshots.SnapshotManager.Unregister | crates/toroidal-store/snapshot.rs:208-217 | one fewer, and nothing when there is none |
| Snapshots.SnapshotManager.Clone | crates/toroidal-store/snapshot.rs:93-103 | a clone of a managed handle counts as one more |
| Snapshots.SnapshotManager.Drop | crates/toroidal-store/snapshot.rs:162-170 | dropping a managed handle gives exactly one up |
| Snapshots.SnapshotManager.Floor | crates/toroidal-store/snapshot.rs:219-227 | the floor is the least live sequence, the top one when there is none |
| SegmentNames.NumberOfPath | crates/toroidal-store/store.rs:172-180 | a segment's number reads back from its path |
| SegmentNames.PathForm | crates/toroidal-store/store.rs:503-505 | the path is the directory, `/seg_`, the number in at least sixteen decimal digits without further zeros in front, and `.seg` |
| StoreView.ReplayRecords | crates/toroidal-store/manifest.rs:221-297 | replaying the manifest file restores the live segments and flushed maximum of the machine's records |
| StoreView.AcceptedOps | crates/toroidal-store/wal.rs:619-649 | the frames that opening accepts are the machine's accepted operations |
| StoreView.KeptOps | crates/toroidal-store/wal.rs:566-600 | the frames that truncation keeps are the machine's kept operations |
| Jobs.PathExtends | crates/toroidal-store/store.rs:202-738 | an operation of the store whose first event is allowed extends a run, so what is proved of runs holds after it, and at every point inside it |
| Scans.Gather | crates/toroidal-store/store.rs:416-467 | one layer of a scan decides exactly the keys not decided by the layers before |
| Scans.Finish | crates/toroidal-store/store.rs:416-467 | the result is in ascending byte-lexicographic order of the keys and holds exactly the keys of the range that the snapshot read finds |
| Scans.ScanUnique | crates/toroidal-store/store.rs:416-467 | that determines the result |
| Stores.ToroidalStore.Put | crates/toroidal-store/store.rs:202-220 | acknowledged if and only if the store is open, key, value and both with eight bytes are within 16 MiB, and a sequence is left; then the operation is in the log under it, in front of its chain in the table, and a read finds the value; otherwise log and table stay as they were; a sequence is used up exactly when the store is open, key and value are each within 16 MiB and one is left |
| Stores.ToroidalStore.Delete | crates/toroidal-store/store.rs:222-231 | the same for a tombstone, after which a read finds nothing |
| Stores.ToroidalStore.Batch | crates/toroidal-store/store.rs:237-273 | a batch is one append of all its operations under consecutive sequences, taken by the table in order; an empty one succeeds, an invalid one does nothing |
| Stores.ToroidalStore.Get | crates/toroidal-store/store.rs:339-363 | the loop over active, frozen and segments is the machine's current read |
| Stores.ToroidalStore.GetAt | crates/toroidal-store/store.rs:371-403 | refused if and only if the snapshot is below the flushed maximum and below every live snapshot; the oldest sequence reported is the flushed maximum or a live snapshot and at most all of them; otherwise the machine's snapshot read |
| Stores.ToroidalStore.ScanAt | crates/toroidal-store/store.rs:416-467 | refused if and only if the snapshot is below the flushed maximum and below every live snapshot; otherwise exactly the keys not before the start and before the end that the snapshot read finds, each once, in ascending byte-lexicographic order |
| Stores.ToroidalStore.Snapshot | crates/toroidal-store/store.rs:296-314 | a managed handle, counted in the manager, at the greatest sequence in front of a chain in memory or declared by a segment |
| Stores.ToroidalStore.RetentionFloor | crates/toroidal-store/store.rs:743-750 | the flushed maximum or a live snapshot, and at most all of them |
| Stores.ToroidalStore.Freeze | crates/toroidal-store/store.rs:473-481 | the active table, as it is, becomes the last frozen one and an empty one takes its place |
| Stores.ToroidalStore.Flush | crates/toroidal-store/store.rs:487-520 | the machine's path of taking, writing, registering, syncing and publishing the oldest frozen table; field by field: that table, its versions newest first and its greatest sequence declared, is the front segment under the next number, and one file and one record are all that is new on the disk |
| Stores.ToroidalStore.Checkpoint | crates/toroidal-store/store.rs:526-606 | the machine's path of a checkpoint, from freeze to truncation; field by field: one new segment a table, the newest in front, with their files and records and the boundary, and of the log exactly the operations above all of them, in order |
| Stores.ToroidalStore.Compact | crates/toroidal-store/store.rs:623-738 | nothing below two segments; otherwise the machine's path of a compaction under the retention floor, at the end of which no file of an old segment is left, the merged one is new, every other file is as it was, and the manifest has gained its ADD and the REMOVE of each old one |
| Stores.MergeTables | crates/toroidal-store/store.rs:659-672 | the merge loop computes for every key all versions of all segments, newest first, one a sequence |
| Stores.RetainAll | crates/toroidal-store/store.rs:673-693 | the retention loop computes the machine's merged table, which is strict |
| Stores.LoadSegments | crates/toroidal-store/store.rs:165-170 | opens exactly the live segments, failing exactly when one is missing |
| Stores.ReplayIntoTable | crates/toroidal-store/recovery.rs:12-29 | the replayed operations, in order, make the table |
| Stores.OpenStore | crates/toroidal-store/store.rs:148-196 | opening fails exactly when sequences are exhausted or a live segment is missing; otherwise it reaches a state the machine opens that disk to: the log's longest run of consecutive frames, the least free sequence, the files of exactly the segments added and not removed since, by declared maximum, and the least free number |
| Effects.FlushEffect | crates/toroidal-store/store.rs:487-520 | whatever path of a flush is taken, field by field: the oldest frozen table is the front segment and its file and record are all that is new on the disk |
| Effects.CheckpointEffect | crates/toroidal-store/store.rs:526-606 | whatever path of a checkpoint is taken, field by field: one segment for each table, its file and its ADD record, the boundary recorded, and in the log exactly what lies above it |
| Effects.CompactEffect | crates/toroidal-store/store.rs:643-738 | whatever path of a compaction is taken, no file of an old segment is left and nothing but the merged file and the records of the exchange is new |
| Effects.KeepIsKept | crates/toroidal-store/wal.rs:584-590 | truncation keeps exactly the operations above the boundary, in the order they stood |
| Effects.LiveStays | crates/toroidal-store/manifest.rs:221-297 | a segment is live after replaying the records if and only if some record adds it and no later one removes it |
| Effects.FlushedIsGreatest | crates/toroidal-store/manifest.rs:221-297 | the flushed maximum is the greatest sequence that an ADD or a checkpoint record tells of |
| Effects.AcceptedIsLongest | crates/toroidal-store/wal.rs:619-649 | opening the log accepts the longest run of consecutive frames from its start |
| Effects.RestoredIsNext | crates/toroidal-store/store.rs:158-163 | the counter restored is the least sequence above every accepted frame and everything the manifest tells of |
| Effects.OpenEffect | crates/toroidal-store/store.rs:148-196 | all of this for any state that opening a disk leads to |
| LiveFiles.StepKeepsTidy | crates/toroidal-store/store.rs:487-735 | every effect but a crash keeps the segment files those of the live segments and of the job under way |
| LiveFiles.RunTidy | crates/toroidal-store/store.rs:487-735 | through any part of a run without a crash that starts so, the files are those, and between jobs exactly those of the live segments |
| LiveFiles.CompactionFiles | crates/toroidal-store/store.rs:643-735 | a whole compaction anywhere in any run, crashes included: the old segments' files are gone, every other stays, and if the files were exactly those of the live segments, they are again |
| Reopening.RecordedStore.Write | crates/toroidal-store/store.rs:202-231 | on a store that carries its run: acknowledged exactly when open, admitted, framed and numbered, and then the run's history has one operation more |
| Reopening.RecordedStore.Checkpoint | crates/toroidal-store/store.rs:526-606 | the run goes on by a checkpoint's events; its history stays |
| Reopening.RecordedStore.Compact | crates/toroidal-store/store.rs:623-738 | the same for a compaction |
| Reopening.RecordedStore.Get | crates/toroidal-store/store.rs:339-363 | the last operation of the run's history |
| Reopening.Moment | crates/toroidal-store/store.rs:148-196 | every point of a run, in the middle of an operation too, ends a run |
| Reopening.Reopen | crates/toroidal-store/store.rs:148-196 | from the bytes: the store stopped anywhere in any run that may crash there; whatever prefix of a frame in flight reached the log and whatever prefix of the unsynced manifest bytes the manifest, opening succeeds, the run goes on, and every read is the last acknowledged operation, the write in flight counting exactly when its whole frame is there |
| Timelines.ContentsIsLatest | src/hybrid_storage.rs:210-291 | what the map holds of a key is its last operation |
| Backends.MemoryBackend.Write | src/hybrid_storage.rs:233-245 | a put or delete on the map |
| Backends.MemoryBackend.Scan | src/hybrid_storage.rs:262-291 | the pairs whose keys are not before the start and are before the end, in ascending byte-lexicographic order |
| Backends.ToroidalBackend.Get | src/hybrid_storage.rs:83-85 | what the map holds |
| Backends.ToroidalBackend.Write | src/hybrid_storage.rs:87-97 | acknowledged exactly when open, admitted, framed and numbered, and then the line has one operation more |
| Backends.ToroidalBackend.Batch | src/hybrid_storage.rs:99-115 | the same for a batch of at most one operation |
| Backends.ToroidalBackend.Scan | src/hybrid_storage.rs:117-129 | refused exactly for an inverted range, otherwise the map's listing |
| Backends.ToroidalBackend.Flush | crates/toroidal-store/store.rs:487-520 | the oldest frozen table becomes a segment; nothing that the map holds changes |
| Backends.ToroidalBackend.Checkpoint | src/hybrid_storage.rs:131-143 | the line is as after writing out all tables; nothing that the map holds changes |
| Backends.ToroidalBackend.Compact | src/hybrid_storage.rs:145-150 | the line is as after one merge of all segments, whatever the front segment; nothing that the map holds changes |
| Backends.ToroidalBackend.Snapshot | src/hybrid_storage.rs:152-158 | a live handle at the last operation that it sees, which is the last of all if and only if memory holds something, a segment declares it, or there is none |
| Backends.ToroidalBackend.GetAt | src/hybrid_storage.rs:167-171 | a live snapshot is never refused; it reads what the map held after the operations it saw, unless a compaction has merged later ones |
| Backends.ToroidalBackend.ScanAt | src/hybrid_storage.rs:173-189 | the same for range scans |
| Backends.Perform | src/hybrid_storage.rs:30-48 | one command on both backends: the store's answer is the one the line gives, the map's the ideal one, and both are the same unless a snapshot is read that missed something or that a compaction passed by |
| Backends.Drive | src/hybrid_storage.rs:30-48 | refinement: for every sequence of puts, deletes, batches of one operation, reads, scans, freezes, flushes, checkpoints, compactions, snapshots and snapshot reads, each answer is the one the line of acknowledged operations gives at that point |
| Batchers.GroupCommit | crates/toroidal-store/batcher.rs:112-211 | over every interleaving, append and sync being separate steps, each enqueued operation is in exactly one of queue, batch and acknowledged; an Ok is in the log on disk, an error is not; the log is in the order of enqueueing |
| Batchers.TakenIff | crates/toroidal-store/wal.rs:347-365 | the log takes a batch if and only if it is not empty, a sequence is left and each operation is a put or delete whose payload is within 16 MiB |
| Batchers.RoundServes | crates/toroidal-store/batcher.rs:179-211 | once around, the worker answers everybody who waited when it drained the queue, all alike, Ok if and only if the log takes them, and then they are on disk as one group |
| Batchers.CallsQueue | crates/toroidal-store/batcher.rs:112-123 | calls take the next tickets and the last places of the queue, in their order |
| Batchers.SurvivesIff | crates/toroidal-store/wal.rs:347-365 | wherever a crash cuts the frames not yet synced, an operation acknowledged Ok is read again after a restart if and only if each group before its own is followed by one that took the sequence after its last |
| Bfs.BfsIsExact | src/storage.rs:60-87 | the order of discovery lists exactly the nodes within the limit, each once, with its shortest distance, in non-decreasing distance |
| Bfs.BfsInListOrder | src/storage.rs:60-87 | give each node but the start the earliest listed node whose neighbours include it and its first index there: the list is strictly ascending in that pair |
| Bfs.BfsDetermined | src/storage.rs:60-87 | these two properties determine the list |
| Bfs.GraphSearch | src/storage.rs:60-87 | the search that records at dequeue returns exactly the nodes within the limit, each once, with its shortest distance, in non-decreasing distance; and each in the order in which the neighbour lists of earlier results first name it |
| Bfs.GraphSearchHttp | src/http_handlers.rs:318-367 | the search that records at enqueue returns the same list, without its head when the start does not exist |
| Betti.UnionFind.Find | src/topology/functions.rs:165-174 | path compression terminates and changes nobody's root |
| Betti.UnionFind.Union | src/topology/functions.rs:176-182 | merges exactly the two trees |
| Betti.RootsAreClasses | src/topology/functions.rs:149-194 | two nodes have the same root if and only if the edges connect them |
| Betti.BettiNumbers | src/topology/functions.rs:149-194 | the result is the number of connectivity classes of the edge list |
| Ivf.NearestIsClosest | src/index/ivf.rs:163-174 | the place found is the first of those at the least distance |
| Ivf.NearestBelongs | src/index/ivf.rs:163-174 | it is the only centroid within reach with none strictly closer and all before it strictly farther, by the measure itself, or the first when none is within reach |
| Ivf.IvfIndex.Add | src/index/ivf.rs:154-179 | the vector joins the cluster of the first centroid with none strictly closer, by the measure itself, and nothing else moves; the clusters stay a partition of the stored vectors if and only if the id is new |
| Ivf.IvfIndex.Remove | src/index/ivf.rs:215-223 | removes the id from the map and from every cluster, leaving the rest of each as it was, and keeps the partition |
| Ivf.IvfIndex.Build | src/index/ivf.rs:225-247 | twenty rounds from the seeds, in each of which every stored vector is in the cluster of its nearest centroid and in no other and the centroids move to the means of their clusters; in the end the clusters partition the stored vectors |
| Ivf.IvfIndex.AssignToClusters | src/index/ivf.rs:77-92 | each cluster gains exactly the vectors whose nearest centroid is its own, each as often as it is listed |
| Ivf.PlacedHold | src/index/ivf.rs:77-92 | so together the clusters hold what they held and the vectors, each once |
| Ivf.BuiltByNearest | src/index/ivf.rs:225-247 | in clusters built from nothing a vector is in a cluster if and only if it is stored and that cluster's centroid is its nearest |
| Ivf.IvfIndex.Search | src/index/ivf.rs:181-213 | the `k` best of what the clusters of the `nprobe` closest centroids hold, closest first: no vector of them left out is strictly closer, by the distance or the similarity itself, than one returned, and each score is the negated distance or the similarity; with all probed and the clusters a partition, so of all stored vectors |
| Ivf.BruteForceIndex.Search | src/index/mod.rs:257-278 | as many stored vectors as there can be up to `k`, each once, closest first: none left out is strictly closer, by the distance or the similarity itself, than one returned, and each score is the negated distance or the similarity |
| Ivf.SameScores | src/index/ivf.rs:129-151 | two top `k` lists of the same vectors have the same scores place by place |
| Ivf.TopIsClosest | src/index/ivf.rs:129-151 | a top `k` by score lists `k` closest vectors, closest first |
| Ivf.ClosestAnswers | src/index/ivf.rs:181-213 | for a listing of the stored vectors that is a statement about the map alone |
| Ivf.FullProbingIsBruteForce | src/index/ivf.rs:181-213 | with every cluster probed the answer has the scores of brute force, place by place |

## Left out

- Limits.NextWriteSurvivesIff: batches of several operations are covered by the failure and its exact condition only; runs that may crash and the refinement of the map take one operation an append.
- Stores.OpenStore: opens logs of standalone operations, the only ones the store writes; logs with batches are covered by the class `Wal`.
- Stores.ToroidalStore.Batch: requires that the sequences of the batch do not pass the last one, since the source wraps there.
- Stores.ToroidalStore.Flush: requires a segment number to be left, as checkpoint and compaction do; the source wraps after 2^64 of them.
- Stores.ToroidalStore.Freeze: the frozen table is a value, so a handle that a caller keeps does not see a clear of it.
- MemTables.MemTable.PushVersion: the class stands for the source's table on its own; the store model keeps its tables as values and shares the class's functions, so update in place within a store's table is not modelled.
- Backends.ToroidalBackend.Batch: takes at most one operation, as larger batches break the numbering.
- Reopening.RecordedStore.Write: asks that no refused append stands behind the log's last frame; `Limits.WriteAfterRejectSurvivesIff` says what happens otherwise.
- Batchers.SurvivesIff: asks that sequences do not run out within the events considered.
- SegmentReaders.WriteSegment: the size and number of hashes of the filter come from floating-point arithmetic in the source; any are allowed here.
- SegmentReaders.CachedReadIff: the block cache is taken to return the block read; eviction is not modelled.
- ManifestFile.EntryRoundTrip: which bytes are valid UTF-8 is a parameter.
- Ivf.IvfIndex.Search: scores are reals, and the random first centroids and the means of each iteration are parameters.
- Bfs.GraphSearch: the neighbour relation is a function; a failing lookup is not modelled.
- Batchers.GroupCommit: flush and shutdown of the batcher are not barriers in the source and are not modelled.
- One background job at a time: a flush running beside a compaction is not modelled; writes, freezes and reads may fall between any two steps of a job.
- Input and output errors in the middle of an operation, directory syncs, permissions and file handles.
- Segments of the legacy format, the block-cached multi-version reads, minimum and maximum keys, and size estimates.
- Detection of damaged bytes: the checksum is any function.
- The rest of the repository: query languages, servers, HNSW and the other floating-point indexes, graph metrics, caches of nodes and queries, backup, security and user interface.
