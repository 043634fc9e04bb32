/**
 * The store as a state machine over its durable and in-memory effects.
 *
 * A state is the disk (write-ahead log, manifest, segment files), the memory (active table,
 * frozen tables, open segments, counters) and the background job under way: a flush, a
 * checkpoint or a compaction, at the point between two of its effects that it has reached.
 * Writers and readers may act at any of those points. A crash may come at any of them; it
 * keeps the synced part of the manifest and any records of the unsynced rest, in order.
 */
module Machine {
  import opened Encoding
  import opened Options
  import opened Versions
  import opened Layers
  import opened Compaction

  /** A segment: its number, its contents and the maximum its header declares. */
  datatype Seg = Seg(id: nat, table: Table, maxSeq: nat)

  datatype ManifestRecord =
    | AddSegment(id: nat, maxSeq: nat)
    | RemoveSegment(id: nat)
    | SetWalCheckpoint(sequence: nat)

  type Manifest = seq<ManifestRecord>

  /** `synced` counts the manifest records that an fsync covers. */
  datatype Disk = Disk(wal: History, manifest: Manifest, synced: nat, files: map<nat, Seg>)

  datatype Stage = Taken | Written | Registered

  /** The point a background job has reached. */
  datatype Job =
    | Idle
    | Moving(tables: seq<Table>, segs: seq<Seg>, checkpoint: bool, stage: Stage)
    | Truncating(boundary: nat)
    | Compacting(merged: Seg, stage: Stage)
    | Deleting(gone: set<nat>)

  datatype State = State(
    disk: Disk,
    nextSequence: nat,
    active: Table,
    frozen: seq<Table>,
    segments: seq<Seg>,
    nextSegId: nat,
    job: Job)

  // -------------------------------------------------------------------------
  // Manifest
  // -------------------------------------------------------------------------

  /** The segments that replaying the records leaves live. */
  function LiveIds(m: Manifest): set<nat>
  {
    if m == [] then {}
    else
      var live := LiveIds(m[..|m| - 1]);
      match m[|m| - 1]
      case AddSegment(id, _) => live + {id}
      case RemoveSegment(id) => live - {id}
      case SetWalCheckpoint(_) => live
  }

  function RecordSequence(r: ManifestRecord): nat
  {
    match r
    case AddSegment(_, n) => n
    case RemoveSegment(_) => 0
    case SetWalCheckpoint(n) => n
  }

  /** The highest flushed sequence that replaying the records restores. */
  function MaxFlushed(m: Manifest): nat
  {
    if m == [] then 0
    else
      var rest := MaxFlushed(m[..|m| - 1]);
      var n := RecordSequence(m[|m| - 1]);
      if n > rest then n else rest
  }

  // -------------------------------------------------------------------------
  // Segments
  // -------------------------------------------------------------------------

  function Tables(segs: seq<Seg>): (r: LayerList)
    ensures |r| == |segs|
    ensures forall i :: 0 <= i < |segs| ==> r[i] == segs[i].table
  {
    seq(|segs|, i requires 0 <= i < |segs| => segs[i].table)
  }

  function Ids(segs: seq<Seg>): set<nat>
  {
    set s | s in segs :: s.id
  }

  ghost predicate DistinctIds(segs: seq<Seg>)
  {
    forall i, j :: 0 <= i < j < |segs| ==> segs[i].id != segs[j].id
  }

  /** The declared maximum is not above the true one. */
  ghost predicate Modest(s: Seg)
  {
    s.maxSeq <= Hi(s.table)
  }

  /** The declared maximum is the true one. */
  ghost predicate Truthful(s: Seg)
  {
    s.maxSeq == Hi(s.table)
  }

  ghost predicate SortedByMax(segs: seq<Seg>)
  {
    forall i, j :: 0 <= i < j < |segs| ==> segs[i].maxSeq >= segs[j].maxSeq
  }

  function AddRecords(segs: seq<Seg>): Manifest
  {
    seq(|segs|, i requires 0 <= i < |segs| => AddSegment(segs[i].id, segs[i].maxSeq))
  }

  function RemoveRecords(segs: seq<Seg>): Manifest
  {
    seq(|segs|, i requires 0 <= i < |segs| => RemoveSegment(segs[i].id))
  }

  function FilesOf(segs: seq<Seg>): map<nat, Seg>
  {
    if segs == [] then map[] else FilesOf(segs[..|segs| - 1])[segs[|segs| - 1].id := segs[|segs| - 1]]
  }

  // -------------------------------------------------------------------------
  // The log as recovery reads it
  // -------------------------------------------------------------------------

  ghost predicate Consecutive(wal: History)
  {
    forall i :: 0 <= i < |wal| ==> wal[i].sequence == wal[0].sequence + i
  }

  /** Opening the log stops at the first sequence that does not follow its predecessor. */
  function AcceptedLength(wal: History): (n: nat)
    ensures n <= |wal|
  {
    if |wal| <= 1 then |wal|
    else if wal[1].sequence != wal[0].sequence + 1 then 1
    else 1 + AcceptedLength(wal[1..])
  }

  function Accepted(wal: History): History
  {
    wal[..AcceptedLength(wal)]
  }

  lemma {:induction false} AcceptedIffConsecutive(wal: History)
    ensures Accepted(wal) == wal <==> Consecutive(wal)
  {
    if |wal| > 1 {
      var tail := wal[1..];
      AcceptedIffConsecutive(tail);
      assert Accepted(wal) == wal <==> AcceptedLength(wal) == |wal|;
      assert Accepted(tail) == tail <==> AcceptedLength(tail) == |tail|;
      assert forall i :: 0 < i < |wal| ==> wal[i] == tail[i - 1];
      assert forall i :: 0 <= i < |tail| ==> tail[i] == wal[i + 1];
    }
  }

  function LastSequence(h: History): nat
  {
    if h == [] then 0 else h[|h| - 1].sequence
  }

  /** Sequences restart above both the log and the manifest. */
  function RestoredSequence(d: Disk): nat
  {
    var floor := MaxFlushed(d.manifest) + 1;
    var wal := Accepted(d.wal);
    if wal == [] then floor
    else if LastSequence(wal) + 1 < floor then floor else LastSequence(wal) + 1
  }

  // -------------------------------------------------------------------------
  // What readers see
  // -------------------------------------------------------------------------

  /** The layers a reader walks, newest first. Tables that a flush has popped are not among them. */
  function ReaderLayers(s: State): LayerList
  {
    Stack(s.frozen + [s.active], Tables(s.segments))
  }

  function Popped(j: Job): seq<Table>
  {
    if j.Moving? then j.tables else []
  }

  /** All layers, with the popped tables where they stood. */
  function AllLayers(s: State): LayerList
  {
    Stack(Popped(s.job) + s.frozen + [s.active], Tables(s.segments))
  }

  function Get(s: State, k: Key): Option<Bytes>
  {
    Live(ReadCurrent(ReaderLayers(s), k))
  }

  function GetAt(s: State, snapshot: nat, k: Key): Option<Bytes>
  {
    Live(ReadAt(ReaderLayers(s), k, snapshot))
  }

  // -------------------------------------------------------------------------
  // Steps
  // -------------------------------------------------------------------------

  datatype Event =
    | Write(ops: seq<(Key, EntryValue)>)
    | Reject
    | Freeze
    | Take(n: nat, checkpoint: bool)
    | WriteSegments
    | Register
    | SyncManifest
    | Publish
    | Truncate
    | Merge(keep: nat)
    | RegisterMerged
    | PublishMerged
    | DeleteFiles
    | Crash(cut: nat)

  /** The frames of one append: sequence `first + i` for the i-th operation. */
  function Numbered(ops: seq<(Key, EntryValue)>, first: nat): (h: History)
    ensures |h| == |ops|
  {
    seq(|ops|, i requires 0 <= i < |ops| => Op(first + i, ops[i].0, ops[i].1))
  }

  function PushAll(t: Table, h: History): Table
    decreases |h|
  {
    if h == [] then t else PushAll(Push(t, h[0].key, Version(h[0])), h[1..])
  }

  /** One append. The counter advances by one, whatever the number of operations. */
  function AfterWrite(s: State, ops: seq<(Key, EntryValue)>): State
  {
    var frames := Numbered(ops, s.nextSequence);
    s.(disk := s.disk.(wal := s.disk.wal + frames),
       nextSequence := s.nextSequence + 1,
       active := PushAll(s.active, frames))
  }

  /** The files written for popped tables: numbered in order, each declaring the maximum of the chain fronts. */
  ghost predicate SegmentsFor(tables: seq<Table>, first: nat, segs: seq<Seg>)
  {
    && |segs| == |tables|
    && forall i :: 0 <= i < |segs| ==>
         && segs[i].id == first + i && segs[i].maxSeq == FrontMax(tables[i])
         && SortedVersion(segs[i].table, tables[i])
  }

  /** The checkpoint boundary: the highest maximum among the segments written. */
  function Boundary(segs: seq<Seg>): (b: nat)
  {
    if segs == [] then 0
    else
      var b, m := Boundary(segs[..|segs| - 1]), segs[|segs| - 1].maxSeq;
      if m > b then m else b
  }

  function KeepAbove(wal: History, boundary: nat): History
  {
    if wal == [] then []
    else if wal[0].sequence > boundary then [wal[0]] + KeepAbove(wal[1..], boundary)
    else KeepAbove(wal[1..], boundary)
  }

  /** The records that publish a moved batch. */
  function MoveRecords(j: Job): Manifest
    requires j.Moving?
  {
    AddRecords(j.segs) + if j.checkpoint then [SetWalCheckpoint(Boundary(j.segs))] else []
  }

  /** The records that publish a compaction of `olds`. */
  function MergeRecords(merged: Seg, olds: seq<Seg>): Manifest
  {
    [AddSegment(merged.id, merged.maxSeq)] + RemoveRecords(olds)
  }

  /** What a crash leaves: the manifest cut at `cut`, and every file that a replay of it can name. */
  ghost predicate CrashImage(d: Disk, cut: nat, d': Disk)
  {
    && d.synced <= cut <= |d.manifest|
    && d'.wal == d.wal
    && d'.manifest == d.manifest[..cut]
    && d'.synced == cut
    && forall id :: id in LiveIds(d.manifest[..cut]) && id in d.files ==> id in d'.files && d'.files[id] == d.files[id]
  }

  /** Opening the store on a disk. Every live segment file must exist. */
  ghost predicate Opened(d: Disk, s: State)
  {
    && s.disk == d.(wal := Accepted(d.wal))
    && s.nextSequence == RestoredSequence(d)
    && s.active == TableOf(Accepted(d.wal))
    && s.frozen == []
    && LiveIds(d.manifest) <= d.files.Keys
    && Ids(s.segments) == LiveIds(d.manifest) && DistinctIds(s.segments)
    && (forall i :: 0 <= i < |s.segments| ==> s.segments[i].id in d.files && s.segments[i] == d.files[s.segments[i].id])
    && SortedByMax(s.segments)
    && (forall id :: id in LiveIds(d.manifest) ==> id < s.nextSegId)
    && s.job == Idle
  }

  ghost predicate WriteStep(s: State, ops: seq<(Key, EntryValue)>, s': State)
  {
    s.nextSequence < U64_MAX && ops != [] && s' == AfterWrite(s, ops)
  }

  /** An append that fails after its sequence was taken. */
  ghost predicate RejectStep(s: State, s': State)
  {
    s.nextSequence < U64_MAX && s' == s.(nextSequence := s.nextSequence + 1)
  }

  ghost predicate FreezeStep(s: State, s': State)
  {
    s' == s.(active := map[], frozen := s.frozen + [s.active])
  }

  /** A flush pops the oldest frozen table, a checkpoint all of them. */
  ghost predicate TakeStep(s: State, n: nat, checkpoint: bool, s': State)
  {
    && s.job == Idle && 0 < n <= |s.frozen| && (if checkpoint then n == |s.frozen| else n == 1)
    && s' == s.(frozen := s.frozen[n..], job := Moving(s.frozen[..n], [], checkpoint, Taken))
  }

  /** One synced segment file for each popped table. */
  ghost predicate WriteSegmentsStep(s: State, s': State)
  {
    && s.job.Moving? && s.job.stage == Taken && s'.job.Moving?
    && var segs := s'.job.segs;
       && SegmentsFor(s.job.tables, s.nextSegId, segs)
       && s' == s.(disk := s.disk.(files := s.disk.files + FilesOf(segs)),
                   nextSegId := s.nextSegId + |segs|,
                   job := Moving(s.job.tables, segs, s.job.checkpoint, Written))
  }

  ghost predicate RegisterStep(s: State, s': State)
  {
    && s.job.Moving? && s.job.stage == Written
    && s' == s.(disk := s.disk.(manifest := s.disk.manifest + MoveRecords(s.job)),
                job := Moving(s.job.tables, s.job.segs, s.job.checkpoint, Registered))
  }

  ghost predicate SyncStep(s: State, s': State)
  {
    s' == s.(disk := s.disk.(synced := |s.disk.manifest|))
  }

  ghost predicate PublishStep(s: State, s': State)
  {
    && s.job.Moving? && s.job.stage == Registered && s.disk.synced == |s.disk.manifest|
    && s' == s.(segments := Stack(s.job.segs, s.segments),
                job := if s.job.checkpoint then Truncating(Boundary(s.job.segs)) else Idle)
  }

  ghost predicate TruncateStep(s: State, s': State)
  {
    && s.job.Truncating?
    && s' == s.(disk := s.disk.(wal := KeepAbove(s.disk.wal, s.job.boundary)), job := Idle)
  }

  /** Compaction writes the merged file under the maximum that the front segment declares. */
  ghost predicate MergeStep(s: State, keep: nat, s': State)
  {
    && s.job == Idle && |s.segments| >= 2
    && var merged := Seg(s.nextSegId, Merged(Tables(s.segments), keep), s.segments[0].maxSeq);
       s' == s.(disk := s.disk.(files := s.disk.files[merged.id := merged]),
                nextSegId := s.nextSegId + 1,
                job := Compacting(merged, Written))
  }

  ghost predicate RegisterMergedStep(s: State, s': State)
  {
    && s.job.Compacting? && s.job.stage == Written
    && s' == s.(disk := s.disk.(manifest := s.disk.manifest + MergeRecords(s.job.merged, s.segments)),
                job := Compacting(s.job.merged, Registered))
  }

  ghost predicate PublishMergedStep(s: State, s': State)
  {
    && s.job.Compacting? && s.job.stage == Registered && s.disk.synced == |s.disk.manifest|
    && s' == s.(segments := [s.job.merged], job := Deleting(Ids(s.segments)))
  }

  ghost predicate DeleteStep(s: State, s': State)
  {
    && s.job.Deleting?
    && s' == s.(disk := s.disk.(files := s.disk.files - s.job.gone), job := Idle)
  }

  ghost predicate CrashStep(s: State, cut: nat, s': State)
  {
    exists d :: CrashImage(s.disk, cut, d) && Opened(d, s')
  }

  ghost predicate Step(s: State, e: Event, s': State)
  {
    match e
    case Write(ops) => WriteStep(s, ops, s')
    case Reject => RejectStep(s, s')
    case Freeze => FreezeStep(s, s')
    case Take(n, checkpoint) => TakeStep(s, n, checkpoint, s')
    case WriteSegments => WriteSegmentsStep(s, s')
    case Register => RegisterStep(s, s')
    case SyncManifest => SyncStep(s, s')
    case Publish => PublishStep(s, s')
    case Truncate => TruncateStep(s, s')
    case Merge(keep) => MergeStep(s, keep, s')
    case RegisterMerged => RegisterMergedStep(s, s')
    case PublishMerged => PublishMergedStep(s, s')
    case DeleteFiles => DeleteStep(s, s')
    case Crash(cut) => CrashStep(s, cut, s')
  }

  // -------------------------------------------------------------------------
  // What the acknowledged history is
  // -------------------------------------------------------------------------

  /** The history after an event: a write adds its operations, nothing else touches it. A write that
      reached the log but was not acknowledged before a crash is a write followed by that crash. */
  function NextHistory(s: State, h: History, e: Event): History
  {
    if e.Write? then h + Numbered(e.ops, s.nextSequence) else h
  }

  /** The retention watermark: registering a compaction raises it to the greatest sequence merged. */
  ghost function NextFloor(s: State, floor: nat, e: Event): nat
  {
    if e.RegisterMerged? && s.job.Compacting? && Hi(s.job.merged.table) > floor then Hi(s.job.merged.table) else floor
  }

  /** The store with its segments merged into one, as compaction leaves it. */
  function Compacted(s: State, keep: nat): State
    requires s.segments != []
  {
    s.(segments := [Seg(s.nextSegId, Merged(Tables(s.segments), keep), s.segments[0].maxSeq)])
  }

  // -------------------------------------------------------------------------
  // What a run may do
  // -------------------------------------------------------------------------

  /** Among the segments that declare no less than the front one, the oldest that holds the key. */
  ghost predicate OldestHolder(segs: seq<Seg>, i: nat, k: Key)
  {
    && i < |segs| && k in segs[i].table && segs[i].maxSeq >= segs[0].maxSeq
    && forall j :: i < j < |segs| && segs[j].maxSeq >= segs[0].maxSeq ==> k !in segs[j].table
  }

  /** No segment holds a newer version of the key than the `i`-th does. */
  ghost predicate HoldsNewest(segs: seq<Seg>, i: nat, k: Key)
    requires i < |segs|
  {
    forall v :: InSome(Tables(segs), k, v) ==> exists w :: Has(segs[i].table, k, w) && v.sequence <= w.sequence
  }

  /**
   * The segments may be merged with a crash at any record boundary, as far as the keys outside
   * `masked` go: the merged segment inherits the maximum that the front one declares, so reopening
   * may sort any old segment that declares as much in front of it; each key's oldest such holder
   * has to hold its newest version.
   */
  ghost predicate MergeSafe(segs: seq<Seg>, masked: set<Key>)
  {
    forall i: nat, k :: k !in masked && OldestHolder(segs, i, k) ==> HoldsNewest(segs, i, k)
  }

  /** The crash leaves the records of a compaction half written: some of them, not all. */
  predicate TearsMerge(s: State, cut: nat)
  {
    s.job.Compacting? && s.job.stage == Registered && |s.disk.manifest| - |s.segments| - 1 < cut < |s.disk.manifest|
  }

  /** The log's last frame is the last sequence handed out: no append was refused behind it. */
  predicate Aligned(s: State)
  {
    s.disk.wal == [] || s.nextSequence == LastSequence(s.disk.wal) + 1
  }

  /**
   * The conditions under which the store keeps its promises: one operation an append; no append
   * while the log stands behind a refused one; and no crash that tears the records of a
   * compaction whose segments may not be merged so.
   */
  ghost predicate Allowed(s: State, e: Event)
  {
    match e
    case Write(ops) => |ops| == 1 && Aligned(s)
    case Crash(cut) => TearsMerge(s, cut) ==> MergeSafe(s.segments, {})
    case _ => true
  }
}
