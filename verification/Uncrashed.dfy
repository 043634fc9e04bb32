/**
 * Without a crash, reads rest on the tables alone: neither an append refused after its sequence
 * was taken, with writes behind it, nor a compaction over an empty front segment disturbs them.
 */
module Uncrashed {
  import opened Encoding
  import opened Options
  import opened Versions
  import opened Layers
  import opened Compaction
  import opened Machine
  import opened Safety
  import opened Runs
  import opened Jobs

  /** What the tables of a job under way hold. */
  ghost predicate JobHolds(j: Job, segments: seq<Seg>)
  {
    match j
    case Moving(tables, segs, _, stage) => tables != [] && (stage != Taken ==> Hold(segs, tables))
    case Compacting(merged, _) => exists keep :: merged.table == Merged(Tables(segments), keep)
    case _ => true
  }

  ghost predicate Faithful(s: State, h: History, floor: nat, g: Cover)
  {
    Readable(s, h, floor, g) && JobHolds(s.job, s.segments)
  }

  /** Every event but a crash and an append of more than one operation. */
  predicate Calm(e: Event)
  {
    !e.Crash? && (e.Write? ==> |e.ops| == 1)
  }

  /** Publishing a merged segment raises the watermark to the greatest sequence merged. */
  ghost function Raised(s: State, floor: nat, e: Event): nat
  {
    if e.PublishMerged? && s.job.Compacting? then Higher(floor, Hi(s.job.merged.table)) else floor
  }

  function Higher(a: nat, b: nat): nat
  {
    if a < b then b else a
  }

  // -------------------------------------------------------------------------
  // Every step
  // -------------------------------------------------------------------------

  lemma WriteFaithful(s: State, ops: seq<(Key, EntryValue)>, s': State, h: History, floor: nat, g: Cover)
    requires Faithful(s, h, floor, g) && WriteStep(s, ops, s') && |ops| == 1
    ensures Faithful(s', h + Numbered(ops, s.nextSequence), floor, WriteCover(h, g))
  {
    hide SegmentsOK;
    hide MemoryOK;
    hide HistoryOK;
    hide JobHolds;
    hide MemTables;
    hide PushAll;
    hide Numbered;
    var o := Op(s.nextSequence, ops[0].0, ops[0].1);
    OneNumbered(ops, s.nextSequence, s.active);
    WriteHistory(h, o, s.nextSequence);
    WriteMemory(s, s', h, o, g);
    CoveredBefore(s.segments, h, o, floor, g.covered);
  }

  lemma RejectFaithful(s: State, s': State, h: History, floor: nat, g: Cover)
    requires Faithful(s, h, floor, g) && RejectStep(s, s')
    ensures Faithful(s', h, floor, g)
  {
    hide SegmentsOK;
    hide MemoryOK;
    hide JobHolds;
  }

  lemma FreezeFaithful(s: State, s': State, h: History, floor: nat, g: Cover)
    requires Faithful(s, h, floor, g) && FreezeStep(s, s')
    ensures Faithful(s', h, floor, g.(cuts := g.cuts + [|h|]))
  {
    hide SegmentsOK;
    hide MemoryOK;
    hide HistoryOK;
    hide JobHolds;
    FreezeMemory(MemTables(s), h, g);
    assert MemTables(s') == MemTables(s) + [map[]];
  }

  lemma TakeFaithful(s: State, n: nat, checkpoint: bool, s': State, h: History, floor: nat, g: Cover)
    requires Faithful(s, h, floor, g) && TakeStep(s, n, checkpoint, s')
    ensures Faithful(s', h, floor, g)
  {
    hide SegmentsOK;
    hide MemoryOK;
    hide HistoryOK;
    assert s.frozen[..n] + s.frozen[n..] == s.frozen;
    assert MemTables(s') == MemTables(s);
  }

  lemma WriteSegmentsFaithful(s: State, s': State, h: History, floor: nat, g: Cover)
    requires Faithful(s, h, floor, g) && WriteSegmentsStep(s, s')
    ensures Faithful(s', h, floor, g)
  {
    hide SegmentsOK;
    hide MemoryOK;
    hide SegmentsFor;
    WrittenTables(s, h, g, s'.job.segs);
    WrittenLength(s, s'.job.segs);
    assert MemTables(s') == MemTables(s);
  }

  lemma PublishFaithful(s: State, s': State, h: History, floor: nat, g: Cover)
    requires Faithful(s, h, floor, g) && PublishStep(s, s')
    ensures Faithful(s', h, floor, PublishCover(g, |s.job.tables|))
  {
    hide SegmentsOK;
    hide MemoryOK;
    hide HistoryOK;
    hide Hold;
    var n := |s.job.tables|;
    assert |s.job.segs| == n by { HoldLength(s.job.segs, s.job.tables); }
    assert s.job.segs[..n] == s.job.segs;
    MovedLayers(s, h, floor, g, n);
    PublishMemory(s, s', h, g);
  }

  lemma HoldLength(segs: seq<Seg>, tables: seq<Table>)
    requires Hold(segs, tables)
    ensures |segs| == |tables|
  {
  }

  /** Whatever the front segment declares, the merged table covers what the old ones covered, and reaches up
      to the last of it. */
  lemma PublishMergedFaithful(s: State, s': State, h: History, floor: nat, g: Cover)
    requires Faithful(s, h, floor, g) && PublishMergedStep(s, s')
    ensures Faithful(s', h, Higher(floor, Hi(s.job.merged.table)), g)
    ensures g.covered <= |h| && Hi(s.job.merged.table) == LastSequence(h[..g.covered])
  {
    hide MemoryOK;
    hide LayersOK;
    hide Merged;
    var ts := Tables(s.segments);
    var keep :| s.job.merged.table == Merged(ts, keep);
    PartBelow(h, s.nextSequence, g.covered);
    hide HistoryOK;
    MergedOK(ts, h[..g.covered], floor, Higher(floor, LastSequence(h[..g.covered])), keep);
    assert Tables(s'.segments) == [Merged(ts, keep)];
    assert MemTables(s') == MemTables(s);
  }

  lemma PartBelow(h: History, next: nat, c: nat)
    requires HistoryOK(h, next) && c <= |h|
    ensures LastSequence(h[..c]) <= LastSequence(h)
  {
  }

  /** The steps that only touch the disk or remember a merged table. */
  lemma OtherFaithful(s: State, e: Event, s': State, h: History, floor: nat, g: Cover)
    requires Faithful(s, h, floor, g) && Step(s, e, s')
    requires e.Register? || e.SyncManifest? || e.Truncate? || e.Merge? || e.RegisterMerged? || e.DeleteFiles?
    ensures Faithful(s', h, floor, g)
  {
    hide SegmentsOK;
    hide MemoryOK;
    hide HistoryOK;
    hide Hold;
    hide Merged;
    assert MemTables(s') == MemTables(s);
  }

  /** Every step without a crash keeps reads faithful to the history. */
  lemma StepFaithful(s: State, e: Event, s': State, h: History, floor: nat, g: Cover) returns (g': Cover)
    requires Faithful(s, h, floor, g) && Step(s, e, s') && Calm(e)
    ensures Faithful(s', NextHistory(s, h, e), Raised(s, floor, e), g')
    ensures !e.Write? && !e.Reject? ==> s'.nextSequence == s.nextSequence
  {
    hide Faithful;
    g' := g;
    match e
    case Write(ops) =>
      WriteFaithful(s, ops, s', h, floor, g);
      g' := WriteCover(h, g);
    case Reject => RejectFaithful(s, s', h, floor, g);
    case Freeze =>
      FreezeFaithful(s, s', h, floor, g);
      g' := g.(cuts := g.cuts + [|h|]);
    case Take(n, checkpoint) => TakeFaithful(s, n, checkpoint, s', h, floor, g);
    case WriteSegments => WriteSegmentsFaithful(s, s', h, floor, g);
    case Publish =>
      PublishFaithful(s, s', h, floor, g);
      g' := PublishCover(g, |s.job.tables|);
    case PublishMerged => PublishMergedFaithful(s, s', h, floor, g);
    case _ => OtherFaithful(s, e, s', h, floor, g);
  }

  // -------------------------------------------------------------------------
  // Whole operations
  // -------------------------------------------------------------------------

  /** A flush or the middle of a checkpoint: the tables moved are covered by segments afterwards. */
  lemma MoveFaithful(s: State, n: nat, checkpoint: bool, s': State, h: History, floor: nat, g: Cover) returns (segs: seq<Seg>)
    requires Faithful(s, h, floor, g) && n <= |s.frozen| && Path(s, MoveEvents(n, checkpoint), s')
    ensures Faithful(s', h, floor, PublishCover(g, n))
    ensures SegmentsFor(s.frozen[..n], s.nextSegId, segs) && s' == MoveEnd(s, n, checkpoint, segs)
  {
    hide *;
    var s1, s2, s3, s4 := MoveSteps(s, n, checkpoint, s');
    segs := MoveEnds(s, n, checkpoint, s1, s2, s3, s4, s');
    TakeFaithful(s, n, checkpoint, s1, h, floor, g);
    WriteSegmentsFaithful(s1, s2, h, floor, g);
    RegisterFaithful(s2, s3, h, floor, g);
    SyncFaithful(s3, s4, h, floor, g);
    PublishFaithful(s4, s', h, floor, g);
    MovedCount(s, n, checkpoint, s1, s2, s3, s4);
  }

  lemma MovedCount(s: State, n: nat, checkpoint: bool, s1: State, s2: State, s3: State, s4: State)
    requires n <= |s.frozen|
    requires TakeStep(s, n, checkpoint, s1) && WriteSegmentsStep(s1, s2) && RegisterStep(s2, s3) && SyncStep(s3, s4)
    ensures s4.job.Moving? && |s4.job.tables| == n
  {
    hide SegmentsFor;
    hide FilesOf;
    hide MoveRecords;
  }

  lemma RegisterFaithful(s: State, s': State, h: History, floor: nat, g: Cover)
    requires Faithful(s, h, floor, g) && RegisterStep(s, s')
    ensures Faithful(s', h, floor, g)
  {
    hide Faithful;
    OtherFaithful(s, Register, s', h, floor, g);
  }

  lemma SyncFaithful(s: State, s': State, h: History, floor: nat, g: Cover)
    requires Faithful(s, h, floor, g) && SyncStep(s, s')
    ensures Faithful(s', h, floor, g)
  {
    hide Faithful;
    OtherFaithful(s, SyncManifest, s', h, floor, g);
  }

  /** A checkpoint: the segments cover everything. */
  lemma CheckpointFaithful(s: State, s': State, h: History, floor: nat, g: Cover) returns (segs: seq<Seg>)
    requires Faithful(s, h, floor, g) && Path(s, CheckpointEvents(|s.frozen| + 1), s')
    ensures Faithful(s', h, floor, PublishCover(g.(cuts := g.cuts + [|h|]), |s.frozen| + 1))
    ensures SegmentsFor(s.frozen + [s.active], s.nextSegId, segs) && s' == CheckpointEnd(s, segs)
  {
    hide *;
    var n := |s.frozen| + 1;
    var f, m := CheckpointSteps(s, n, s');
    FrozenAll(s, f);
    FreezeFaithful(s, f, h, floor, g);
    segs := MoveFaithful(f, n, true, m, h, floor, g.(cuts := g.cuts + [|h|]));
    TruncateFaithful(m, s', h, floor, PublishCover(g.(cuts := g.cuts + [|h|]), n));
    CheckpointEnds(s, f, m, s', segs);
  }

  lemma FrozenAll(s: State, f: State)
    requires FreezeStep(s, f)
    ensures |f.frozen| == |s.frozen| + 1 && f.frozen[..|s.frozen| + 1] == s.frozen + [s.active] && f.nextSegId == s.nextSegId
  {
  }

  lemma CheckpointEnds(s: State, f: State, m: State, s': State, segs: seq<Seg>)
    requires FreezeStep(s, f) && m == MoveEnd(f, |f.frozen|, true, segs) && TruncateStep(m, s')
    ensures s' == CheckpointEnd(s, segs)
  {
    hide FilesOf;
    hide Stack;
    hide Boundary;
    hide KeepAbove;
    hide AddRecords;
  }

  lemma TruncateFaithful(s: State, s': State, h: History, floor: nat, g: Cover)
    requires Faithful(s, h, floor, g) && TruncateStep(s, s')
    ensures Faithful(s', h, floor, g)
  {
    hide Faithful;
    OtherFaithful(s, Truncate, s', h, floor, g);
  }

  /** A compaction: the watermark rises to the last operation that the segments cover, and no further. */
  lemma CompactFaithful(s: State, keep: nat, s': State, h: History, floor: nat, g: Cover)
    requires Faithful(s, h, floor, g) && Path(s, CompactEvents(keep), s')
    ensures g.covered <= |h| && Faithful(s', h, Higher(floor, LastSequence(h[..g.covered])), g)
    ensures s.segments != [] && s' == CompactEnd(s, keep)
  {
    hide *;
    var s1, s2, s3, s4 := CompactionSteps(s, keep, s');
    CompactEnds(s, keep, s1, s2, s3, s4, s');
    MergeFaithful(s, keep, s1, h, floor, g);
    RegisterMergedFaithful(s1, s2, h, floor, g);
    SyncFaithful(s2, s3, h, floor, g);
    PublishMergedFaithful(s3, s4, h, floor, g);
    DeleteFaithful(s4, s', h, Higher(floor, LastSequence(h[..g.covered])), g);
  }

  lemma MergeFaithful(s: State, keep: nat, s': State, h: History, floor: nat, g: Cover)
    requires Faithful(s, h, floor, g) && MergeStep(s, keep, s')
    ensures Faithful(s', h, floor, g)
  {
    hide Faithful;
    OtherFaithful(s, Merge(keep), s', h, floor, g);
  }

  lemma RegisterMergedFaithful(s: State, s': State, h: History, floor: nat, g: Cover)
    requires Faithful(s, h, floor, g) && RegisterMergedStep(s, s')
    ensures Faithful(s', h, floor, g)
  {
    hide Faithful;
    OtherFaithful(s, RegisterMerged, s', h, floor, g);
  }

  lemma DeleteFaithful(s: State, s': State, h: History, floor: nat, g: Cover)
    requires Faithful(s, h, floor, g) && DeleteStep(s, s')
    ensures Faithful(s', h, floor, g)
  {
    hide Faithful;
    OtherFaithful(s, DeleteFiles, s', h, floor, g);
  }

  // -------------------------------------------------------------------------
  // Readers
  // -------------------------------------------------------------------------

  lemma FreshFaithful(s: State)
    requires Fresh(s)
    ensures Faithful(s, [], 0, Cover(0, [0, 0], 0))
  {
    FreshInv(s);
    InvReadable(s, [], 0, Cover(0, [0, 0], 0));
  }

  /** What readers are given unless a flush or checkpoint stands between popping and publishing. */
  lemma FaithfulReads(s: State, h: History, floor: nat, g: Cover, k: Key, snapshot: nat)
    requires Faithful(s, h, floor, g) && !s.job.Moving?
    ensures Get(s, k) == GetAt(s, LATEST, k) == Live(Latest(h, k, LATEST))
    ensures snapshot >= floor ==> GetAt(s, snapshot, k) == Live(Latest(h, k, snapshot))
  {
    hide Readable;
    GetIsGetAt(s, h, floor, g, k);
    ReadIff(s, h, floor, g, k, LATEST);
    if snapshot >= floor {
      ReadIff(s, h, floor, g, k, snapshot);
    }
  }

  /** States reached from an empty store by any steps in any order, none of them a crash. */
  ghost predicate CalmRun(r: Run)
  {
    && |r.states| == |r.events| + 1
    && Fresh(r.states[0])
    && forall i :: 0 <= i < |r.events| ==> Step(r.states[i], r.events[i], r.states[i + 1]) && Calm(r.events[i])
  }

  lemma {:induction false} CalmInvariant(r: Run, n: nat) returns (floor: nat, g: Cover)
    requires CalmRun(r) && n <= |r.events|
    ensures Faithful(r.states[n], HistoryAt(r, n), floor, g)
  {
    hide Faithful;
    if n == 0 {
      FreshFaithful(r.states[0]);
      floor, g := 0, Cover(0, [0, 0], 0);
    } else {
      var f, c := CalmInvariant(r, n - 1);
      g := StepFaithful(r.states[n - 1], r.events[n - 1], r.states[n], HistoryAt(r, n - 1), f, c);
      floor := Raised(r.states[n - 1], f, r.events[n - 1]);
    }
  }

  /**
   * Until a crash, refused appends and compactions over empty segments are harmless: in every
   * state of every such run a current read returns the last acknowledged operation on the key.
   */
  lemma CalmRunReads(r: Run, n: nat, k: Key)
    requires CalmRun(r) && n <= |r.events| && !r.states[n].job.Moving?
    ensures Get(r.states[n], k) == Live(Latest(HistoryAt(r, n), k, LATEST))
  {
    hide Faithful;
    var floor, g := CalmInvariant(r, n);
    FaithfulReads(r.states[n], HistoryAt(r, n), floor, g, k, LATEST);
  }
}
