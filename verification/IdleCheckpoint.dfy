/**
 * A checkpoint freezes even an empty active table, so it may publish an empty segment in
 * front of the others, which declares the maximum 0. Compaction takes over the maximum that
 * the front segment declares.
 */
module IdleCheckpoint {
  import opened Encoding
  import opened Options
  import opened Versions
  import opened Layers
  import opened Compaction
  import opened Machine
  import opened Safety
  import opened Recovery
  import opened Runs
  import opened Headed
  import opened Limits

  /**
   * Exactly when the merged segment declares its true maximum: when the front segment is not
   * empty, or none of the segments holds anything.
   */
  lemma MergedTruthfulIff(s: State, keep: nat, h: History, floor: nat, g: Cover)
    requires Inv(s, h, floor, g) && HeadedSegs(s.segments) && s.segments != []
    ensures Truthful(Seg(s.nextSegId, Merged(Tables(s.segments), keep), s.segments[0].maxSeq)) <==>
              s.segments[0].table != map[] || forall i :: 0 <= i < |s.segments| ==> s.segments[i].table == map[]
  {
    SegmentFacts(s, h, floor, g);
    CoveredPart(s.segments, h, floor, g.covered, s.nextSequence);
    hide *;
    MergedTruthfulOver(s.segments, keep, s.nextSegId, h[..g.covered], floor);
  }

  lemma CoveredPart(segs: seq<Seg>, h: History, floor: nat, covered: nat, next: nat)
    requires SegmentsOK(segs, h, floor, covered) && HistoryOK(h, next)
    ensures covered <= |h| && LayersOK(Tables(segs), h[..covered], floor)
    ensures forall i :: 0 <= i < |h[..covered]| ==> h[..covered][i].sequence >= 1
  {
    hide LayersOK;
    hide Increasing;
  }

  lemma MergedTruthfulOver(segs: seq<Seg>, keep: nat, id: nat, h: History, floor: nat)
    requires LayersOK(Tables(segs), h, floor) && HeadedSegs(segs) && segs != []
    requires forall i :: 0 <= i < |h| ==> h[i].sequence >= 1
    ensures Truthful(Seg(id, Merged(Tables(segs), keep), segs[0].maxSeq)) <==>
              segs[0].table != map[] || forall i :: 0 <= i < |segs| ==> segs[i].table == map[]
  {
    hide LayersOK;
    hide Merged;
    hide HeadedSegs;
    var last := LastSequence(h);
    MergedOK(Tables(segs), h, floor, if last > floor then last else floor, keep);
    if segs[0].table != map[] {
      FrontIsLast(segs, h, floor);
    } else {
      EmptyFrontDeclaresNothing(segs);
      EmptyIffNothingCovered(segs, h, floor);
    }
  }

  lemma EmptyIffNothingCovered(segs: seq<Seg>, h: History, floor: nat)
    requires LayersOK(Tables(segs), h, floor)
    ensures (forall i :: 0 <= i < |segs| ==> segs[i].table == map[]) <==> h == []
  {
    var ts := Tables(segs);
    if h == [] {
      forall i | 0 <= i < |segs|
        ensures segs[i].table == map[]
      {
        EmptyOverNothing(ts[i], floor);
      }
    } else {
      var o := h[|h| - 1];
      var s := if o.sequence > floor then o.sequence else floor;
      LatestIsNewest(h, o.key, s, o);
      assert InSome(ts, o.key, Latest(h, o.key, s).value);
      var m :| 0 <= m < |ts| && Has(ts[m], o.key, Latest(h, o.key, s).value);
      assert segs[m].table != map[];
    }
  }

  lemma EmptyOverNothing(t: Table, floor: nat)
    requires LayerOK(t, [], floor)
    ensures t == map[]
  {
    assert forall k :: k in t ==> Has(t, k, t[k][0]);
  }

  // -------------------------------------------------------------------------
  // The run that goes wrong
  // -------------------------------------------------------------------------

  function One(k: Key, n: nat, v: Bytes): Table
  {
    map[k := [VersionedEntry(n, Value(v))]]
  }

  function Written3(k: Key, v: Bytes, w: Bytes): seq<Seg>
  {
    [Seg(1, One(k, 1, v), 1), Seg(2, One(k, 2, w), 2), Seg(3, map[], 0)]
  }

  function Records4(): Manifest
  {
    [AddSegment(1, 1), AddSegment(2, 2), AddSegment(3, 0), SetWalCheckpoint(2)]
  }

  /** Two versions of a key in a segment each, with an empty segment in front. */
  function Quiet(k: Key, v: Bytes, w: Bytes): State
  {
    var segs := Written3(k, v, w);
    State(Disk([], Records4(), 4, FilesOf(segs)), 3, map[], [], [segs[2], segs[1], segs[0]], 4, Idle)
  }

  function Loaded(k: Key, v: Bytes, w: Bytes): State
  {
    State(Disk([Op(1, k, Value(v)), Op(2, k, Value(w))], [], 0, map[]), 3, map[], [One(k, 1, v), One(k, 2, w), map[]], [], 1, Idle)
  }

  function Mover(k: Key, v: Bytes, w: Bytes, stage: Stage): Job
  {
    Moving([One(k, 1, v), One(k, 2, w), map[]], if stage == Taken then [] else Written3(k, v, w), true, stage)
  }

  function Moved(k: Key, v: Bytes, w: Bytes, stage: Stage, synced: nat): State
  {
    State(Disk(Loaded(k, v, w).disk.wal, if stage == Registered then Records4() else [], synced,
               if stage == Taken then map[] else FilesOf(Written3(k, v, w))),
          3, map[], [], [], if stage == Taken then 1 else 4, Mover(k, v, w, stage))
  }

  lemma PushEmpty(k: Key, n: nat, v: Bytes)
    ensures Push(map[], k, VersionedEntry(n, Value(v))) == One(k, n, v)
  {
    var c: Chain := [VersionedEntry(n, Value(v))];
    assert c + [] == c;
  }

  lemma LoadSteps(k: Key, v: Bytes, w: Bytes) returns (s1: State, s2: State, s3: State, s4: State)
    ensures WriteStep(FreshState(), Put1(k, v), s1) && FreezeStep(s1, s2)
    ensures WriteStep(s2, Put1(k, w), s3) && FreezeStep(s3, s4) && FreezeStep(s4, Loaded(k, v, w))
    ensures Aligned(s2)
  {
    var s0 := FreshState();
    s1 := AfterWrite(s0, Put1(k, v));
    WriteOne(s0, k, v);
    PushEmpty(k, 1, v);
    assert s1.active == One(k, 1, v);
    s2 := s1.(active := map[], frozen := [One(k, 1, v)]);
    s3 := AfterWrite(s2, Put1(k, w));
    WriteOne(s2, k, w);
    PushEmpty(k, 2, w);
    assert s3.active == One(k, 2, w);
    s4 := s3.(active := map[], frozen := [One(k, 1, v), One(k, 2, w)]);
    assert s3.disk.wal == Loaded(k, v, w).disk.wal;
  }

  lemma OneIs(k: Key, n: nat, v: Bytes)
    ensures Strict(One(k, n, v)) && Hi(One(k, n, v)) == n == FrontMax(One(k, n, v))
    ensures Front(One(k, n, v), k) == Some(VersionedEntry(n, Value(v)))
  {
    var t := One(k, n, v);
    assert Has(t, k, VersionedEntry(n, Value(v)));
    MaxSequenceUnique(t, Hi(t), n);
    FrontMaxIsHi(t);
  }

  lemma EmptyIs()
    ensures FrontMax(map[]) == 0 && Strict(map[])
  {
    FrontMaxIsHi(map[]);
    EmptyTableOK([], 0);
  }

  lemma TakeAll(k: Key, v: Bytes, w: Bytes)
    ensures TakeStep(Loaded(k, v, w), 3, true, Moved(k, v, w, Taken, 0))
  {
    var l := Loaded(k, v, w);
    assert l.frozen[3..] == [] && l.frozen[..3] == l.frozen;
  }

  lemma ThreeSegments(k: Key, v: Bytes, w: Bytes)
    ensures SegmentsFor(Mover(k, v, w, Taken).tables, 1, Mover(k, v, w, Written).segs)
  {
    hide One;
    hide FrontMax;
    hide Hi;
    hide LayerOK;
    hide Strict;
    hide SegmentsFor;
    OneIs(k, 1, v);
    OneIs(k, 2, w);
    EmptyIs();
    SegmentsAre(Mover(k, v, w, Taken).tables, Mover(k, v, w, Written).segs);
  }

  lemma NoFiles(files: map<nat, Seg>)
    ensures map[] + files == files
  {
  }

  lemma WriteAll(k: Key, v: Bytes, w: Bytes)
    ensures WriteSegmentsStep(Moved(k, v, w, Taken, 0), Moved(k, v, w, Written, 0))
  {
    ThreeSegments(k, v, w);
    NoFiles(FilesOf(Written3(k, v, w)));
    hide SegmentsFor;
    hide FilesOf;
    hide One;
  }

  lemma SegmentsAre(tables: seq<Table>, segs: seq<Seg>)
    requires |tables| == |segs| && forall i :: 0 <= i < |segs| ==>
               segs[i].id == 1 + i && segs[i].table == tables[i] && segs[i].maxSeq == FrontMax(tables[i]) && Strict(tables[i])
    ensures SegmentsFor(tables, 1, segs)
  {
  }

  lemma WrittenBoundary(k: Key, v: Bytes, w: Bytes)
    ensures Boundary(Written3(k, v, w)) == 2
  {
    var segs := Written3(k, v, w);
    BoundaryOn(segs, 0);
    BoundaryOn(segs, 1);
    BoundaryOn(segs, 2);
    assert segs[..3] == segs;
    hide Boundary;
    hide One;
  }

  /** The boundary of one segment more. */
  lemma BoundaryOn(segs: seq<Seg>, n: nat)
    requires n < |segs|
    ensures Boundary(segs[..0]) == 0
    ensures Boundary(segs[..n + 1]) == if segs[n].maxSeq > Boundary(segs[..n]) then segs[n].maxSeq else Boundary(segs[..n])
  {
    assert segs[..n + 1][..n] == segs[..n];
  }

  lemma WrittenStack(k: Key, v: Bytes, w: Bytes)
    ensures Stack(Written3(k, v, w), []) == Quiet(k, v, w).segments
  {
    hide One;
    hide FilesOf;
    var segs := Written3(k, v, w);
    StackIndex(segs, [], 0);
    StackIndex(segs, [], 1);
    StackIndex(segs, [], 2);
    hide Stack;
    assert Stack(segs, []) == [segs[2], segs[1], segs[0]];
  }

  lemma WrittenRecords(k: Key, v: Bytes, w: Bytes)
    ensures MoveRecords(Mover(k, v, w, Written)) == Records4()
  {
    WrittenBoundary(k, v, w);
    hide Boundary;
    hide One;
    assert AddRecords(Written3(k, v, w)) == [AddSegment(1, 1), AddSegment(2, 2), AddSegment(3, 0)];
  }

  lemma CutAll(a: Op, b: Op)
    requires a.sequence <= 2 && b.sequence <= 2
    ensures KeepAbove([a, b], 2) == []
  {
    var wal := [a, b];
    assert wal[1..] == [b] && [b][1..] == [];
    assert KeepAbove([b], 2) == [];
  }

  lemma PublishSteps(k: Key, v: Bytes, w: Bytes) returns (s: State)
    ensures RegisterStep(Moved(k, v, w, Written, 0), Moved(k, v, w, Registered, 0))
    ensures SyncStep(Moved(k, v, w, Registered, 0), Moved(k, v, w, Registered, 4))
    ensures PublishStep(Moved(k, v, w, Registered, 4), s)
    ensures TruncateStep(s, Quiet(k, v, w))
  {
    WrittenBoundary(k, v, w);
    WrittenStack(k, v, w);
    WrittenRecords(k, v, w);
    CutAll(Op(1, k, Value(v)), Op(2, k, Value(w)));
    hide FilesOf;
    hide One;
    hide Boundary;
    hide Stack;
    hide MoveRecords;
    hide KeepAbove;
    assert [] + Records4() == Records4();
    s := Moved(k, v, w, Registered, 4).(segments := Quiet(k, v, w).segments, job := Truncating(2));
  }

  lemma Extend(r: Run, e: Event, s: State)
    requires ValidRun(r) && Step(r.states[|r.events|], e, s) && Allowed(r.states[|r.events|], e)
    ensures ValidRun(Run(r.states + [s], r.events + [e]))
  {
    hide Step;
    hide Allowed;
  }

  ghost predicate Reaches(r: Run, s: State)
  {
    ValidRun(r) && r.states[|r.events|] == s
  }

  lemma Then(r: Run, s: State, e: Event, t: State) returns (r': Run)
    requires Reaches(r, s) && Step(s, e, t) && Allowed(s, e)
    ensures Reaches(r', t)
  {
    Extend(r, e, t);
    r' := Run(r.states + [t], r.events + [e]);
  }

  /** Two puts, each frozen, and a checkpoint lead there. */
  lemma QuietIsReachable(k: Key, v: Bytes, w: Bytes) returns (r: Run)
    ensures Reaches(r, Quiet(k, v, w))
  {
    var s1, s2, s3, s4 := LoadSteps(k, v, w);
    TakeAll(k, v, w);
    WriteAll(k, v, w);
    var p := PublishSteps(k, v, w);
    r := Run([FreshState()], []);
    hide ValidRun;
    hide Reaches;
    hide WriteStep;
    hide FreezeStep;
    hide TakeStep;
    hide WriteSegmentsStep;
    hide RegisterStep;
    hide SyncStep;
    hide PublishStep;
    hide TruncateStep;
    hide Moved;
    hide Loaded;
    hide Quiet;
    Start(r);
    r := Then(r, FreshState(), Write(Put1(k, v)), s1);
    r := Then(r, s1, Freeze, s2);
    r := Then(r, s2, Write(Put1(k, w)), s3);
    r := Then(r, s3, Freeze, s4);
    r := Then(r, s4, Freeze, Loaded(k, v, w));
    r := Then(r, Loaded(k, v, w), Take(3, true), Moved(k, v, w, Taken, 0));
    r := Then(r, Moved(k, v, w, Taken, 0), WriteSegments, Moved(k, v, w, Written, 0));
    r := Then(r, Moved(k, v, w, Written, 0), Register, Moved(k, v, w, Registered, 0));
    r := Then(r, Moved(k, v, w, Registered, 0), SyncManifest, Moved(k, v, w, Registered, 4));
    r := Then(r, Moved(k, v, w, Registered, 4), Publish, p);
    r := Then(r, p, Truncate, Quiet(k, v, w));
  }

  lemma Start(r: Run)
    requires r == Run([FreshState()], [])
    ensures Reaches(r, FreshState())
  {
  }

  lemma QuietMerged(k: Key, v: Bytes, w: Bytes, keep: nat)
    ensures Merged(Tables(Quiet(k, v, w).segments), keep) == One(k, 2, w)
  {
    var ts: LayerList := [map[], One(k, 2, w), One(k, 1, v)];
    assert Tables(Quiet(k, v, w).segments) == ts;
    var a: Chain, b: Chain := [VersionedEntry(2, Value(w))], [VersionedEntry(1, Value(v))];
    assert ts[..1] == [map[]] && ts[..1][..0] == [];
    assert FullChain(ts[..1], k) == [];
    TwoVersions(ts, k, a[0], b[0]);
    RetainKeepsOne(a + b, keep);
    assert ts[1] in ts;
    assert Keys(ts) == {k};
  }

  function MergedQuiet(k: Key, v: Bytes, w: Bytes, registered: bool): State
  {
    var q, n := Quiet(k, v, w), Seg(4, One(k, 2, w), 0);
    var m := q.disk.manifest + if registered then MergeRecords(n, q.segments) else [];
    q.(disk := q.disk.(manifest := m, files := q.disk.files[4 := n]), nextSegId := 5,
       job := Compacting(n, if registered then Registered else Written))
  }

  lemma MergeQuiet(k: Key, v: Bytes, w: Bytes)
    ensures MergeStep(Quiet(k, v, w), 0, MergedQuiet(k, v, w, false))
    ensures RegisterMergedStep(MergedQuiet(k, v, w, false), MergedQuiet(k, v, w, true))
  {
    QuietMerged(k, v, w, 0);
    hide Merged;
    hide One;
    var q := Quiet(k, v, w);
    assert q.disk.manifest + [] == q.disk.manifest;
  }

  /** What is left when the crash keeps the ADD record and the first two REMOVE records. */
  function TornQuiet(k: Key, v: Bytes, w: Bytes): State
  {
    var s := MergedQuiet(k, v, w, true);
    var d := s.disk.(manifest := CutRecords(), synced := 7);
    State(d, RestoredSequence(d), map[], [], [Seg(1, One(k, 1, v), 1), Seg(4, One(k, 2, w), 0)], 5, Idle)
  }

  function CutRecords(): Manifest
  {
    [AddSegment(1, 1), AddSegment(2, 2), AddSegment(3, 0), SetWalCheckpoint(2),
     AddSegment(4, 0), RemoveSegment(3), RemoveSegment(2)]
  }

  lemma QuietFiles(k: Key, v: Bytes, w: Bytes)
    ensures var files := MergedQuiet(k, v, w, true).disk.files;
            1 in files && 4 in files && files[1] == Seg(1, One(k, 1, v), 1) && files[4] == Seg(4, One(k, 2, w), 0)
  {
    hide One;
    FilesOfHas(Written3(k, v, w));
    assert Written3(k, v, w)[0].id == 1;
    hide FilesOf;
  }

  lemma CrashQuiet(k: Key, v: Bytes, w: Bytes)
    ensures CrashStep(MergedQuiet(k, v, w, true), 7, TornQuiet(k, v, w))
  {
    LiveOfCut(CutRecords());
    QuietFiles(k, v, w);
    hide FilesOf;
    hide LiveIds;
    hide MaxFlushed;
    hide One;
    hide RestoredSequence;
    var s, t := MergedQuiet(k, v, w, true), TornQuiet(k, v, w);
    assert s.disk.manifest[..7] == CutRecords();
    assert CrashImage(s.disk, 7, t.disk);
    assert Ids(t.segments) == {1, 4};
    assert t.disk.wal == [] && Accepted(t.disk.wal) == [];
    assert Opened(t.disk, t);
  }

  /** The oldest segment that holds the key does not hold its newest version: the condition under which a
      compaction may be torn fails. */
  lemma QuietIsUnsafe(k: Key, v: Bytes, w: Bytes)
    ensures Aligned(Quiet(k, v, w)) && !MergeSafe(Quiet(k, v, w).segments, {})
  {
    var segs := Quiet(k, v, w).segments;
    assert k in segs[2].table && segs[2].maxSeq >= segs[0].maxSeq;
    assert OldestHolder(segs, 2, k);
    var x := VersionedEntry(2, Value(w));
    assert Has(Tables(segs)[1], k, x) && InSome(Tables(segs), k, x);
    assert !HoldsNewest(segs, 2, k);
  }

  /**
   * Compaction then declares 0 for the merged segment. If a crash keeps its ADD record and the
   * first two REMOVE records, reopening sorts the one old segment left ahead of the merged one,
   * and the acknowledged newer value is hidden by the older.
   */
  lemma TornCompactionReadsStale(k: Key, v: Bytes, w: Bytes)
    ensures MergeStep(Quiet(k, v, w), 0, MergedQuiet(k, v, w, false))
    ensures RegisterMergedStep(MergedQuiet(k, v, w, false), MergedQuiet(k, v, w, true))
    ensures CrashStep(MergedQuiet(k, v, w, true), 7, TornQuiet(k, v, w))
    ensures Get(Quiet(k, v, w), k) == Some(w) && Get(TornQuiet(k, v, w), k) == Some(v)
  {
    MergeQuiet(k, v, w);
    CrashQuiet(k, v, w);
    CurrentThree(TornQuiet(k, v, w), k);
    QuietReads(k, v, w);
    OneIs(k, 1, v);
  }

  lemma QuietReads(k: Key, v: Bytes, w: Bytes)
    ensures Get(Quiet(k, v, w), k) == Some(w)
  {
    var s := Quiet(k, v, w);
    var m, rd := s.frozen + [s.active], ReaderLayers(s);
    assert m == [map[]];
    StackIndex(m, Tables(s.segments), 0);
    StackIndex(m, Tables(s.segments), 1);
    StackIndex(m, Tables(s.segments), 2);
    assert rd[0] == map[] && rd[1] == map[] && rd[2] == One(k, 2, w);
    OneIs(k, 2, w);
    assert ReadCurrent(rd, k) == ReadCurrent(rd[1..], k);
    assert ReadCurrent(rd[1..], k) == ReadCurrent(rd[1..][1..], k);
    assert rd[1..][1..][0] == rd[2];
  }

  lemma CurrentThree(s: State, k: Key)
    requires s.frozen == [] && s.active == map[] && s.segments != []
    ensures Front(s.segments[0].table, k).Some? ==> ReadCurrent(ReaderLayers(s), k) == Front(s.segments[0].table, k)
  {
    assert s.frozen + [s.active] == [s.active];
    var rd := ReaderLayers(s);
    StackIndex([s.active], Tables(s.segments), 0);
    StackIndex([s.active], Tables(s.segments), 1);
    assert rd[0] == map[] && rd[1] == s.segments[0].table;
    assert ReadCurrent(rd, k) == ReadCurrent(rd[1..], k);
    assert rd[1..][0] == rd[1];
  }

  lemma LiveOfCut(m: Manifest)
    requires m == CutRecords()
    ensures LiveIds(m) == {1, 4}
  {
    assert m[..6][..5] == m[..5] && m[..5][..4] == m[..4] && m[..4][..3] == m[..3] && m[..3][..2] == m[..2];
    assert m[..2][..1] == m[..1] && m[..1][..0] == [];
    assert LiveIds(m[..1]) == {1};
    assert LiveIds(m[..2]) == {1, 2};
    assert LiveIds(m[..3]) == {1, 2, 3};
    assert LiveIds(m[..4]) == {1, 2, 3};
    assert LiveIds(m[..5]) == {1, 2, 3, 4};
    assert LiveIds(m[..6]) == {1, 2, 4};
  }

  /**
   * Without any crash, a snapshot taken after that compaction has the boundary 0 and reads
   * nothing, though a current read finds the value.
   */
  lemma SnapshotAfterIdleCompaction(k: Key, v: Bytes, w: Bytes) returns (s: State, t: State)
    ensures SyncStep(MergedQuiet(k, v, w, true), s) && PublishMergedStep(s, t)
    ensures Get(t, k) == Some(w)
    ensures SnapshotBoundary(t) == 0 && GetAt(t, SnapshotBoundary(t), k) == None
  {
    var m := MergedQuiet(k, v, w, true);
    s := m.(disk := m.disk.(synced := |m.disk.manifest|));
    t := s.(segments := [m.job.merged], job := Deleting(Ids(m.segments)));
    CurrentThree(t, k);
    OneIs(k, 2, w);
    BoundaryZero(t);
    TwoLayers(t, k);
    assert Visible(One(k, 2, w), k, 0).None?;
  }

  lemma TwoLayers(s: State, k: Key)
    requires s.frozen == [] && s.active == map[] && |s.segments| == 1
    ensures ReadAt(ReaderLayers(s), k, 0) == Visible(s.segments[0].table, k, 0)
  {
    var m := s.frozen + [s.active];
    assert m == [map[]];
    StackIndex(m, Tables(s.segments), 0);
    StackIndex(m, Tables(s.segments), 1);
    var rd: LayerList := [map[], s.segments[0].table];
    assert ReaderLayers(s) == rd;
    assert rd[1..] == [s.segments[0].table];
    SingleLayer(s.segments[0].table, k, 0);
  }

  lemma BoundaryZero(s: State)
    requires s.frozen == [] && s.active == map[] && |s.segments| == 1 && s.segments[0].maxSeq == 0
    ensures SnapshotBoundary(s) == 0
  {
    var m: seq<Table> := s.frozen + [s.active];
    assert m == [map[]] && m[..0] == [];
    FrontMaxIsHi(map[]);
    EmptyTableOK([], 0);
    assert MaxFront(m[..0]) == 0;
    assert s.segments[..0] == [];
    assert Boundary(s.segments[..0]) == 0;
  }
}
