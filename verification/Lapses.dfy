/** Runs, from the empty store, in which a promise lapses: one for each exact condition that can fail. */
module Lapses {
  import opened Encoding
  import opened Options
  import opened Versions
  import opened Layers
  import opened Machine
  import opened Safety
  import opened Recovery
  import opened Runs
  import opened Headed
  import opened Limits
  import opened IdleCheckpoint
  import opened Jobs
  import opened MemTables
  import opened Stores

  // -------------------------------------------------------------------------
  // A refused append
  // -------------------------------------------------------------------------

  /** The largest value that the table admits. With its key it never fits a log frame. */
  function Largest(): Bytes
  {
    seq(MAX_VALUE_SIZE, i => 0)
  }

  /**
   * A put, a put whose value the table admits but the log refuses, and an acknowledged put: after
   * a restart the last one is gone.
   */
  lemma RefusedLosesNextWrite(a: Key, b: Key, c: Key, v: Bytes) returns (s1: State, s2: State, s3: State, s4: State)
    requires c != a && |b| <= MAX_KEY_SIZE && FitsLog((a, Value(v))) && FitsLog((c, Value(v)))
    ensures ValidOp((b, Value(Largest()))) && !FitsLog((b, Value(Largest())))
    ensures WriteOutcome(FreshState(), Put1(a, v), ValidOp((a, Value(v))), true, s1)
    ensures WriteOutcome(s1, Put1(b, Largest()), ValidOp((b, Value(Largest()))), false, s2)
    ensures WriteOutcome(s2, Put1(c, v), ValidOp((c, Value(v))), true, s3)
    ensures CrashStep(s3, 0, s4)
    ensures Get(s3, c) == Some(v) && Get(s4, c) == None
  {
    hide Largest;
    hide AfterWrite;
    LargestIsRefused(b);
    s1 := AfterWrite(FreshState(), Put1(a, v));
    s2 := s1.(nextSequence := s1.nextSequence + 1);
    s3 := AfterWrite(s2, Put1(c, v));
    OutcomeIsWrite(FreshState(), a, v);
    AfterFirst(a, v);
    OutcomeIsReject(s1, b);
    OutcomeIsWrite(s2, c, v);
    s4 := LostAfterReject(a, c, v, s1, s2, s3);
  }

  lemma LargestIsRefused(b: Key)
    requires |b| <= MAX_KEY_SIZE
    ensures ValidOp((b, Value(Largest()))) && !FitsLog((b, Value(Largest())))
  {
    assert |Largest()| == MAX_VALUE_SIZE;
    hide Largest;
  }

  lemma OutcomeIsWrite(s: State, k: Key, v: Bytes)
    requires FitsLog((k, Value(v))) && s.nextSequence < U64_MAX
    ensures WriteOutcome(s, Put1(k, v), ValidOp((k, Value(v))), true, AfterWrite(s, Put1(k, v)))
    ensures WriteStep(s, Put1(k, v), AfterWrite(s, Put1(k, v)))
  {
    hide AfterWrite;
    assert ValidOp((k, Value(v)));
  }

  lemma OutcomeIsReject(s: State, b: Key)
    requires ValidOp((b, Value(Largest()))) && !FitsLog((b, Value(Largest()))) && s.nextSequence < U64_MAX
    ensures WriteOutcome(s, Put1(b, Largest()), ValidOp((b, Value(Largest()))), false, s.(nextSequence := s.nextSequence + 1))
  {
    hide Largest;
    hide FitsLog;
    hide ValidOp;
    assert Put1(b, Largest())[0] == (b, Value(Largest()));
  }

  lemma AfterFirst(a: Key, v: Bytes)
    ensures var s := AfterWrite(FreshState(), Put1(a, v));
            s.nextSequence == 2 && s.disk == Disk([Op(1, a, Value(v))], [], 0, map[]) && s.frozen == [] && s.segments == []
  {
    hide PushAll;
    WriteOne(FreshState(), a, v);
    assert [] + [Op(1, a, Value(v))] == [Op(1, a, Value(v))];
  }

  lemma LostAfterReject(a: Key, c: Key, v: Bytes, s1: State, s2: State, s3: State) returns (s4: State)
    requires c != a && s1.disk == Disk([Op(1, a, Value(v))], [], 0, map[]) && s1.nextSequence == 2
    requires s2 == s1.(nextSequence := 3) && s3 == AfterWrite(s2, Put1(c, v))
    ensures CrashStep(s3, 0, s4)
    ensures Get(s3, c) == Some(v) && Get(s4, c) == None
  {
    hide PushAll;
    hide Accepted;
    hide TableOf;
    hide ReadCurrent;
    hide ReaderLayers;
    hide CrashStep;
    var w: History := [Op(1, a, Value(v))];
    WriteAfterRejectSurvivesIff(s1, (c, Value(v)));
    WriteOne(s2, c, v);
    s4 := Reopened(s3.disk, w);
    ReopenedFresh(s3, w);
    NotThere(w, c);
    OnlyActive(s4);
    CurrentOne(s4.active, c);
  }

  // -------------------------------------------------------------------------
  // A torn truncation
  // -------------------------------------------------------------------------

  function FirstSegment(a: Key, v: Bytes): Seg
  {
    Seg(1, One(a, 1, v), 1)
  }

  /** A checkpoint of the first put has published its segment; a second put came in meanwhile. */
  function BeforeCut(a: Key, v: Bytes, c: Key, w: Bytes): State
  {
    State(Disk([Op(1, a, Value(v)), Op(2, c, Value(w))], [AddSegment(1, 1), SetWalCheckpoint(1)], 2, map[1 := FirstSegment(a, v)]),
          3, One(c, 2, w), [], [FirstSegment(a, v)], 2, Truncating(1))
  }

  /** The store reopened after a crash that found the log file emptied. */
  function AfterCut(a: Key, v: Bytes, c: Key, w: Bytes): State
  {
    var d := BeforeCut(a, v, c, w).disk.(wal := []);
    State(d, RestoredSequence(d), map[], [], [FirstSegment(a, v)], 2, Idle)
  }

  function FirstPut(a: Key, v: Bytes): State
  {
    State(Disk([Op(1, a, Value(v))], [], 0, map[]), 2, One(a, 1, v), [], [], 1, Idle)
  }

  /** The checkpoint after it took the table, and after it wrote the segment. */
  function FirstTaken(a: Key, v: Bytes, stage: Stage): State
  {
    State(Disk([Op(1, a, Value(v))], [], 0, if stage == Taken then map[] else map[1 := FirstSegment(a, v)]), 2, map[], [], [],
          if stage == Taken then 1 else 2,
          Moving([One(a, 1, v)], if stage == Taken then [] else [FirstSegment(a, v)], true, stage))
  }

  /** The second put, and the records that the checkpoint then appends and syncs. */
  function SecondPut(a: Key, v: Bytes, c: Key, w: Bytes, stage: Stage, synced: nat): State
  {
    var m := if stage == Registered then [AddSegment(1, 1), SetWalCheckpoint(1)] else [];
    State(Disk([Op(1, a, Value(v)), Op(2, c, Value(w))], m, synced, map[1 := FirstSegment(a, v)]), 3, One(c, 2, w), [], [], 2,
          Moving([One(a, 1, v)], [FirstSegment(a, v)], true, stage))
  }

  lemma PutFirst(a: Key, v: Bytes)
    ensures WriteStep(FreshState(), Put1(a, v), FirstPut(a, v))
  {
    hide PushAll;
    WriteOne(FreshState(), a, v);
    PushEmpty(a, 1, v);
    assert [] + [Op(1, a, Value(v))] == [Op(1, a, Value(v))];
  }

  lemma TakeFirst(a: Key, v: Bytes) returns (f: State)
    ensures FreezeStep(FirstPut(a, v), f) && TakeStep(f, 1, true, FirstTaken(a, v, Taken))
  {
    hide One;
    f := FirstPut(a, v).(active := map[], frozen := [One(a, 1, v)]);
    assert [] + [One(a, 1, v)] == [One(a, 1, v)];
    assert f.frozen[1..] == [] && f.frozen[..1] == f.frozen;
  }

  lemma OneFile(seg: Seg)
    ensures FilesOf([seg]) == map[seg.id := seg]
  {
    assert [seg][..0] == [];
    assert FilesOf([seg][..0]) == map[];
  }

  lemma WriteFirst(a: Key, v: Bytes)
    ensures WriteSegmentsStep(FirstTaken(a, v, Taken), FirstTaken(a, v, Written))
  {
    OneIs(a, 1, v);
    SegmentsAre([One(a, 1, v)], [FirstSegment(a, v)]);
    OneFile(FirstSegment(a, v));
    NoFiles(map[1 := FirstSegment(a, v)]);
    hide SegmentsFor;
    hide One;
    hide FilesOf;
  }

  lemma PutSecond(a: Key, v: Bytes, c: Key, w: Bytes)
    ensures WriteStep(FirstTaken(a, v, Written), Put1(c, w), SecondPut(a, v, c, w, Written, 0))
    ensures Aligned(FirstTaken(a, v, Written))
  {
    hide PushAll;
    WriteOne(FirstTaken(a, v, Written), c, w);
    PushEmpty(c, 2, w);
    assert [Op(1, a, Value(v))] + [Op(2, c, Value(w))] == [Op(1, a, Value(v)), Op(2, c, Value(w))];
  }

  lemma PublishFirst(a: Key, v: Bytes, c: Key, w: Bytes)
    ensures RegisterStep(SecondPut(a, v, c, w, Written, 0), SecondPut(a, v, c, w, Registered, 0))
    ensures SyncStep(SecondPut(a, v, c, w, Registered, 0), SecondPut(a, v, c, w, Registered, 2))
    ensures PublishStep(SecondPut(a, v, c, w, Registered, 2), BeforeCut(a, v, c, w))
  {
    hide One;
    var seg := FirstSegment(a, v);
    BoundaryOfOne(seg);
    StackIndex([seg], [], 0);
    assert Stack([seg], []) == [seg];
    assert AddRecords([seg]) == [AddSegment(1, 1)];
    hide Boundary;
    hide Stack;
    assert [] + MoveRecords(Moving([One(a, 1, v)], [seg], true, Written)) == [AddSegment(1, 1), SetWalCheckpoint(1)];
  }

  /** A put, and a checkpoint during which a second put is acknowledged, lead to the truncation. */
  lemma CutIsReachable(a: Key, v: Bytes, c: Key, w: Bytes) returns (r: Run)
    ensures Reaches(r, BeforeCut(a, v, c, w))
  {
    PutFirst(a, v);
    var f := TakeFirst(a, v);
    WriteFirst(a, v);
    PutSecond(a, v, c, w);
    PublishFirst(a, v, c, w);
    r := Run([FreshState()], []);
    hide ValidRun;
    hide Reaches;
    hide WriteStep;
    hide FreezeStep;
    hide TakeStep;
    hide WriteSegmentsStep;
    hide RegisterStep;
    hide SyncStep;
    hide PublishStep;
    hide FirstPut;
    hide FirstTaken;
    hide SecondPut;
    hide BeforeCut;
    Start(r);
    r := Then(r, FreshState(), Write(Put1(a, v)), FirstPut(a, v));
    r := Then(r, FirstPut(a, v), Freeze, f);
    r := Then(r, f, Take(1, true), FirstTaken(a, v, Taken));
    r := Then(r, FirstTaken(a, v, Taken), WriteSegments, FirstTaken(a, v, Written));
    r := Then(r, FirstTaken(a, v, Written), Write(Put1(c, w)), SecondPut(a, v, c, w, Written, 0));
    r := Then(r, SecondPut(a, v, c, w, Written, 0), Register, SecondPut(a, v, c, w, Registered, 0));
    r := Then(r, SecondPut(a, v, c, w, Registered, 0), SyncManifest, SecondPut(a, v, c, w, Registered, 2));
    r := Then(r, SecondPut(a, v, c, w, Registered, 2), Publish, BeforeCut(a, v, c, w));
  }

  /**
   * There the truncation has one frame to keep. A crash after it emptied the file and before it
   * rewrote that frame loses the second put.
   */
  lemma TornTruncationLosesWrite(a: Key, v: Bytes, c: Key, w: Bytes)
    requires c != a
    ensures var s, t := BeforeCut(a, v, c, w), AfterCut(a, v, c, w);
            && KeepAbove(s.disk.wal, s.job.boundary) == [Op(2, c, Value(w))]
            && Opened(s.disk.(wal := KeepAbove(s.disk.wal, s.job.boundary)[..0]), t)
            && Get(s, c) == Some(w) && Get(t, c) == None
  {
    KeptSecond(Op(1, a, Value(v)), Op(2, c, Value(w)));
    FirstLive();
    hide KeepAbove;
    hide LiveIds;
    hide MaxFlushed;
    hide RestoredSequence;
    var s, t := BeforeCut(a, v, c, w), AfterCut(a, v, c, w);
    assert [Op(2, c, Value(w))][..0] == [];
    assert Accepted([]) == [];
    assert Ids(t.segments) == {1};
    assert Opened(t.disk, t);
    CutReadsBefore(a, v, c, w);
    CutReadsAfter(a, v, c, w);
  }

  lemma KeptSecond(o: Op, p: Op)
    requires o.sequence <= 1 < p.sequence
    ensures KeepAbove([o, p], 1) == [p]
  {
    assert [o, p][1..] == [p] && [p][1..] == [];
    assert KeepAbove([p], 1) == [p];
  }

  lemma FirstLive()
    ensures LiveIds([AddSegment(1, 1), SetWalCheckpoint(1)]) == {1}
  {
    var m: Manifest := [AddSegment(1, 1), SetWalCheckpoint(1)];
    assert m[..1][..0] == [] && LiveIds(m[..1]) == {1};
  }

  lemma CutReadsBefore(a: Key, v: Bytes, c: Key, w: Bytes)
    ensures Get(BeforeCut(a, v, c, w), c) == Some(w)
  {
    var s := BeforeCut(a, v, c, w);
    assert s.frozen + [s.active] == [s.active];
    OneIs(c, 2, w);
    hide One;
    StackIndex([s.active], Tables(s.segments), 0);
  }

  lemma CutReadsAfter(a: Key, v: Bytes, c: Key, w: Bytes)
    requires c != a
    ensures Get(AfterCut(a, v, c, w), c) == None
  {
    var s := AfterCut(a, v, c, w);
    var ts: LayerList := [One(a, 1, v)];
    assert s.frozen + [s.active] == [map[]];
    assert Tables(s.segments) == ts;
    StackIsOne(map[], ts);
    assert [map[]] + ts == [map[], One(a, 1, v)];
    CurrentTwo(map[], One(a, 1, v), c);
  }

  // -------------------------------------------------------------------------
  // An overwritten value revived by a flush
  // -------------------------------------------------------------------------

  /** The segment that a flush writes of the table with the out-of-order chain. */
  function Sorted3(k: Key, x: Key, a: Bytes, b: Bytes, c: Bytes): Table
  {
    map[k := [VersionedEntry(3, Value(b)), VersionedEntry(2, Value(c)), VersionedEntry(1, Value(a))],
        x := [VersionedEntry(2, Value(a))]]
  }

  /** The table as the batch and the put left it. */
  function Inserted3(k: Key, x: Key, a: Bytes, b: Bytes, c: Bytes): Table
  {
    map[k := [VersionedEntry(2, Value(c)), VersionedEntry(3, Value(b)), VersionedEntry(1, Value(a))],
        x := [VersionedEntry(2, Value(a))]]
  }

  lemma BatchInserts(k: Key, x: Key, a: Bytes, b: Bytes, c: Bytes) returns (s1: State, s2: State)
    requires x != k
    ensures WriteStep(FreshState(), [(k, Value(a)), (x, Value(a)), (k, Value(b))], s1)
    ensures WriteStep(s1, Put1(k, c), s2) && Get(s2, k) == Some(c)
    ensures s2.active == Inserted3(k, x, a, b, c) && s2.frozen == [] && s2.segments == [] && s2.job == Idle && s2.nextSegId == 1
  {
    hide PushAll;
    hide ReaderLayers;
    hide ReadCurrent;
    hide Front;
    var ops := [(k, Value(a)), (x, Value(a)), (k, Value(b))];
    s1 := AfterWrite(FreshState(), ops);
    s2 := AfterWrite(s1, Put1(k, c));
    ThreeInserted(k, x, a, b, s1);
    WriteOne(s1, k, c);
    var first: Chain := [VersionedEntry(3, Value(b)), VersionedEntry(1, Value(a))];
    var all: Chain := [VersionedEntry(2, Value(c)), VersionedEntry(3, Value(b)), VersionedEntry(1, Value(a))];
    assert [VersionedEntry(2, Value(c))] + first == all;
  }

  lemma SortedByWriter(k: Key, x: Key, a: Bytes, b: Bytes, c: Bytes)
    requires x != k
    ensures SortedVersion(Sorted3(k, x, a, b, c), Inserted3(k, x, a, b, c))
  {
    var c3, d3 := Sorted3(k, x, a, b, c)[k], Inserted3(k, x, a, b, c)[k];
    assert multiset(c3) == multiset{VersionedEntry(3, Value(b)), VersionedEntry(2, Value(c)), VersionedEntry(1, Value(a))};
    assert multiset(d3) == multiset{VersionedEntry(3, Value(b)), VersionedEntry(2, Value(c)), VersionedEntry(1, Value(a))};
  }

  /**
   * A batch that writes a key twice with another key between, and an acknowledged put on the same
   * key: memory reads the put. After a freeze and a flush, without any crash, the store reads the
   * value that the put had overwritten, however the flush writes its segment.
   */
  lemma FlushRevives(k: Key, x: Key, a: Bytes, b: Bytes, c: Bytes) returns (s1: State, s2: State, s3: State, s4: State)
    requires x != k
    ensures WriteStep(FreshState(), [(k, Value(a)), (x, Value(a)), (k, Value(b))], s1)
    ensures WriteStep(s1, Put1(k, c), s2)
    ensures FreezeStep(s2, s3)
    ensures Path(s3, MoveEvents(1, false), s4)
    ensures Get(s2, k) == Get(s3, k) == Some(c)
    ensures forall t :: Path(s3, MoveEvents(1, false), t) ==> Get(t, k) == Some(b)
  {
    s1, s2 := BatchInserts(k, x, a, b, c);
    s3 := s2.(active := map[], frozen := s2.frozen + [s2.active]);
    assert s3.frozen == [s2.active];
    hide *;
    FrozenReads(s2, s3, k);
    SortedByWriter(k, x, a, b, c);
    s4 := FlushOne(s3, s2.active, Seg(1, Sorted3(k, x, a, b, c), FrontMax(s2.active)));
    forall t | Path(s3, MoveEvents(1, false), t)
      ensures Get(t, k) == Some(b)
    {
      FlushReads(s3, t, k, x, a, b, c);
    }
  }

  /** A flush of the only frozen table. */
  lemma FlushOne(s: State, t: Table, seg: Seg) returns (s': State)
    requires s.frozen == [t] && s.active == map[] && s.segments == [] && s.job == Idle
    requires seg.id == s.nextSegId && seg.maxSeq == FrontMax(t) && SortedVersion(seg.table, t)
    ensures Path(s, MoveEvents(1, false), s')
  {
    hide SortedVersion;
    hide FrontMax;
    hide Path;
    assert s.frozen[..1] == [t] && s.frozen[1..] == [];
    assert SegmentsFor(s.frozen[..1], s.nextSegId, [seg]);
    MovePath(s, 1, false, [seg]);
    s' := MoveEnd(s, 1, false, [seg]);
  }

  /** Whatever segment it writes. */
  lemma FlushReads(s: State, t: State, k: Key, x: Key, a: Bytes, b: Bytes, c: Bytes)
    requires x != k && s.frozen == [Inserted3(k, x, a, b, c)] && s.active == map[] && s.segments == []
    requires Path(s, MoveEvents(1, false), t)
    ensures Get(t, k) == Some(b)
  {
    hide Path;
    hide MoveEvents;
    var s1, s2, s3, s4 := MoveSteps(s, 1, false, t);
    var segs := MoveEnds(s, 1, false, s1, s2, s3, s4, t);
    assert s.frozen[..1] == s.frozen && s.frozen[1..] == [];
    var seg := OneWritten(s.frozen, s.nextSegId, segs);
    StackIndex(segs, [], 0);
    hide Stack;
    assert t.segments == [seg];
    InsertedLeads(seg.table, k, x, a, b, c);
    CurrentThree(t, k);
  }

  lemma OneWritten(tables: seq<Table>, first: nat, segs: seq<Seg>) returns (seg: Seg)
    requires |tables| == 1 && SegmentsFor(tables, first, segs)
    ensures segs == [seg] && SortedVersion(seg.table, tables[0])
  {
    hide SortedVersion;
    seg := segs[0];
  }

  lemma InsertedLeads(t: Table, k: Key, x: Key, a: Bytes, b: Bytes, c: Bytes)
    requires x != k && SortedVersion(t, Inserted3(k, x, a, b, c))
    ensures k in t && t[k] != [] && t[k][0] == VersionedEntry(3, Value(b))
  {
    hide SortedVersion;
    NewestLeads(Inserted3(k, x, a, b, c), t, k, VersionedEntry(2, Value(c)), VersionedEntry(3, Value(b)), VersionedEntry(1, Value(a)));
  }

  lemma FrozenReads(s: State, f: State, k: Key)
    requires FreezeStep(s, f) && s.frozen == [] && s.segments == []
    ensures Get(f, k) == Get(s, k)
  {
    var m: LayerList := [s.active, map[]];
    assert f.frozen + [f.active] == m;
    StackIndex(m, Tables(f.segments), 0);
    StackIndex(m, Tables(f.segments), 1);
    assert ReaderLayers(f) == [map[], s.active];
    CurrentTwo(map[], s.active, k);
    OnlyActive(s);
    CurrentOne(s.active, k);
  }
}
