/** Paths of the machine: the effects of one store operation, in order, and where they lead. */
module Jobs {
  import opened Encoding
  import opened Options
  import opened Versions
  import opened Layers
  import opened Compaction
  import opened Machine
  import opened Safety
  import opened Recovery
  import opened Runs

  /** The events `es` lead from `s` to `s'`. */
  ghost predicate Path(s: State, es: seq<Event>, s': State)
    decreases |es|
  {
    if es == [] then s == s' else exists m :: Step(s, es[0], m) && Path(m, es[1..], s')
  }

  lemma Here(s: State)
    ensures Path(s, [], s)
  {
  }

  lemma Onward(s: State, e: Event, m: State, es: seq<Event>, s': State)
    requires Step(s, e, m) && Path(m, es, s')
    ensures Path(s, [e] + es, s')
  {
    assert ([e] + es)[1..] == es;
  }

  lemma Five(s0: State, e1: Event, s1: State, e2: Event, s2: State, e3: Event, s3: State, e4: Event, s4: State,
             e5: Event, s5: State)
    requires Step(s0, e1, s1) && Step(s1, e2, s2) && Step(s2, e3, s3) && Step(s3, e4, s4) && Step(s4, e5, s5)
    ensures Path(s0, [e1, e2, e3, e4, e5], s5)
  {
    hide Step;
    hide Path;
    Here(s5);
    Onward(s4, e5, s5, [], s5);
    Onward(s3, e4, s4, [e5] + [], s5);
    Onward(s2, e3, s3, [e4] + ([e5] + []), s5);
    Onward(s1, e2, s2, [e3] + ([e4] + ([e5] + [])), s5);
    Onward(s0, e1, s1, [e2] + ([e3] + ([e4] + ([e5] + []))), s5);
    assert [e1] + ([e2] + ([e3] + ([e4] + ([e5] + [])))) == [e1, e2, e3, e4, e5];
  }

  /** Events that are allowed wherever they happen. */
  predicate Unconditional(e: Event)
  {
    !e.Write? && !e.Crash?
  }

  /** An operation of the store whose first event is allowed extends a run; its reads and its history are
      then what the theorems about runs say. */
  lemma {:induction false} PathExtends(r: Run, es: seq<Event>, s': State) returns (r': Run)
    requires ValidRun(r) && Path(r.states[|r.events|], es, s')
    requires es != [] ==> Allowed(r.states[|r.events|], es[0])
    requires forall i :: 0 < i < |es| ==> Unconditional(es[i])
    ensures ValidRun(r') && r'.states[|r'.events|] == s'
    ensures r'.events == r.events + es && r.states <= r'.states
    decreases |es|
  {
    hide Step;
    if es == [] {
      r' := r;
    } else {
      var m :| Step(r.states[|r.events|], es[0], m) && Path(m, es[1..], s');
      var one := Run(r.states + [m], r.events + [es[0]]);
      OneMoreStep(r, es[0], m);
      assert es[1..] != [] ==> Unconditional(es[1..][0]);
      r' := PathExtends(one, es[1..], s');
      assert r.events + [es[0]] + es[1..] == r.events + es;
    }
  }

  lemma OneMoreStep(r: Run, e: Event, s: State)
    requires ValidRun(r) && Step(r.states[|r.events|], e, s) && Allowed(r.states[|r.events|], e)
    ensures ValidRun(Run(r.states + [s], r.events + [e]))
  {
    hide Step;
    hide Allowed;
  }

  /** The first step of a path. */
  lemma First(s: State, es: seq<Event>, s': State) returns (m: State)
    requires es != [] && Path(s, es, s')
    ensures Step(s, es[0], m) && Path(m, es[1..], s')
  {
    hide Step;
    m :| Step(s, es[0], m) && Path(m, es[1..], s');
  }

  /** The states that a path of five events passes through. */
  lemma FiveSteps(s: State, es: seq<Event>, s': State) returns (s1: State, s2: State, s3: State, s4: State)
    requires |es| == 5 && Path(s, es, s')
    ensures Step(s, es[0], s1) && Step(s1, es[1], s2) && Step(s2, es[2], s3) && Step(s3, es[3], s4) && Step(s4, es[4], s')
  {
    hide Step;
    hide Path;
    s1 := First(s, es, s');
    s2 := First(s1, es[1..], s');
    s3 := First(s2, es[1..][1..], s');
    s4 := First(s3, es[1..][1..][1..], s');
    var s5 := First(s4, es[1..][1..][1..][1..], s');
    PathEnds(s5, es[1..][1..][1..][1..][1..], s');
  }

  lemma PathEnds(s: State, es: seq<Event>, s': State)
    requires es == [] && Path(s, es, s')
    ensures s == s'
  {
  }

  // -------------------------------------------------------------------------
  // Flush and checkpoint
  // -------------------------------------------------------------------------

  function MoveEvents(n: nat, checkpoint: bool): seq<Event>
  {
    [Take(n, checkpoint), WriteSegments, Register, SyncManifest, Publish]
  }

  /** Where moving the `n` oldest frozen tables into the segments `segs` ends. */
  function MoveEnd(s: State, n: nat, checkpoint: bool, segs: seq<Seg>): State
    requires n <= |s.frozen|
  {
    var m := s.disk.manifest + MoveRecords(Moving(s.frozen[..n], segs, checkpoint, Written));
    s.(disk := s.disk.(manifest := m, synced := |m|, files := s.disk.files + FilesOf(segs)),
       frozen := s.frozen[n..], nextSegId := s.nextSegId + |segs|, segments := Stack(segs, s.segments),
       job := if checkpoint then Truncating(Boundary(segs)) else Idle)
  }

  lemma MovePath(s: State, n: nat, checkpoint: bool, segs: seq<Seg>)
    requires s.job == Idle && 0 < n <= |s.frozen| && (if checkpoint then n == |s.frozen| else n == 1)
    requires SegmentsFor(s.frozen[..n], s.nextSegId, segs)
    ensures Path(s, MoveEvents(n, checkpoint), MoveEnd(s, n, checkpoint, segs))
  {
    hide SegmentsFor;
    hide FilesOf;
    hide Stack;
    hide Boundary;
    var tables := s.frozen[..n];
    var s1 := s.(frozen := s.frozen[n..], job := Moving(tables, [], checkpoint, Taken));
    var s2 := s1.(disk := s1.disk.(files := s1.disk.files + FilesOf(segs)), nextSegId := s1.nextSegId + |segs|,
                  job := Moving(tables, segs, checkpoint, Written));
    var s3 := s2.(disk := s2.disk.(manifest := s2.disk.manifest + MoveRecords(s2.job)),
                  job := Moving(tables, segs, checkpoint, Registered));
    var s4 := s3.(disk := s3.disk.(synced := |s3.disk.manifest|));
    var s5 := MoveEnd(s, n, checkpoint, segs);
    hide Path;
    Five(s, Take(n, checkpoint), s1, WriteSegments, s2, Register, s3, SyncManifest, s4, Publish, s5);
  }

  /** The states between the five effects of a move. */
  lemma MoveSteps(s: State, n: nat, checkpoint: bool, s': State) returns (s1: State, s2: State, s3: State, s4: State)
    requires Path(s, MoveEvents(n, checkpoint), s')
    ensures TakeStep(s, n, checkpoint, s1) && WriteSegmentsStep(s1, s2) && RegisterStep(s2, s3) && SyncStep(s3, s4)
    ensures PublishStep(s4, s')
  {
    hide Path;
    hide TakeStep;
    hide WriteSegmentsStep;
    hide RegisterStep;
    hide SyncStep;
    hide PublishStep;
    s1, s2, s3, s4 := FiveSteps(s, MoveEvents(n, checkpoint), s');
  }

  /** They leave no choice but that of the files' contents. */
  lemma MoveEnds(s: State, n: nat, checkpoint: bool, s1: State, s2: State, s3: State, s4: State, s': State)
    returns (segs: seq<Seg>)
    requires n <= |s.frozen|
    requires TakeStep(s, n, checkpoint, s1) && WriteSegmentsStep(s1, s2) && RegisterStep(s2, s3) && SyncStep(s3, s4)
    requires PublishStep(s4, s')
    ensures SegmentsFor(s.frozen[..n], s.nextSegId, segs) && s' == MoveEnd(s, n, checkpoint, segs)
  {
    hide SegmentsFor;
    hide FilesOf;
    hide Stack;
    hide Boundary;
    segs := s2.job.segs;
  }

  lemma {:induction false} PathThen(s: State, es: seq<Event>, m: State, fs: seq<Event>, s': State)
    requires Path(s, es, m) && Path(m, fs, s')
    ensures Path(s, es + fs, s')
    decreases |es|
  {
    hide Step;
    if es == [] {
      assert es + fs == fs;
    } else {
      var x :| Step(s, es[0], x) && Path(x, es[1..], m);
      PathThen(x, es[1..], m, fs, s');
      assert (es + fs)[1..] == es[1..] + fs;
    }
  }

  function CheckpointEvents(n: nat): seq<Event>
  {
    [Freeze] + MoveEvents(n, true) + [Truncate]
  }

  /** Where a checkpoint ends, the active table frozen with the others. */
  function CheckpointEnd(s: State, segs: seq<Seg>): State
  {
    var frozen := s.(active := map[], frozen := s.frozen + [s.active]);
    var moved := MoveEnd(frozen, |frozen.frozen|, true, segs);
    moved.(disk := moved.disk.(wal := KeepAbove(s.disk.wal, Boundary(segs))), job := Idle)
  }

  lemma CheckpointPath(s: State, segs: seq<Seg>)
    requires s.job == Idle && SegmentsFor(s.frozen + [s.active], s.nextSegId, segs)
    ensures Path(s, CheckpointEvents(|s.frozen| + 1), CheckpointEnd(s, segs))
  {
    hide Path;
    hide Boundary;
    hide FilesOf;
    hide Stack;
    hide KeepAbove;
    hide SegmentsFor;
    var f := s.(active := map[], frozen := s.frozen + [s.active]);
    var n := |f.frozen|;
    var moved, end := MoveEnd(f, n, true, segs), CheckpointEnd(s, segs);
    assert f.frozen[..n] == f.frozen;
    MovePath(f, n, true, segs);
    assert FreezeStep(s, f) && TruncateStep(moved, end);
    Onward(s, Freeze, f, MoveEvents(n, true), moved);
    Here(end);
    Onward(moved, Truncate, end, [], end);
    PathThen(s, [Freeze] + MoveEvents(n, true), moved, [Truncate] + [], end);
    assert [Truncate] + [] == [Truncate];
  }

  lemma CheckpointSteps(s: State, n: nat, s': State) returns (f: State, m: State)
    requires Path(s, CheckpointEvents(n), s')
    ensures FreezeStep(s, f) && Path(f, MoveEvents(n, true), m) && TruncateStep(m, s')
  {
    hide FreezeStep;
    hide TruncateStep;
    hide Path;
    var es := CheckpointEvents(n);
    f := First(s, es, s');
    assert es[1..] == MoveEvents(n, true) + [Truncate];
    m := SplitPath(f, MoveEvents(n, true), [Truncate], s');
    var e := First(m, [Truncate], s');
    PathEnds(e, [Truncate][1..], s');
  }

  lemma {:induction false} SplitPath(s: State, es: seq<Event>, fs: seq<Event>, s': State) returns (m: State)
    requires Path(s, es + fs, s')
    ensures Path(s, es, m) && Path(m, fs, s')
    decreases |es|
  {
    hide Step;
    if es == [] {
      assert es + fs == fs;
      m := s;
    } else {
      var x := First(s, es + fs, s');
      assert (es + fs)[1..] == es[1..] + fs;
      m := SplitPath(x, es[1..], fs, s');
    }
  }

  // -------------------------------------------------------------------------
  // Compaction
  // -------------------------------------------------------------------------

  function CompactEvents(keep: nat): seq<Event>
  {
    [Merge(keep), RegisterMerged, SyncManifest, PublishMerged, DeleteFiles]
  }

  function MergedSeg(s: State, keep: nat): Seg
    requires s.segments != []
  {
    Seg(s.nextSegId, Merged(Tables(s.segments), keep), s.segments[0].maxSeq)
  }

  function CompactEnd(s: State, keep: nat): State
    requires s.segments != []
  {
    var merged := MergedSeg(s, keep);
    var m := s.disk.manifest + MergeRecords(merged, s.segments);
    s.(disk := s.disk.(manifest := m, synced := |m|, files := s.disk.files[merged.id := merged] - Ids(s.segments)),
       nextSegId := s.nextSegId + 1, segments := [merged])
  }

  lemma CompactSteps(s: State, keep: nat, s1: State, s2: State, s3: State, s4: State, s5: State)
    requires MergeStep(s, keep, s1) && RegisterMergedStep(s1, s2) && SyncStep(s2, s3) && PublishMergedStep(s3, s4)
    requires DeleteStep(s4, s5)
    ensures Step(s, Merge(keep), s1) && Step(s1, RegisterMerged, s2) && Step(s2, SyncManifest, s3)
    ensures Step(s3, PublishMerged, s4) && Step(s4, DeleteFiles, s5)
  {
    hide MergeStep;
    hide RegisterMergedStep;
    hide SyncStep;
    hide PublishMergedStep;
    hide DeleteStep;
  }

  lemma CompactionSteps(s: State, keep: nat, s': State) returns (s1: State, s2: State, s3: State, s4: State)
    requires Path(s, CompactEvents(keep), s')
    ensures MergeStep(s, keep, s1) && RegisterMergedStep(s1, s2) && SyncStep(s2, s3) && PublishMergedStep(s3, s4)
    ensures DeleteStep(s4, s')
  {
    hide Path;
    hide MergeStep;
    hide RegisterMergedStep;
    hide SyncStep;
    hide PublishMergedStep;
    hide DeleteStep;
    s1, s2, s3, s4 := FiveSteps(s, CompactEvents(keep), s');
  }

  lemma CompactEnds(s: State, keep: nat, s1: State, s2: State, s3: State, s4: State, s': State)
    requires MergeStep(s, keep, s1) && RegisterMergedStep(s1, s2) && SyncStep(s2, s3) && PublishMergedStep(s3, s4)
    requires DeleteStep(s4, s')
    ensures s.segments != [] && s' == CompactEnd(s, keep)
  {
    hide Merged;
    hide Ids;
    hide Tables;
    hide MergeRecords;
  }

  lemma CompactPath(s: State, keep: nat)
    requires s.job == Idle && |s.segments| >= 2
    ensures Path(s, CompactEvents(keep), CompactEnd(s, keep))
  {
    hide Merged;
    hide Ids;
    hide Tables;
    hide MergeRecords;
    hide Path;
    var merged := MergedSeg(s, keep);
    var s1 := s.(disk := s.disk.(files := s.disk.files[merged.id := merged]), nextSegId := s.nextSegId + 1,
                 job := Compacting(merged, Written));
    var s2 := s1.(disk := s1.disk.(manifest := s1.disk.manifest + MergeRecords(merged, s1.segments)),
                  job := Compacting(merged, Registered));
    var s3 := s2.(disk := s2.disk.(synced := |s2.disk.manifest|));
    var s4 := s3.(segments := [merged], job := Deleting(Ids(s3.segments)));
    var s5 := CompactEnd(s, keep);
    CompactSteps(s, keep, s1, s2, s3, s4, s5);
    hide Step;
    hide CompactEnd;
    hide MergedSeg;
    Five(s, Merge(keep), s1, RegisterMerged, s2, SyncManifest, s3, PublishMerged, s4, DeleteFiles, s5);
  }
}
