/** Which segment files stand on the disk: those of the live segments, and those of the job under way. */
module LiveFiles {
  import opened Versions
  import opened Layers
  import opened Compaction
  import opened Machine
  import opened Safety
  import opened Runs
  import opened Jobs

  /** The files of the job under way that are not those of live segments: written and not yet published, or merged
      and not yet deleted. */
  function OfJob(j: Job): set<nat>
  {
    match j
    case Moving(_, segs, _, _) => Ids(segs)
    case Compacting(merged, _) => {merged.id}
    case Deleting(gone) => gone
    case _ => {}
  }

  /** The files are those of the live segments and of the job, numbered below the next number. */
  ghost predicate Tidy(s: State)
  {
    && s.disk.files.Keys == Ids(s.segments) + OfJob(s.job)
    && (forall id :: id in s.disk.files ==> id < s.nextSegId)
    && ((s.job.Compacting? || s.job.Deleting?) ==> OfJob(s.job) !! Ids(s.segments))
    && (s.job.Moving? && s.job.stage == Taken ==> s.job.segs == [])
  }

  lemma {:induction false} FilesOfIds(segs: seq<Seg>)
    ensures FilesOf(segs).Keys == Ids(segs)
  {
    if segs != [] {
      var n := |segs| - 1;
      FilesOfIds(segs[..n]);
      assert segs == segs[..n] + [segs[n]];
      assert Ids(segs) == Ids(segs[..n]) + {segs[n].id};
    }
  }

  lemma {:induction false} StackIds(segs: seq<Seg>, below: seq<Seg>)
    ensures Ids(Stack(segs, below)) == Ids(segs) + Ids(below)
    decreases |segs|
  {
    if segs == [] {
      assert Ids(segs) == {};
    } else {
      StackIds(segs[1..], [segs[0]] + below);
      assert Ids([segs[0]] + below) == {segs[0].id} + Ids(below);
      assert segs == [segs[0]] + segs[1..];
      assert Ids(segs) == {segs[0].id} + Ids(segs[1..]);
    }
  }

  lemma IdsOfFirst(tables: seq<Table>, first: nat, segs: seq<Seg>)
    requires SegmentsFor(tables, first, segs)
    ensures forall id :: id in Ids(segs) ==> first <= id < first + |segs|
  {
  }

  /** Every effect but a crash keeps the files those of the live segments and the job. */
  lemma StepKeepsTidy(s: State, e: Event, s': State)
    requires Tidy(s) && Step(s, e, s') && !e.Crash?
    ensures Tidy(s')
  {
    hide SegmentsFor;
    hide FilesOf;
    hide Stack;
    hide Ids;
    match e
    case WriteSegments =>
      var segs := s'.job.segs;
      FilesOfIds(segs);
      IdsOfFirst(s.job.tables, s.nextSegId, segs);
      NoIds();
    case Publish => StackIds(s.job.segs, s.segments);
    case PublishMerged => OneId(s.job.merged);
    case Take(n, checkpoint) => NoIds();
    case _ =>
  }

  lemma NoIds()
    ensures Ids([]) == {}
  {
  }

  lemma OneId(seg: Seg)
    ensures Ids([seg]) == {seg.id}
  {
  }

  /**
   * Through any part of a run without a crash that starts so, the files are those of the live
   * segments and the job; between jobs they are exactly those of the live segments.
   */
  lemma {:induction false} RunTidy(r: Run, m: nat, n: nat)
    requires ValidRun(r) && m <= n <= |r.events| && Tidy(r.states[m])
    requires forall i :: m <= i < n ==> !r.events[i].Crash?
    ensures Tidy(r.states[n])
    ensures r.states[n].job == Idle ==> r.states[n].disk.files.Keys == Ids(r.states[n].segments)
    decreases n
  {
    hide Step;
    hide Allowed;
    if n > m {
      RunTidy(r, m, n - 1);
      StepKeepsTidy(r.states[n - 1], r.events[n - 1], r.states[n]);
    }
  }

  /** A store opened on an empty directory starts so. */
  lemma FreshTidy(s: State)
    requires Fresh(s) && s.disk.files == map[]
    ensures Tidy(s)
  {
  }

  /**
   * A whole compaction, wherever in a run with any crashes: the merged segment's file is the only
   * new one, those of the merged segments are gone, and every other file stays as it was. If the
   * files were those of the live segments, they are again.
   */
  lemma CompactionFiles(s: State, h: History, floor: nat, g: Cover, keep: nat, s': State)
    requires Inv(s, h, floor, g) && Path(s, CompactEvents(keep), s')
    ensures Ids(s'.segments) == {s.nextSegId} && s.nextSegId !in Ids(s.segments)
    ensures s'.disk.files.Keys == s.disk.files.Keys + {s.nextSegId} - Ids(s.segments)
    ensures forall id :: id in s'.disk.files && id != s.nextSegId ==> s'.disk.files[id] == s.disk.files[id]
    ensures s.disk.files.Keys == Ids(s.segments) ==> s'.disk.files.Keys == Ids(s'.segments)
  {
    assert FilesOK(s.segments, s.disk.files, s.nextSegId);
    NewNumber(s.segments, s.disk.files, s.nextSegId);
    hide Inv;
    var s1, s2, s3, s4 := CompactionSteps(s, keep, s');
    CompactionLeaves(s, keep, s1, s2, s3, s4, s');
  }

  lemma NewNumber(segments: seq<Seg>, files: map<nat, Seg>, nextSegId: nat)
    requires FilesOK(segments, files, nextSegId)
    ensures nextSegId !in Ids(segments)
  {
  }

  lemma CompactionLeaves(s: State, keep: nat, s1: State, s2: State, s3: State, s4: State, s': State)
    requires MergeStep(s, keep, s1) && RegisterMergedStep(s1, s2) && SyncStep(s2, s3) && PublishMergedStep(s3, s4)
    requires DeleteStep(s4, s') && s.nextSegId !in Ids(s.segments)
    ensures Ids(s'.segments) == {s.nextSegId}
    ensures s'.disk.files.Keys == s.disk.files.Keys + {s.nextSegId} - Ids(s.segments)
    ensures forall id :: id in s'.disk.files && id != s.nextSegId ==> s'.disk.files[id] == s.disk.files[id]
  {
    OneId(s4.segments[0]);
    hide Ids;
    hide Merged;
    hide Tables;
    hide MergeRecords;
  }
}
