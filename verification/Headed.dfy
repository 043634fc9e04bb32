/**
 * Stores whose segments declare their true maxima: those in which no compaction has run over an
 * empty front segment. There a compaction may be torn anywhere, and every snapshot is taken at
 * the last operation.
 */
module Headed {
  import opened Encoding
  import opened Options
  import opened Versions
  import opened Layers
  import opened Compaction
  import opened Machine
  import opened Safety
  import opened Recovery
  import opened Runs
  import opened TornCompaction

  /** Every segment declares its true maximum, and they stand with the highest in front, empty ones anywhere. */
  ghost predicate HeadedSegs(segs: seq<Seg>)
  {
    && (forall i :: 0 <= i < |segs| ==> Truthful(segs[i]))
    && forall i, j :: 0 <= i < j < |segs| ==> segs[i].table == map[] || Hi(segs[i].table) >= Hi(segs[j].table)
  }

  ghost predicate HeadedState(s: State)
  {
    HeadedSegs(s.segments) && (s.job.Compacting? ==> s.segments != [] && s.segments[0].table != map[])
  }

  // -------------------------------------------------------------------------
  // The front segment
  // -------------------------------------------------------------------------

  /** A non-empty front segment reaches up to the last covered operation. */
  lemma FrontIsLast(segs: seq<Seg>, h: History, floor: nat)
    requires LayersOK(Tables(segs), h, floor) && HeadedSegs(segs) && segs != [] && segs[0].table != map[]
    ensures h != [] && Hi(segs[0].table) == segs[0].maxSeq == LastSequence(h)
  {
    var ts := Tables(segs);
    FrontWritten(ts[0], h, floor);
    var o := h[|h| - 1];
    var s := if o.sequence > floor then o.sequence else floor;
    LatestIsNewest(h, o.key, s, o);
    var x := Latest(h, o.key, s).value;
    assert Op(x.sequence, o.key, x.value) in h;
    var m :| 0 <= m < |ts| && Has(ts[m], o.key, x);
    HasBelowHi(ts[m], o.key, x);
    HiBelowLast(ts[0], h);
    hide LayersOK;
    assert segs[m].table == ts[m] && segs[0].table == ts[0];
  }

  lemma FrontWritten(t: Table, h: History, floor: nat)
    requires LayerOK(t, h, floor) && t != map[]
    ensures h != []
  {
    var k :| k in t;
    assert Has(t, k, t[k][0]);
  }

  /** A segment that reaches up as far as any holds the newest version of each of its keys. */
  lemma HighestHoldsNewest(segs: seq<Seg>, h: History, floor: nat, i: nat, k: Key)
    requires LayersOK(Tables(segs), h, floor) && i < |segs| && k in segs[i].table
    requires forall j :: 0 <= j < |segs| ==> Hi(segs[j].table) <= Hi(segs[i].table)
    ensures HoldsNewest(segs, i, k)
  {
    var t := Tables(segs)[i];
    assert LayerOK(t, h, floor) && t == segs[i].table;
    hide Ordered;
    hide Complete;
    assert Has(t, k, t[k][0]);
    forall v | InSome(Tables(segs), k, v)
      ensures exists w :: Has(t, k, w) && v.sequence <= w.sequence
    {
      InSomeWritten(Tables(segs), h, k, v);
      var b :| 0 <= b < |segs| && Has(Tables(segs)[b], k, v);
      HasBelowHi(segs[b].table, k, v);
      if t[k][0].sequence <= v.sequence {
        assert Answers(t, k, Op(v.sequence, k, v.value).sequence, floor);
      }
    }
  }

  lemma HighestIsHeaded(segs: seq<Seg>, i: nat)
    requires HeadedSegs(segs) && segs != [] && segs[0].table != map[] && i < |segs| && segs[i].maxSeq >= segs[0].maxSeq
    ensures forall j :: 0 <= j < |segs| ==> Hi(segs[j].table) <= Hi(segs[i].table)
  {
  }

  /** Over a non-empty front segment a compaction may be torn anywhere. */
  lemma FrontMakesSafe(segs: seq<Seg>, h: History, floor: nat, masked: set<Key>)
    requires LayersOK(Tables(segs), h, floor) && HeadedSegs(segs) && segs != [] && segs[0].table != map[]
    ensures MergeSafe(segs, masked)
  {
    hide LayersOK;
    hide HoldsNewest;
    forall i: nat, k | k !in masked && OldestHolder(segs, i, k)
      ensures HoldsNewest(segs, i, k)
    {
      HighestIsHeaded(segs, i);
      HighestHoldsNewest(segs, h, floor, i, k);
    }
  }

  /** The oldest of all segments that hold the key. */
  ghost predicate OldestOfAll(segs: seq<Seg>, i: nat, k: Key)
  {
    i < |segs| && k in segs[i].table && forall j :: i < j < |segs| ==> k !in segs[j].table
  }

  /**
   * Where the segments declare their true maxima, a compaction may be torn exactly when the front
   * segment is not empty, or the oldest segment that holds a key holds its newest version.
   */
  lemma HeadedSafeIff(segs: seq<Seg>, h: History, floor: nat, masked: set<Key>)
    requires LayersOK(Tables(segs), h, floor) && HeadedSegs(segs) && segs != []
    ensures MergeSafe(segs, masked) <==>
              || segs[0].table != map[]
              || forall i: nat, k :: k !in masked && OldestOfAll(segs, i, k) ==> HoldsNewest(segs, i, k)
  {
    if segs[0].table != map[] {
      FrontMakesSafe(segs, h, floor, masked);
    } else {
      EmptyFrontDeclaresNothing(segs);
      hide LayersOK;
      hide HeadedSegs;
      hide HoldsNewest;
      forall i: nat, k
        ensures OldestHolder(segs, i, k) <==> OldestOfAll(segs, i, k)
      {
      }
    }
  }

  /**
   * So a compaction over such segments that a crash tears still reads what was acknowledged,
   * whichever records survive and however equal maxima are sorted, exactly when the front segment
   * is not empty, or for each key that the log does not replay the oldest segment that holds it
   * holds its newest version.
   */
  lemma HeadedTornIff(s: State, keep: nat, s1: State, s2: State, h: History, floor: nat, g: Cover)
    requires Inv(s, h, floor, g) && HeadedSegs(s.segments) && MergeStep(s, keep, s1) && RegisterMergedStep(s1, s2)
    ensures s.segments != []
    ensures ReopensRight(s2, h) <==>
              || s.segments[0].table != map[]
              || forall i: nat, k :: k !in Logged(s) && OldestOfAll(s.segments, i, k) ==> HoldsNewest(s.segments, i, k)
  {
    SegmentFacts(s, h, floor, g);
    CoveredWhole(s.segments, h, floor, g.covered);
    assert s.segments != [];
    hide *;
    TornMergeReadsIff(s, keep, s1, s2, h, floor, g);
    HeadedSafeIff(s.segments, h[..g.covered], floor, Logged(s));
  }

  lemma CoveredWhole(segs: seq<Seg>, h: History, floor: nat, covered: nat)
    requires SegmentsOK(segs, h, floor, covered)
    ensures covered <= |h| && LayersOK(Tables(segs), h[..covered], floor)
  {
    hide LayersOK;
  }

  lemma EmptyFrontDeclaresNothing(segs: seq<Seg>)
    requires HeadedSegs(segs) && segs != [] && segs[0].table == map[]
    ensures segs[0].maxSeq == 0
  {
    EmptyTableOK([], 0);
  }

  // -------------------------------------------------------------------------
  // Runs that compact only over non-empty front segments
  // -------------------------------------------------------------------------

  /** One operation an append, not behind a refused one; and compactions only over non-empty front segments. */
  ghost predicate Guarded(s: State, e: Event)
  {
    match e
    case Write(ops) => |ops| == 1 && Aligned(s)
    case Merge(_) => s.segments != [] && s.segments[0].table != map[]
    case _ => true
  }

  ghost predicate GuardedRun(r: Run)
  {
    && |r.states| == |r.events| + 1
    && Fresh(r.states[0])
    && forall i :: 0 <= i < |r.events| ==>
         Step(r.states[i], r.events[i], r.states[i + 1]) && Guarded(r.states[i], r.events[i])
  }

  lemma GuardedAllows(s: State, e: Event, h: History, floor: nat, g: Cover)
    requires Inv(s, h, floor, g) && HeadedState(s) && Guarded(s, e)
    ensures Allowed(s, e)
  {
    if e.Crash? && s.job.Compacting? {
      assert SegmentsOK(s.segments, h, floor, g.covered);
      hide Inv;
      hide LayersOK;
      FrontMakesSafe(s.segments, h[..g.covered], floor, {});
    }
  }

  lemma MergedTruthful(s: State, h: History, floor: nat, g: Cover)
    requires Inv(s, h, floor, g) && HeadedState(s) && s.job.Compacting?
    ensures Truthful(s.job.merged)
  {
    assert SegmentsOK(s.segments, h, floor, g.covered);
    assert MergedOf(s.job.merged, s.segments, h, g.covered);
    hide Inv;
    hide LayersOK;
    hide Merged;
    FrontIsLast(s.segments, h[..g.covered], floor);
  }

  /** The segments declare their true maxima, none below `b`, each at least the one before; empty ones anywhere. */
  ghost predicate Rising(segs: seq<Seg>, b: nat)
  {
    && (forall i :: 0 <= i < |segs| ==> Truthful(segs[i]) && (segs[i].table == map[] || Hi(segs[i].table) >= b))
    && forall i, j :: 0 <= i < j < |segs| ==> segs[j].table == map[] || Hi(segs[j].table) >= Hi(segs[i].table)
  }

  function CoveredLast(h: History, covered: nat): nat
    requires covered <= |h|
  {
    if covered == 0 then 0 else h[covered - 1].sequence
  }

  /** Popped windows stand above what the segments cover. */
  lemma StackHeaded(s: State, h: History, floor: nat, g: Cover)
    requires Inv(s, h, floor, g) && HeadedState(s) && s.job.Moving? && s.job.stage == Registered
    ensures HeadedSegs(Stack(s.job.segs, s.segments))
  {
    assert MovedOK(s.disk.files, s.segments, s.nextSegId, s.job.tables, s.job.segs);
    assert HistoryOK(h, s.nextSequence) && MemoryOK(MemTables(s), h, g) && SegmentsOK(s.segments, h, floor, g.covered);
    hide Inv;
    hide HeadedSegs;
    hide MovedOK;
    hide SegmentsOK;
    hide Rising;
    hide Stack;
    CoveredIn(s.segments, h, floor, g.covered);
    MovedRises(s, h, g);
    BelowCovered(s.segments, h, floor, g.covered);
    StackOfHeaded(s.job.segs, s.segments, CoveredLast(h, g.covered));
  }

  lemma CoveredIn(segments: seq<Seg>, h: History, floor: nat, covered: nat)
    requires SegmentsOK(segments, h, floor, covered)
    ensures covered <= |h|
  {
    hide LayersOK;
  }

  lemma BelowCovered(segments: seq<Seg>, h: History, floor: nat, covered: nat)
    requires SegmentsOK(segments, h, floor, covered)
    ensures forall i :: 0 <= i < |segments| ==> Hi(segments[i].table) <= CoveredLast(h, covered)
  {
    hide LayerOK;
    forall i | 0 <= i < |segments|
      ensures Hi(segments[i].table) <= CoveredLast(h, covered)
    {
      LayerBelowLast(Tables(segments)[i], h[..covered], floor);
    }
  }

  lemma WindowReach(mem: seq<Table>, cuts: seq<nat>, h: History, i: nat)
    requires Windows(mem, cuts, h) && Increasing(h) && i < |mem|
    ensures cuts[i] <= cuts[i + 1] <= |h| && (mem[i] == map[] <==> cuts[i] == cuts[i + 1])
    ensures Hi(mem[i]) == if cuts[i] < cuts[i + 1] then h[cuts[i + 1] - 1].sequence else 0
  {
    WindowHi(h, cuts[i], cuts[i + 1]);
  }

  lemma ReachAbove(mem: seq<Table>, cuts: seq<nat>, h: History, covered: nat, i: nat)
    requires Windows(mem, cuts, h) && Increasing(h) && i < |mem| && covered <= cuts[1]
    ensures mem[i] == map[] || Hi(mem[i]) >= CoveredLast(h, covered)
  {
    WindowReach(mem, cuts, h, i);
    CutsMonotone(mem, cuts, h, 1, i + 1);
    hide Window;
    hide Hi;
  }

  lemma ReachRises(mem: seq<Table>, cuts: seq<nat>, h: History, i: nat, j: nat)
    requires Windows(mem, cuts, h) && Increasing(h) && i < j < |mem|
    ensures mem[j] == map[] || Hi(mem[j]) >= Hi(mem[i])
  {
    WindowReach(mem, cuts, h, i);
    WindowReach(mem, cuts, h, j);
    CutsMonotone(mem, cuts, h, i + 1, j);
    hide Window;
    hide Hi;
  }

  lemma MovedRises(s: State, h: History, g: Cover)
    requires s.job.Moving? && MovedOK(s.disk.files, s.segments, s.nextSegId, s.job.tables, s.job.segs)
    requires Increasing(h) && MemoryOK(MemTables(s), h, g) && g.covered <= |h|
    ensures Rising(s.job.segs, CoveredLast(h, g.covered))
  {
    var mem, segs := MemTables(s), s.job.segs;
    MovedTables(s);
    hide MovedOK;
    hide Windows;
    hide CoveredLast;
    hide MemTables;
    forall i | 0 <= i < |segs|
      ensures Truthful(segs[i]) && (segs[i].table == map[] || Hi(segs[i].table) >= CoveredLast(h, g.covered))
    {
      ReachAbove(mem, g.cuts, h, g.covered, i);
    }
    forall i, j | 0 <= i < j < |segs|
      ensures segs[j].table == map[] || Hi(segs[j].table) >= Hi(segs[i].table)
    {
      ReachRises(mem, g.cuts, h, i, j);
    }
  }

  lemma MovedTables(s: State)
    requires s.job.Moving? && MovedOK(s.disk.files, s.segments, s.nextSegId, s.job.tables, s.job.segs)
    ensures |s.job.segs| <= |MemTables(s)|
    ensures forall i :: 0 <= i < |s.job.segs| ==> s.job.segs[i].table == MemTables(s)[i] && Truthful(s.job.segs[i])
  {
    hide FreshFile;
  }

  lemma StackOfHeaded(segs: seq<Seg>, below: seq<Seg>, b: nat)
    requires HeadedSegs(below) && Rising(segs, b) && forall i :: 0 <= i < |below| ==> Hi(below[i].table) <= b
    ensures HeadedSegs(Stack(segs, below))
  {
    var all, n := Stack(segs, below), |segs|;
    hide Stack;
    forall i | 0 <= i < |all|
      ensures all[i] == (if i < n then segs[n - 1 - i] else below[i - n]) && Truthful(all[i])
    {
      StackIndex(segs, below, i);
    }
    hide Truthful;
    hide Hi;
    forall i, j | 0 <= i < j < |all|
      ensures all[i].table == map[] || Hi(all[i].table) >= Hi(all[j].table)
    {
      if j < n {
        assert all[i] == segs[n - 1 - i] && all[j] == segs[n - 1 - j];
      } else if i < n {
        assert all[i] == segs[n - 1 - i] && all[j] == below[j - n];
      } else {
        assert all[i] == below[i - n] && all[j] == below[j - n];
      }
    }
  }

  lemma SortedHeaded(segs: seq<Seg>)
    requires SortedByMax(segs) && forall i :: 0 <= i < |segs| ==> Truthful(segs[i])
    ensures HeadedSegs(segs)
  {
  }

  /** What survives a crash declares its true maxima. */
  lemma SurvivingTruthful(s: State, h: History, floor: nat, g: Cover, cut: nat)
    requires Inv(s, h, floor, g) && HeadedState(s)
    ensures forall y :: y in Surviving(s, cut) ==> Truthful(y)
  {
    hide Inv;
    hide HeadedSegs;
    hide Truthful;
    hide Surviving;
    if s.job.Compacting? {
      MergedTruthful(s, h, floor, g);
      MergedSurvivors(s, cut);
    } else if s.job.Moving? && s.job.stage == Registered {
      MovedAre(s, h, floor, g);
      MovedSurvivors(s, cut);
    } else {
      OldSurvivors(s, cut);
    }
  }

  lemma OldSurvivors(s: State, cut: nat)
    requires HeadedSegs(s.segments) && !s.job.Compacting? && !(s.job.Moving? && s.job.stage == Registered)
    ensures forall y :: y in Surviving(s, cut) ==> Truthful(y)
  {
    hide Truthful;
  }

  lemma MergedSurvivors(s: State, cut: nat)
    requires HeadedSegs(s.segments) && s.job.Compacting? && Truthful(s.job.merged)
    ensures forall y :: y in Surviving(s, cut) ==> Truthful(y)
  {
    hide Truthful;
    forall y | y in Surviving(s, cut)
      ensures y == s.job.merged || y in s.segments
    {
    }
  }

  lemma MovedAre(s: State, h: History, floor: nat, g: Cover)
    requires Inv(s, h, floor, g) && s.job.Moving? && s.job.stage == Registered
    ensures forall i :: 0 <= i < |s.job.segs| ==> Truthful(s.job.segs[i])
  {
    hide SegmentsOK;
    hide MemoryOK;
    hide FreshFile;
  }

  lemma MovedSurvivors(s: State, cut: nat)
    requires s.job.Moving? && s.job.stage == Registered && HeadedSegs(s.segments)
    requires forall i :: 0 <= i < |s.job.segs| ==> Truthful(s.job.segs[i])
    ensures forall y :: y in Surviving(s, cut) ==> Truthful(y)
  {
    hide Truthful;
    hide Stack;
    var base := |s.disk.manifest| - |s.job.segs| - (if s.job.checkpoint then 1 else 0);
    var added := if cut < base then 0 else if cut - base > |s.job.segs| then |s.job.segs| else cut - base;
    StackIds(s.job.segs[..added], s.segments);
    forall y | y in s.job.segs[..added]
      ensures Truthful(y)
    {
      var i :| 0 <= i < added && s.job.segs[..added][i] == y;
      assert s.job.segs[i] == y;
    }
  }

  lemma CrashHeaded(s: State, cut: nat, s': State, h: History, floor: nat, g: Cover)
    requires Inv(s, h, floor, g) && HeadedState(s) && CrashStep(s, cut, s')
    ensures HeadedState(s')
  {
    hide Inv;
    hide HeadedState;
    hide Surviving;
    hide SurvivingCover;
    hide LiveIds;
    hide Truthful;
    hide SegmentsOK;
    hide Allowed;
    hide Accepted;
    hide RestoredSequence;
    var d :| CrashImage(s.disk, cut, d) && Opened(d, s');
    SurvivingOK(s, h, floor, g, cut);
    SurvivingTruthful(s, h, floor, g, cut);
    var cand := Surviving(s, cut);
    SurvivingFiles(cand, s.disk, cut, d, s.nextSegId);
    SameMembers(s'.segments, cand, d.files);
    SortedHeaded(s'.segments);
    OpenedIdle(s');
  }

  lemma OpenedIdle(s': State)
    requires HeadedSegs(s'.segments) && s'.job == Idle
    ensures HeadedState(s')
  {
  }

  lemma HeadedStep(s: State, e: Event, s': State, h: History, floor: nat, g: Cover)
    requires Inv(s, h, floor, g) && HeadedState(s) && Step(s, e, s') && Guarded(s, e)
    ensures HeadedState(s')
  {
    hide Inv;
    hide HeadedSegs;
    match e
    case Publish => PublishHeaded(s, s', h, floor, g);
    case PublishMerged => PublishMergedHeaded(s, s', h, floor, g);
    case Crash(cut) => CrashHeaded(s, cut, s', h, floor, g);
    case _ => OtherHeaded(s, e, s');
  }

  lemma PublishHeaded(s: State, s': State, h: History, floor: nat, g: Cover)
    requires Inv(s, h, floor, g) && HeadedState(s) && PublishStep(s, s')
    ensures HeadedState(s')
  {
    hide Inv;
    StackHeaded(s, h, floor, g);
    hide HeadedSegs;
  }

  lemma PublishMergedHeaded(s: State, s': State, h: History, floor: nat, g: Cover)
    requires Inv(s, h, floor, g) && HeadedState(s) && PublishMergedStep(s, s')
    ensures HeadedState(s')
  {
    hide Inv;
    MergedTruthful(s, h, floor, g);
    hide Truthful;
  }

  lemma OtherHeaded(s: State, e: Event, s': State)
    requires HeadedState(s) && Step(s, e, s') && Guarded(s, e) && !e.Publish? && !e.PublishMerged? && !e.Crash?
    ensures HeadedState(s')
  {
    hide HeadedSegs;
  }

  /**
   * A run that compacts only over non-empty front segments may crash anywhere: it is a run in the
   * sense of `Runs`, whatever record a crash tears, and its segments always declare their true maxima.
   */
  lemma {:induction false} GuardedInvariant(r: Run, n: nat) returns (g: Cover)
    requires GuardedRun(r) && n <= |r.events|
    ensures Inv(r.states[n], HistoryAt(r, n), FloorAt(r, n), g) && HeadedState(r.states[n])
    ensures forall i :: 0 <= i < n ==> Allowed(r.states[i], r.events[i])
  {
    hide Inv;
    hide Allowed;
    hide Step;
    hide HeadedSegs;
    if n == 0 {
      FreshInv(r.states[0]);
      FreshHeaded(r.states[0]);
      g := Cover(0, [0, 0], 0);
    } else {
      var f := GuardedInvariant(r, n - 1);
      GuardedAllows(r.states[n - 1], r.events[n - 1], HistoryAt(r, n - 1), FloorAt(r, n - 1), f);
      HeadedStep(r.states[n - 1], r.events[n - 1], r.states[n], HistoryAt(r, n - 1), FloorAt(r, n - 1), f);
      g := StepKeeps(r.states[n - 1], r.events[n - 1], r.states[n], HistoryAt(r, n - 1), FloorAt(r, n - 1), f);
    }
  }

  lemma FreshHeaded(s: State)
    requires Fresh(s)
    ensures HeadedState(s)
  {
  }

  lemma GuardedIsValid(r: Run)
    requires GuardedRun(r)
    ensures ValidRun(r) && forall n :: 0 <= n <= |r.events| ==> HeadedState(r.states[n])
  {
    hide HeadedState;
    hide Step;
    hide Allowed;
    forall n | 0 <= n <= |r.events|
      ensures HeadedState(r.states[n])
    {
      var g := GuardedInvariant(r, n);
    }
    var g := GuardedInvariant(r, |r.events|);
  }

  // -------------------------------------------------------------------------
  // Snapshots after a compaction
  // -------------------------------------------------------------------------

  lemma BoundaryOfOne(m: Seg)
    ensures Boundary([m]) == m.maxSeq
  {
    assert [m][..0] == [] && Boundary([m][..0]) == 0;
  }

  /**
   * Exactly when a snapshot after a compaction is taken at the last operation: when a table in
   * memory holds something, or the front segment declares that operation's sequence, or there is
   * no operation.
   */
  lemma CompactedBoundaryIff(s: State, keep: nat, h: History, floor: nat, g: Cover)
    requires Inv(s, h, floor, g) && s.job == Idle && s.segments != []
    ensures SnapshotBoundary(Compacted(s, keep)) == LastSequence(h) <==>
              h == [] || MemoryHolds(s) || s.segments[0].maxSeq == LastSequence(h)
  {
    InvReadable(s, h, floor, g);
    AllModest(s, h, floor, g);
    assert h != [] ==> LastSequence(h) >= 1;
    hide Inv;
    TablesBelow(s, h, floor, g);
    if MemoryHolds(s) {
      MemoryReaches(s, h, floor, g);
    }
    hide Readable;
    hide Strict;
    hide Merged;
    var m := s.frozen + [s.active];
    MaxFrontBelow(m, LastSequence(h));
    BoundaryOfOne(Compacted(s, keep).segments[0]);
    assert Modest(s.segments[0]);
    if !MemoryHolds(s) {
      NothingInFront(m);
    }
  }

  /** Where the segments declare their true maxima: exactly when memory or the front segment is not empty. */
  lemma HeadedBoundaryIff(s: State, keep: nat, h: History, floor: nat, g: Cover)
    requires Inv(s, h, floor, g) && s.job == Idle && s.segments != [] && HeadedState(s)
    ensures SnapshotBoundary(Compacted(s, keep)) == LastSequence(h) <==>
              h == [] || MemoryHolds(s) || s.segments[0].table != map[]
  {
    CompactedBoundaryIff(s, keep, h, floor, g);
    InvReadable(s, h, floor, g);
    assert h != [] ==> LastSequence(h) >= 1;
    hide Inv;
    hide SnapshotBoundary;
    hide LayersOK;
    hide MemoryOK;
    if !MemoryHolds(s) {
      EmptyMemoryCovered(s, h, floor, g);
      assert h[..|h|] == h;
      if s.segments[0].table != map[] {
        FrontIsLast(s.segments, h, floor);
      } else {
        EmptyFrontDeclaresNothing(s.segments);
      }
    }
  }
}
