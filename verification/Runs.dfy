/** Whole runs of the store: what readers see, after any events and any crashes. */
module Runs {
  import opened Encoding
  import opened Options
  import opened Versions
  import opened Layers
  import opened Compaction
  import opened Machine
  import opened Safety
  import opened Recovery

  /** A store opened on an empty directory. */
  ghost predicate Fresh(s: State)
  {
    && s.disk.wal == [] && s.disk.manifest == [] && s.disk.synced == 0
    && s.nextSequence == 1 && s.active == map[] && s.frozen == [] && s.segments == [] && s.job == Idle
  }

  datatype Run = Run(states: seq<State>, events: seq<Event>)

  /** Any events in any order, crashes included, each allowed where it happens. */
  ghost predicate ValidRun(r: Run)
  {
    && |r.states| == |r.events| + 1
    && Fresh(r.states[0])
    && forall i :: 0 <= i < |r.events| ==>
         Step(r.states[i], r.events[i], r.states[i + 1]) && Allowed(r.states[i], r.events[i])
  }

  /** Every operation written so far. */
  ghost function HistoryAt(r: Run, n: nat): History
    requires n <= |r.events| < |r.states|
  {
    if n == 0 then [] else NextHistory(r.states[n - 1], HistoryAt(r, n - 1), r.events[n - 1])
  }

  ghost function FloorAt(r: Run, n: nat): nat
    requires n <= |r.events| < |r.states|
  {
    if n == 0 then 0 else NextFloor(r.states[n - 1], FloorAt(r, n - 1), r.events[n - 1])
  }

  lemma FreshInv(s: State)
    requires Fresh(s)
    ensures Inv(s, [], 0, Cover(0, [0, 0], 0))
  {
    hide MemoryOK;
    hide SegmentsOK;
    hide FilesOK;
    hide LogOK;
    FreshCover();
    FreshSegments(s.segments, s.disk.files, s.nextSegId);
    assert MemTables(s) == [map[]];
    assert s.disk.manifest[..0] == [];
    assert Ids(s.segments) == {};
  }

  lemma FreshCover()
    ensures MemoryOK([map[]], [], Cover(0, [0, 0], 0)) && LogOK([], [], Cover(0, [0, 0], 0))
  {
    var h: History := [];
    assert h[..0] == h && h[0..] == h && h[0..0] == h;
  }

  lemma FreshSegments(segments: seq<Seg>, files: map<nat, Seg>, nextSegId: nat)
    requires segments == []
    ensures SegmentsOK(segments, [], 0, 0) && FilesOK(segments, files, nextSegId)
  {
    var h: History := [];
    assert h[..0] == h && Tables(segments) == [];
  }

  /** Every step keeps the invariant. */
  lemma StepKeeps(s: State, e: Event, s': State, h: History, floor: nat, g: Cover) returns (g': Cover)
    requires Inv(s, h, floor, g) && Step(s, e, s') && Allowed(s, e)
    ensures Inv(s', NextHistory(s, h, e), NextFloor(s, floor, e), g')
  {
    hide Inv;
    g' := g;
    match e
    case Write(ops) =>
      WriteKeeps(s, ops, s', h, floor, g);
      g' := WriteCover(h, g);
    case Reject => RejectKeeps(s, s', h, floor, g);
    case Freeze =>
      FreezeKeeps(s, s', h, floor, g);
      g' := g.(cuts := g.cuts + [|h|]);
    case Take(n, checkpoint) => TakeKeeps(s, n, checkpoint, s', h, floor, g);
    case WriteSegments => WriteSegmentsKeeps(s, s', h, floor, g);
    case Register => RegisterKeeps(s, s', h, floor, g);
    case SyncManifest => SyncKeeps(s, s', h, floor, g);
    case Publish =>
      PublishKeeps(s, s', h, floor, g);
      g' := PublishCover(g, |s.job.tables|);
    case Truncate => g' := TruncateKeeps(s, s', h, floor, g);
    case Merge(keep) => MergeKeeps(s, keep, s', h, floor, g);
    case RegisterMerged => RegisterMergedKeeps(s, s', h, floor, g);
    case PublishMerged => PublishMergedKeeps(s, s', h, floor, g);
    case DeleteFiles => DeleteKeeps(s, s', h, floor, g);
    case Crash(cut) =>
      CrashKeeps(s, cut, s', h, floor, g);
      g' := RecoveredCover(s, h, g, cut);
  }

  /** The invariant holds in every state of every run, after any number of crashes. */
  lemma {:induction false} RunInvariant(r: Run, n: nat) returns (g: Cover)
    requires ValidRun(r) && n <= |r.events|
    ensures Inv(r.states[n], HistoryAt(r, n), FloorAt(r, n), g)
  {
    hide Inv;
    if n == 0 {
      FreshInv(r.states[0]);
      g := Cover(0, [0, 0], 0);
    } else {
      var f := RunInvariant(r, n - 1);
      g := StepKeeps(r.states[n - 1], r.events[n - 1], r.states[n], HistoryAt(r, n - 1), FloorAt(r, n - 1), f);
    }
  }

  // -------------------------------------------------------------------------
  // Readers
  // -------------------------------------------------------------------------

  /** Leaving out the popped tables leaves proper layers in order. */
  lemma ReaderIndex(s: State, i: nat)
    requires i < |ReaderLayers(s)|
    ensures var m := |s.frozen| + 1;
            var j := if i < m then i else i + |Popped(s.job)|;
            j < |AllLayers(s)| && ReaderLayers(s)[i] == AllLayers(s)[j]
  {
    hide Stack;
    var p, m, ts := Popped(s.job), s.frozen + [s.active], Tables(s.segments);
    assert p + s.frozen + [s.active] == p + m;
    StackIndex(m, ts, i);
    StackIndex(p + m, ts, if i < |m| then i else i + |p|);
  }

  /** Some of the layers, in the same order. */
  lemma SubLayered(all: LayerList, rd: LayerList, n: nat, skip: nat, h: History, floor: nat)
    requires Layered(all, h, floor) && |rd| + skip <= |all|
    requires forall i :: 0 <= i < |rd| ==> rd[i] == all[if i < n then i else i + skip]
    ensures Layered(rd, h, floor)
  {
    hide LayerOK;
    hide Precedes;
    forall a, b | 0 <= a < b < |rd|
      ensures Precedes(rd[a], rd[b], floor)
    {
      var c, d := if a < n then a else a + skip, if b < n then b else b + skip;
      assert rd[a] == all[c] && rd[b] == all[d];
    }
  }

  lemma ReaderLayered(s: State, h: History, floor: nat, g: Cover)
    requires Readable(s, h, floor, g)
    ensures Layered(ReaderLayers(s), h, floor)
    ensures !s.job.Moving? ==> ReaderLayers(s) == AllLayers(s)
  {
    hide Readable;
    hide Layered;
    hide Complete;
    hide Stack;
    AllLayersOK(s, h, floor, g);
    var n := |s.frozen| + 1;
    forall i | 0 <= i < |ReaderLayers(s)|
      ensures ReaderLayers(s)[i] == AllLayers(s)[if i < n then i else i + |Popped(s.job)|]
    {
      ReaderIndex(s, i);
    }
    assert |ReaderLayers(s)| + |Popped(s.job)| == |AllLayers(s)|;
    hide ReaderLayers;
    hide AllLayers;
    SubLayered(AllLayers(s), ReaderLayers(s), n, |Popped(s.job)|, h, floor);
  }

  lemma ReaderStrict(s: State, h: History, floor: nat, g: Cover)
    requires Readable(s, h, floor, g)
    ensures forall m :: 0 <= m < |ReaderLayers(s)| ==> Strict(ReaderLayers(s)[m]) && AtMost(ReaderLayers(s)[m], LATEST)
  {
    ReaderLayered(s, h, floor, g);
    assert HistoryOK(h, s.nextSequence);
    hide Readable;
    hide ReaderLayers;
    hide Solid;
    forall m | 0 <= m < |ReaderLayers(s)|
      ensures AtMost(ReaderLayers(s)[m], LATEST)
    {
      var t := ReaderLayers(s)[m];
      forall k, v | Has(t, k, v)
        ensures v.sequence <= LATEST
      {
        assert Op(v.sequence, k, v.value) in h;
      }
    }
  }

  /**
   * Exactly when a reader is given what the history says, at any point of any job: when the
   * version owed is in a layer the reader can see. Only tables popped by a flush or
   * checkpoint that has not published yet can hide it.
   */
  lemma ReadIff(s: State, h: History, floor: nat, g: Cover, k: Key, snapshot: nat)
    requires Readable(s, h, floor, g) && snapshot >= floor
    ensures ReadAt(ReaderLayers(s), k, snapshot) == Latest(h, k, snapshot) <==>
              (Latest(h, k, snapshot).Some? ==> InSome(ReaderLayers(s), k, Latest(h, k, snapshot).value))
    ensures !s.job.Moving? ==> ReadAt(ReaderLayers(s), k, snapshot) == Latest(h, k, snapshot)
  {
    ReaderLayered(s, h, floor, g);
    AllLayersOK(s, h, floor, g);
    hide Readable;
    hide LayerOK;
    LayeredReadIff(ReaderLayers(s), h, floor, k, snapshot);
  }

  /** The read without a snapshot is the snapshot read at the top. */
  lemma GetIsGetAt(s: State, h: History, floor: nat, g: Cover, k: Key)
    requires Readable(s, h, floor, g)
    ensures Get(s, k) == GetAt(s, LATEST, k)
    ensures floor <= LATEST
  {
    ReaderStrict(s, h, floor, g);
    CurrentIsLatest(ReaderLayers(s), k);
    assert HistoryOK(h, s.nextSequence) && floor <= LastSequence(h);
  }

  /**
   * Layered reads equal the history, in every state of every run: unless a flush or a
   * checkpoint stands between popping and publishing, a current read returns the last
   * operation on the key, and a snapshot read at or above the watermark the last at or below
   * the snapshot.
   */
  lemma RunReads(r: Run, n: nat, k: Key, snapshot: nat)
    requires ValidRun(r) && n <= |r.events| && !r.states[n].job.Moving?
    ensures Get(r.states[n], k) == Live(Latest(HistoryAt(r, n), k, LATEST))
    ensures snapshot >= FloorAt(r, n) ==>
              GetAt(r.states[n], snapshot, k) == Live(Latest(HistoryAt(r, n), k, snapshot))
  {
    hide Inv;
    hide Readable;
    var g := RunInvariant(r, n);
    InvReadable(r.states[n], HistoryAt(r, n), FloorAt(r, n), g);
    GetIsGetAt(r.states[n], HistoryAt(r, n), FloorAt(r, n), g, k);
    ReadIff(r.states[n], HistoryAt(r, n), FloorAt(r, n), g, k, LATEST);
    if snapshot >= FloorAt(r, n) {
      ReadIff(r.states[n], HistoryAt(r, n), FloorAt(r, n), g, k, snapshot);
    }
  }

  /** Sequences strictly increase over the whole run, across truncation and reopening, and the counter is
      always above all of them. */
  lemma RunSequences(r: Run, n: nat)
    requires ValidRun(r) && n <= |r.events|
    ensures Increasing(HistoryAt(r, n))
    ensures forall i :: 0 <= i < |HistoryAt(r, n)| ==> 1 <= HistoryAt(r, n)[i].sequence < r.states[n].nextSequence
    ensures LastSequence(HistoryAt(r, n)) <= LATEST
    ensures Consecutive(r.states[n].disk.wal)
  {
    var g := RunInvariant(r, n);
    assert HistoryOK(HistoryAt(r, n), r.states[n].nextSequence);
    assert LogOK(r.states[n].disk.wal, HistoryAt(r, n), g);
  }

  /** The manifest never names a missing file: whatever a crash keeps of its unsynced tail, every segment
      that is then live exists, and was written before the record that names it. */
  lemma ManifestClosure(r: Run, n: nat, cut: nat, d: Disk)
    requires ValidRun(r) && n <= |r.events| && CrashImage(r.states[n].disk, cut, d)
    ensures LiveIds(d.manifest) <= d.files.Keys
  {
    hide Inv;
    var s := r.states[n];
    var g := RunInvariant(r, n);
    SurvivingOK(s, HistoryAt(r, n), FloorAt(r, n), g, cut);
    SurvivingFiles(Surviving(s, cut), s.disk, cut, d, s.nextSegId);
    forall id | id in LiveIds(d.manifest)
      ensures id in d.files
    {
      assert id in Ids(Surviving(s, cut));
    }
  }

  // -------------------------------------------------------------------------
  // Snapshots
  // -------------------------------------------------------------------------

  ghost function MaxFront(tables: seq<Table>): nat
  {
    if tables == [] then 0
    else
      var b, m := MaxFront(tables[..|tables| - 1]), FrontMax(tables[|tables| - 1]);
      if m > b then m else b
  }

  /** The boundary a new snapshot takes: the highest sequence that readers can see. */
  ghost function SnapshotBoundary(s: State): nat
  {
    var m, d := MaxFront(s.frozen + [s.active]), Boundary(s.segments);
    if m > d then m else d
  }

  lemma {:induction false} MaxFrontBelow(tables: seq<Table>, b: nat)
    requires forall i :: 0 <= i < |tables| ==> Strict(tables[i]) && Hi(tables[i]) <= b
    ensures MaxFront(tables) <= b
  {
    hide Strict;
    if tables != [] {
      FrontMaxIsHi(tables[|tables| - 1]);
      MaxFrontBelow(tables[..|tables| - 1], b);
    }
  }

  lemma {:induction false} MaxFrontAbove(tables: seq<Table>)
    requires forall i :: 0 <= i < |tables| ==> Strict(tables[i])
    ensures forall i :: 0 <= i < |tables| ==> Hi(tables[i]) <= MaxFront(tables)
  {
    hide Strict;
    if tables != [] {
      FrontMaxIsHi(tables[|tables| - 1]);
      MaxFrontAbove(tables[..|tables| - 1]);
    }
  }

  lemma {:induction false} BoundaryAbove(segs: seq<Seg>)
    ensures forall i :: 0 <= i < |segs| ==> segs[i].maxSeq <= Boundary(segs)
  {
    if segs != [] {
      BoundaryAbove(segs[..|segs| - 1]);
    }
  }

  lemma {:induction false} BoundaryAttained(segs: seq<Seg>)
    ensures Boundary(segs) == 0 || exists i :: 0 <= i < |segs| && segs[i].maxSeq == Boundary(segs)
  {
    if segs != [] {
      var n := |segs| - 1;
      BoundaryAttained(segs[..n]);
      if Boundary(segs) != segs[n].maxSeq && Boundary(segs) != 0 {
        var i :| 0 <= i < n && segs[..n][i].maxSeq == Boundary(segs);
        assert segs[i].maxSeq == Boundary(segs);
      }
    }
  }

  /** Some table in memory holds something. */
  ghost predicate MemoryHolds(s: State)
  {
    exists i :: 0 <= i < |s.frozen + [s.active]| && (s.frozen + [s.active])[i] != map[]
  }

  ghost predicate Declares(segs: seq<Seg>, n: nat)
  {
    exists i :: 0 <= i < |segs| && segs[i].maxSeq == n
  }

  lemma {:induction false} NothingInFront(tables: seq<Table>)
    requires forall i :: 0 <= i < |tables| ==> tables[i] == map[]
    ensures MaxFront(tables) == 0
  {
    if tables != [] {
      NothingInFront(tables[..|tables| - 1]);
    }
  }

  /** The last window that holds something reaches up to the last operation. */
  lemma {:induction false} LastWindow(mem: seq<Table>, cuts: seq<nat>, h: History, n: nat, i: nat) returns (j: nat)
    requires Windows(mem, cuts, h) && Increasing(h) && i < n <= |mem| && mem[i] != map[] && cuts[n] == |h|
    ensures j < n && h != [] && Hi(mem[j]) == LastSequence(h)
    decreases n
  {
    var m := n - 1;
    assert mem[m] == Window(h, cuts[m], cuts[n]);
    WindowHi(h, cuts[m], cuts[n]);
    if mem[m] != map[] {
      j := m;
    } else {
      j := LastWindow(mem, cuts, h, m, i);
    }
  }

  lemma LayersBelow(layers: LayerList, h: History, floor: nat)
    requires LayersOK(layers, h, floor)
    ensures forall m :: 0 <= m < |layers| ==> Strict(layers[m]) && Hi(layers[m]) <= LastSequence(h)
  {
    hide Solid;
    hide Ordered;
    hide Complete;
    hide Strict;
    hide Sound;
    forall m | 0 <= m < |layers|
      ensures Hi(layers[m]) <= LastSequence(h)
    {
      LayerBelowLast(layers[m], h, floor);
    }
  }

  lemma TablesBelow(s: State, h: History, floor: nat, g: Cover)
    requires Readable(s, h, floor, g)
    ensures forall i :: 0 <= i < |s.frozen + [s.active]| ==>
              var t := (s.frozen + [s.active])[i]; Strict(t) && Hi(t) <= LastSequence(h)
    ensures forall i :: 0 <= i < |s.segments| ==> Hi(s.segments[i].table) <= LastSequence(h)
  {
    hide Readable;
    hide Stack;
    hide Strict;
    hide Hi;
    hide LayersOK;
    hide LastSequence;
    AllLayersOK(s, h, floor, g);
    LayersBelow(AllLayers(s), h, floor);
    var p, m, ts := Popped(s.job), s.frozen + [s.active], Tables(s.segments);
    assert p + s.frozen + [s.active] == p + m;
    forall i | 0 <= i < |m|
      ensures Strict(m[i]) && Hi(m[i]) <= LastSequence(h)
    {
      StackIndex(p + m, ts, |m| - 1 - i);
      assert AllLayers(s)[|m| - 1 - i] == m[i];
    }
    forall i | 0 <= i < |s.segments|
      ensures Hi(s.segments[i].table) <= LastSequence(h)
    {
      StackIndex(p + m, ts, |p + m| + i);
      assert AllLayers(s)[|p + m| + i] == ts[i];
    }
  }

  lemma MemoryReaches(s: State, h: History, floor: nat, g: Cover)
    requires Readable(s, h, floor, g) && !s.job.Moving? && MemoryHolds(s)
    ensures h != [] && MaxFront(s.frozen + [s.active]) >= LastSequence(h)
  {
    var mem := s.frozen + [s.active];
    assert MemTables(s) == mem;
    var i :| 0 <= i < |mem| && mem[i] != map[];
    var j := LastWindow(mem, g.cuts, h, |mem|, i);
    TablesBelow(s, h, floor, g);
    hide Strict;
    MaxFrontAbove(mem);
  }

  /** With nothing in memory the segments cover all. */
  lemma EmptyMemoryCovered(s: State, h: History, floor: nat, g: Cover)
    requires Readable(s, h, floor, g) && !s.job.Moving? && !MemoryHolds(s)
    ensures g.covered == |h|
  {
    var mem := s.frozen + [s.active];
    assert MemTables(s) == mem;
    forall i | 0 <= i < |mem|
      ensures g.cuts[i] == g.cuts[i + 1]
    {
      assert mem[i] == Window(h, g.cuts[i], g.cuts[i + 1]);
      WindowHi(h, g.cuts[i], g.cuts[i + 1]);
    }
    FlatCuts(g.cuts, |mem|);
  }

  lemma {:induction false} FlatCuts(cuts: seq<nat>, n: nat)
    requires n < |cuts| && forall i :: 0 <= i < n ==> cuts[i] == cuts[i + 1]
    ensures cuts[0] == cuts[n]
  {
    if n > 0 {
      FlatCuts(cuts, n - 1);
    }
  }

  /**
   * Exactly when a snapshot is taken at the last acknowledged operation: when a table in memory
   * holds something, or some segment declares that operation's sequence, or there is none.
   */
  lemma BoundaryIsLastIff(s: State, h: History, floor: nat, g: Cover)
    requires Readable(s, h, floor, g) && !s.job.Moving?
    requires forall i :: 0 <= i < |s.segments| ==> s.segments[i].maxSeq <= LastSequence(h)
    ensures SnapshotBoundary(s) <= LastSequence(h)
    ensures SnapshotBoundary(s) == LastSequence(h) <==> h == [] || MemoryHolds(s) || Declares(s.segments, LastSequence(h))
  {
    TablesBelow(s, h, floor, g);
    assert h != [] ==> LastSequence(h) >= 1;
    if MemoryHolds(s) {
      MemoryReaches(s, h, floor, g);
    }
    hide Readable;
    hide Strict;
    var m := s.frozen + [s.active];
    MaxFrontBelow(m, LastSequence(h));
    BoundaryBound(s.segments, LastSequence(h));
    BoundaryAbove(s.segments);
    BoundaryAttained(s.segments);
    if !MemoryHolds(s) {
      NothingInFront(m);
    }
  }

  lemma SnapshotTakesAllIff(s: State, h: History, floor: nat, g: Cover)
    requires Inv(s, h, floor, g) && !s.job.Moving?
    ensures SnapshotBoundary(s) <= LastSequence(h)
    ensures SnapshotBoundary(s) == LastSequence(h) <==> h == [] || MemoryHolds(s) || Declares(s.segments, LastSequence(h))
  {
    InvReadable(s, h, floor, g);
    AllModest(s, h, floor, g);
    hide Inv;
    TablesBelow(s, h, floor, g);
    hide Readable;
    BoundaryIsLastIff(s, h, floor, g);
  }

  lemma AllModest(s: State, h: History, floor: nat, g: Cover)
    requires Inv(s, h, floor, g)
    ensures forall i :: 0 <= i < |s.segments| ==> Modest(s.segments[i])
  {
    hide SegmentsOK;
    hide MemoryOK;
    hide JobOK;
    hide Modest;
  }

  /** Later operations, all above the snapshot, do not change what it reads. */
  lemma {:induction false} LatestStable(h: History, h': History, k: Key, s: nat)
    requires h <= h' && forall i :: |h| <= i < |h'| ==> h'[i].sequence > s
    ensures Latest(h', k, s) == Latest(h, k, s)
    decreases |h'|
  {
    if |h'| == |h| {
      assert h' == h;
    } else {
      LatestStable(h, h'[..|h'| - 1], k, s);
    }
  }

  lemma {:induction false} HistoryGrows(r: Run, m: nat, n: nat)
    requires |r.states| == |r.events| + 1 && m <= n <= |r.events|
    ensures HistoryAt(r, m) <= HistoryAt(r, n)
    ensures FloorAt(r, m) <= FloorAt(r, n)
    decreases n
  {
    if m < n {
      HistoryGrows(r, m, n - 1);
    }
  }

  /**
   * Snapshot stability. A snapshot held at step `m` gives the same reads at every later step `n`,
   * after any writes, deletes, freezes, flushes, checkpoints, compactions and crashes, as long as
   * no compaction has merged anything above it; and one at the last operation gives what a
   * current read gave at `m`.
   */
  lemma SnapshotStability(r: Run, m: nat, n: nat, k: Key, snapshot: nat)
    requires ValidRun(r) && m <= n <= |r.events|
    requires !r.states[m].job.Moving? && !r.states[n].job.Moving?
    requires FloorAt(r, n) <= snapshot <= LastSequence(HistoryAt(r, m))
    ensures GetAt(r.states[n], snapshot, k) == GetAt(r.states[m], snapshot, k)
    ensures snapshot == LastSequence(HistoryAt(r, m)) ==> GetAt(r.states[m], snapshot, k) == Get(r.states[m], k)
  {
    var h, h' := HistoryAt(r, m), HistoryAt(r, n);
    RunShape(r);
    hide ValidRun;
    hide HistoryAt;
    hide FloorAt;
    hide Inv;
    hide GetAt;
    hide Get;
    RunReads(r, m, k, snapshot);
    RunReads(r, n, k, snapshot);
    RunSequences(r, m);
    RunSequences(r, n);
    HistoryGrows(r, m, n);
    LastIsBelow(h, h', LastSequence(h));
    LatestStable(h, h', k, snapshot);
    if snapshot == LastSequence(h) {
      AllBelowTop(h, k, snapshot);
    }
  }

  /** Whether an append was refused behind frames that still stand in the log. */
  ghost function GapAt(r: Run, n: nat): bool
    requires n <= |r.events| < |r.states|
  {
    if n == 0 then false
    else
      match r.events[n - 1]
      case Reject => GapAt(r, n - 1) || r.states[n - 1].disk.wal != []
      case Truncate => GapAt(r, n - 1) && r.states[n].disk.wal != []
      case Crash(_) => false
      case _ => GapAt(r, n - 1)
  }

  /**
   * Writes are allowed in every run except behind a refused append, until a truncation that empties
   * the log or a reopening closes the gap.
   */
  lemma {:induction false} AlignedIff(r: Run, n: nat)
    requires ValidRun(r) && n <= |r.events|
    ensures Aligned(r.states[n]) <==> !GapAt(r, n)
  {
    hide Inv;
    if n > 0 {
      AlignedIff(r, n - 1);
      var s, e, s' := r.states[n - 1], r.events[n - 1], r.states[n];
      var g := RunInvariant(r, n - 1);
      assert Step(s, e, s') && Allowed(s, e);
      hide ValidRun;
      AlignedStep(s, e, s', HistoryAt(r, n - 1), FloorAt(r, n - 1), g);
    }
  }

  lemma AlignedStep(s: State, e: Event, s': State, h: History, floor: nat, g: Cover)
    requires Inv(s, h, floor, g) && Step(s, e, s') && Allowed(s, e)
    ensures match e
            case Reject => Aligned(s') <==> Aligned(s) && s.disk.wal == []
            case Truncate => Aligned(s') <==> Aligned(s) || s'.disk.wal == []
            case Crash(_) => Aligned(s')
            case _ => Aligned(s') <==> Aligned(s)
  {
    match e
    case Crash(cut) => CrashAligned(s, cut, s', h, floor, g);
    case Truncate =>
      assert LogOK(s.disk.wal, h, g) && HistoryOK(h, s.nextSequence);
      hide Inv;
      TruncateAligned(s, s', h, g);
    case Write(ops) =>
      hide Inv;
      OneNumbered(ops, s.nextSequence, s.active);
    case Reject =>
      assert LogOK(s.disk.wal, h, g) && HistoryOK(h, s.nextSequence);
      hide Inv;
      LogBelow(s, h, g);
    case _ => hide Inv;
  }

  lemma LogBelow(s: State, h: History, g: Cover)
    requires LogOK(s.disk.wal, h, g) && HistoryOK(h, s.nextSequence)
    ensures s.disk.wal != [] ==> LastSequence(s.disk.wal) == LastSequence(h) < s.nextSequence
  {
  }

  lemma TruncateAligned(s: State, s': State, h: History, g: Cover)
    requires LogOK(s.disk.wal, h, g) && HistoryOK(h, s.nextSequence) && TruncateStep(s, s')
    ensures Aligned(s') <==> Aligned(s) || s'.disk.wal == []
  {
    hide KeepAbove;
    SuffixIncreasing(h, g.logStart);
    var i := KeepAboveSuffix(s.disk.wal, s.job.boundary);
  }

  lemma CrashAligned(s: State, cut: nat, s': State, h: History, floor: nat, g: Cover)
    requires Inv(s, h, floor, g) && CrashStep(s, cut, s')
    ensures Aligned(s')
  {
    hide JobOK;
    hide SegmentsOK;
    hide MemoryOK;
    hide FilesOK;
    hide Sortable;
    hide MaxFlushed;
    var d :| CrashImage(s.disk, cut, d) && Opened(d, s');
    RestoredAbove(s.disk.wal, s.disk.manifest, s.disk.synced, cut, h, s.nextSequence, g);
  }

  lemma ReaderMembers(s: State)
    ensures forall i :: 0 <= i < |s.segments| ==> s.segments[i].table in ReaderLayers(s)
    ensures forall i :: 0 <= i < |s.frozen + [s.active]| ==> (s.frozen + [s.active])[i] in ReaderLayers(s)
    ensures forall t :: t in ReaderLayers(s) ==>
              t in s.frozen + [s.active] || exists i :: 0 <= i < |s.segments| && s.segments[i].table == t
  {
    var m, ts := s.frozen + [s.active], Tables(s.segments);
    forall i | 0 <= i < |ts|
      ensures ts[i] in ReaderLayers(s)
    {
      StackIndex(m, ts, |m| + i);
    }
    forall i | 0 <= i < |m|
      ensures m[i] in ReaderLayers(s)
    {
      StackIndex(m, ts, |m| - 1 - i);
    }
    forall j | 0 <= j < |ReaderLayers(s)|
      ensures ReaderLayers(s)[j] in m || exists i :: 0 <= i < |s.segments| && s.segments[i].table == ReaderLayers(s)[j]
    {
      StackIndex(m, ts, j);
      if j >= |m| {
        assert s.segments[j - |m|].table == ReaderLayers(s)[j];
      }
    }
  }

  lemma RunShape(r: Run)
    requires ValidRun(r)
    ensures |r.states| == |r.events| + 1
  {
  }

  lemma LastIsBelow(h: History, h': History, s: nat)
    requires h <= h' && Increasing(h') && s == LastSequence(h) && forall i :: 0 <= i < |h'| ==> 1 <= h'[i].sequence
    ensures forall i :: |h| <= i < |h'| ==> h'[i].sequence > s
    ensures h' != [] && h' == h ==> s <= h'[|h'| - 1].sequence
  {
  }

  lemma AllBelowTop(h: History, k: Key, s: nat)
    requires Increasing(h) && s == LastSequence(h) && s <= LATEST
    ensures Latest(h, k, LATEST) == Latest(h, k, s)
  {
    if Latest(h, k, LATEST).Some? {
      var x := Latest(h, k, LATEST).value;
      var o := Op(x.sequence, k, x.value);
      LatestIsNewest(h, k, s, o);
      var y := Latest(h, k, s).value;
      LatestIsNewest(h, k, LATEST, Op(y.sequence, k, y.value));
      SequencesIdentify(h, o, Op(y.sequence, k, y.value));
    }
  }
}
