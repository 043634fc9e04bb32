/** The invariant of the store machine, and that every step keeps it. */
module Safety {
  import opened Encoding
  import opened Options
  import opened Versions
  import opened Layers
  import opened Compaction
  import opened Machine

  /**
   * How the layers cover the history: the segments cover its first `covered` operations, the
   * memory tables are its windows between the `cuts`, and the log holds it from `logStart` on.
   * After a recovery the lowest window may start below `covered`: what was flushed but not yet
   * truncated is in the log as well.
   */
  datatype Cover = Cover(covered: nat, cuts: seq<nat>, logStart: nat)

  function MemTables(s: State): (r: seq<Table>)
    ensures |r| > 0
  {
    Popped(s.job) + s.frozen + [s.active]
  }

  ghost predicate HistoryOK(h: History, next: nat)
  {
    && Increasing(h)
    && 1 <= next <= U64_MAX
    && forall i :: 0 <= i < |h| ==> 1 <= h[i].sequence < next
  }

  ghost predicate LogOK(wal: History, h: History, g: Cover)
  {
    && g.logStart <= g.covered <= |h|
    && wal == h[g.logStart..]
    && Consecutive(wal)
  }

  ghost predicate MemoryOK(mem: seq<Table>, h: History, g: Cover)
  {
    && Windows(mem, g.cuts, h)
    && |mem| > 0
    && g.cuts[0] <= g.covered <= g.cuts[1]
  }

  /** The open segments are distinct and read from existing files of used numbers. */
  ghost predicate FilesOK(segments: seq<Seg>, files: map<nat, Seg>, nextSegId: nat)
  {
    && DistinctIds(segments)
    && forall i :: 0 <= i < |segments| ==>
         && segments[i].id < nextSegId
         && segments[i].id in files && files[segments[i].id] == segments[i]
  }

  ghost predicate SegmentsOK(segments: seq<Seg>, h: History, floor: nat, covered: nat)
  {
    covered <= |h| && LayersOK(Tables(segments), h[..covered], floor)
  }

  /** Sorting the segments by what they declare, ties either way, puts no older answer in front of a newer one. */
  ghost predicate Sortable(segments: seq<Seg>, floor: nat)
  {
    && (forall i :: 0 <= i < |segments| ==> Modest(segments[i]))
    && forall i, j :: 0 <= i < |segments| && 0 <= j < |segments| && segments[i].maxSeq >= segments[j].maxSeq ==>
         Precedes(segments[i].table, segments[j].table, floor)
  }

  ghost predicate ManifestOK(m: Manifest, synced: nat, logEmpty: bool, last: nat)
  {
    && synced <= |m|
    && (forall i :: 0 <= i < |m| ==> RecordSequence(m[i]) <= last)
    && (logEmpty ==> MaxFlushed(m[..synced]) >= last)
  }

  /** The manifest is synced and names exactly the open segments. */
  ghost predicate Settled(m: Manifest, synced: nat, segments: seq<Seg>)
  {
    synced == |m| && LiveIds(m) == Ids(segments)
  }

  /** The manifest is such a settled one followed by `records`, of which any part may be synced. */
  ghost predicate Publishing(m: Manifest, synced: nat, segments: seq<Seg>, records: Manifest)
  {
    var n := |m| - |records|;
    && 0 <= n <= synced <= |m|
    && m[n..] == records
    && LiveIds(m[..n]) == Ids(segments)
  }

  /** A written segment file that no manifest record names yet. */
  ghost predicate FreshFile(files: map<nat, Seg>, segments: seq<Seg>, nextSegId: nat, seg: Seg)
  {
    seg.id < nextSegId && seg.id !in Ids(segments) && seg.id in files && files[seg.id] == seg
  }

  ghost predicate MovedOK(files: map<nat, Seg>, segments: seq<Seg>, nextSegId: nat, tables: seq<Table>, segs: seq<Seg>)
  {
    && |segs| == |tables| && DistinctIds(segs)
    && forall i :: 0 <= i < |segs| ==>
         && segs[i].table == tables[i] && segs[i].maxSeq == Hi(tables[i])
         && FreshFile(files, segments, nextSegId, segs[i])
  }

  ghost predicate MergedOf(merged: Seg, segments: seq<Seg>, h: History, covered: nat)
  {
    && covered <= |h| && segments != []
    && (exists keep :: merged.table == Merged(Tables(segments), keep))
    && merged.maxSeq == segments[0].maxSeq && Modest(merged)
    && Hi(merged.table) == LastSequence(h[..covered])
  }

  ghost predicate TruncatingOK(boundary: nat, m: Manifest, h: History, covered: nat)
  {
    && boundary <= MaxFlushed(m) && boundary <= LastSequence(h)
    && (boundary > 0 ==> 0 < covered <= |h| && h[covered - 1].sequence == boundary)
    && forall i :: covered <= i < |h| ==> h[i].sequence > boundary
  }

  /** What holds of the manifest, the files and the segments at the point the job has reached. */
  ghost predicate JobOK(j: Job, m: Manifest, synced: nat, files: map<nat, Seg>, segments: seq<Seg>, nextSegId: nat,
                        h: History, floor: nat, covered: nat)
  {
    match j
    case Idle => Settled(m, synced, segments)
    case Moving(tables, segs, _, stage) =>
      && tables != []
      && (stage != Taken ==> MovedOK(files, segments, nextSegId, tables, segs))
      && (if stage == Registered then Publishing(m, synced, segments, MoveRecords(j)) else Settled(m, synced, segments))
    case Truncating(boundary) =>
      Settled(m, synced, segments) && TruncatingOK(boundary, m, h, covered)
    case Compacting(merged, stage) =>
      && MergedOf(merged, segments, h, covered) && FreshFile(files, segments, nextSegId, merged)
      && (if stage == Registered then Publishing(m, synced, segments, MergeRecords(merged, segments)) && floor >= Hi(merged.table)
          else Settled(m, synced, segments))
    case Deleting(gone) =>
      Settled(m, synced, segments) && gone !! Ids(segments)
  }

  ghost predicate Inv(s: State, h: History, floor: nat, g: Cover)
  {
    && HistoryOK(h, s.nextSequence)
    && LogOK(s.disk.wal, h, g)
    && MemoryOK(MemTables(s), h, g)
    && SegmentsOK(s.segments, h, floor, g.covered)
    && Sortable(s.segments, floor)
    && FilesOK(s.segments, s.disk.files, s.nextSegId)
    && ManifestOK(s.disk.manifest, s.disk.synced, s.disk.wal == [], LastSequence(h))
    && JobOK(s.job, s.disk.manifest, s.disk.synced, s.disk.files, s.segments, s.nextSegId, h, floor, g.covered)
    && floor <= LastSequence(h)
  }

  // -------------------------------------------------------------------------
  // What the invariant gives to readers
  // -------------------------------------------------------------------------

  /** The part of the invariant that reads depend on. */
  ghost predicate Readable(s: State, h: History, floor: nat, g: Cover)
  {
    && HistoryOK(h, s.nextSequence)
    && MemoryOK(MemTables(s), h, g)
    && SegmentsOK(s.segments, h, floor, g.covered)
    && floor <= LastSequence(h)
  }

  lemma InvReadable(s: State, h: History, floor: nat, g: Cover)
    requires Inv(s, h, floor, g)
    ensures Readable(s, h, floor, g)
  {
    hide HistoryOK;
    hide MemoryOK;
    hide SegmentsOK;
    hide JobOK;
  }

  lemma SegmentFacts(s: State, h: History, floor: nat, g: Cover)
    requires Inv(s, h, floor, g)
    ensures FilesOK(s.segments, s.disk.files, s.nextSegId) && SegmentsOK(s.segments, h, floor, g.covered)
    ensures Sortable(s.segments, floor) && HistoryOK(h, s.nextSequence) && floor <= LATEST
  {
    hide FilesOK;
    hide SegmentsOK;
    hide Sortable;
    hide MemoryOK;
    hide LogOK;
    hide ManifestOK;
    hide JobOK;
  }

  lemma LogFacts(s: State, h: History, floor: nat, g: Cover)
    requires Inv(s, h, floor, g)
    ensures LogOK(s.disk.wal, h, g) && HistoryOK(h, s.nextSequence)
  {
    hide FilesOK;
    hide SegmentsOK;
    hide Sortable;
    hide MemoryOK;
    hide LogOK;
    hide ManifestOK;
    hide JobOK;
  }

  /** All layers together, popped tables included, cover the history. */
  lemma AllLayersOK(s: State, h: History, floor: nat, g: Cover)
    requires Readable(s, h, floor, g)
    ensures LayersOK(AllLayers(s), h, floor)
  {
    assert h[..|h|] == h;
    StackOK(MemTables(s), g.cuts, Tables(s.segments), h, g.covered, floor);
  }

  // -------------------------------------------------------------------------
  // Auxiliary facts
  // -------------------------------------------------------------------------

  lemma {:induction false} MaxFlushedAppend(m: Manifest, n: Manifest)
    ensures MaxFlushed(m + n) == if MaxFlushed(n) > MaxFlushed(m) then MaxFlushed(n) else MaxFlushed(m)
  {
    if n == [] {
      assert m + n == m;
    } else {
      MaxFlushedAppend(m, n[..|n| - 1]);
      assert (m + n)[..|m + n| - 1] == m + n[..|n| - 1];
    }
  }

  lemma {:induction false} MaxFlushedBound(m: Manifest, b: nat)
    requires forall i :: 0 <= i < |m| ==> RecordSequence(m[i]) <= b
    ensures MaxFlushed(m) <= b
  {
    if m != [] {
      MaxFlushedBound(m[..|m| - 1], b);
    }
  }

  lemma WindowPrefix(h: History, h': History, a: nat, b: nat)
    requires a <= b <= |h| && h <= h'
    ensures Window(h, a, b) == Window(h', a, b)
  {
    assert h[a..b] == h'[a..b];
  }

  // -------------------------------------------------------------------------
  // Writes
  // -------------------------------------------------------------------------

  lemma OneNumbered(ops: seq<(Key, EntryValue)>, first: nat, t: Table)
    requires |ops| == 1
    ensures Numbered(ops, first) == [Op(first, ops[0].0, ops[0].1)]
    ensures PushAll(t, Numbered(ops, first)) == Push(t, ops[0].0, VersionedEntry(first, ops[0].1))
  {
    var o := Op(first, ops[0].0, ops[0].1);
    assert Numbered(ops, first) == [o];
    assert PushAll(Push(t, o.key, Version(o)), [o][1..]) == Push(t, o.key, Version(o));
  }

  lemma WindowPush(h: History, a: nat, o: Op)
    requires a <= |h|
    ensures Window(h + [o], a, |h| + 1) == Push(Window(h, a, |h|), o.key, Version(o))
  {
    var w := (h + [o])[a..|h| + 1];
    assert w == h[a..|h|] + [o];
    assert w[..|w| - 1] == h[a..|h|];
  }

  /** Pushing the next operation onto the last window extends that window. */
  lemma WindowsWrite(mem: seq<Table>, cuts: seq<nat>, h: History, o: Op)
    requires Windows(mem, cuts, h) && mem != []
    ensures var n := |mem| - 1;
            Windows(mem[..n] + [Push(mem[n], o.key, Version(o))], cuts[..n + 1] + [|h| + 1], h + [o])
  {
    var n := |mem| - 1;
    var mem', cuts', h' := mem[..n] + [Push(mem[n], o.key, Version(o))], cuts[..n + 1] + [|h| + 1], h + [o];
    forall i | 0 <= i < |mem'|
      ensures cuts'[i] <= cuts'[i + 1] && mem'[i] == Window(h', cuts'[i], cuts'[i + 1])
    {
      if i < n {
        WindowPrefix(h, h', cuts[i], cuts[i + 1]);
      } else {
        WindowPush(h, cuts[n], o);
      }
    }
  }

  lemma WriteHistory(h: History, o: Op, next: nat)
    requires HistoryOK(h, next) && o.sequence == next < U64_MAX
    ensures HistoryOK(h + [o], next + 1)
    ensures LastSequence(h) < LastSequence(h + [o]) == next
  {
  }

  lemma WriteLog(wal: History, h: History, o: Op, g: Cover, g': Cover)
    requires LogOK(wal, h, g) && (wal == [] || o.sequence == LastSequence(wal) + 1)
    requires g'.covered == g.covered && g'.logStart == g.logStart
    ensures LogOK(wal + [o], h + [o], g')
  {
    if wal != [] {
      assert wal[|wal| - 1] == h[|h| - 1];
    }
  }

  function WriteCover(h: History, g: Cover): Cover
  {
    if g.cuts == [] then g else g.(cuts := g.cuts[..|g.cuts| - 1] + [|h| + 1])
  }

  lemma WriteMemory(s: State, s': State, h: History, o: Op, g: Cover)
    requires MemoryOK(MemTables(s), h, g)
    requires s'.active == Push(s.active, o.key, Version(o)) && s'.frozen == s.frozen && s'.job == s.job
    ensures MemoryOK(MemTables(s'), h + [o], WriteCover(h, g))
  {
    var mem := MemTables(s);
    WindowsWrite(mem, g.cuts, h, o);
    assert mem[|mem| - 1] == s.active;
    assert MemTables(s') == mem[..|mem| - 1] + [s'.active];
  }

  lemma WriteJob(j: Job, m: Manifest, synced: nat, files: map<nat, Seg>, segments: seq<Seg>, nextSegId: nat,
                 h: History, o: Op, floor: nat, covered: nat)
    requires JobOK(j, m, synced, files, segments, nextSegId, h, floor, covered)
    requires o.sequence > LastSequence(h)
    ensures JobOK(j, m, synced, files, segments, nextSegId, h + [o], floor, covered)
  {
    hide Settled;
    hide Publishing;
    hide MovedOK;
    hide FreshFile;
    hide Merged;
    if covered <= |h| {
      assert (h + [o])[..covered] == h[..covered];
    }
  }

  lemma WriteKeeps(s: State, ops: seq<(Key, EntryValue)>, s': State, h: History, floor: nat, g: Cover)
    requires Inv(s, h, floor, g) && WriteStep(s, ops, s') && |ops| == 1 && Aligned(s)
    ensures Inv(s', h + Numbered(ops, s.nextSequence), floor, WriteCover(h, g))
  {
    hide SegmentsOK;
    hide Sortable;
    hide MemoryOK;
    hide JobOK;
    hide FilesOK;
    hide LogOK;
    hide HistoryOK;
    hide ManifestOK;
    hide MemTables;
    hide PushAll;
    hide Numbered;
    var o := Op(s.nextSequence, ops[0].0, ops[0].1);
    OneNumbered(ops, s.nextSequence, s.active);
    WriteHistory(h, o, s.nextSequence);
    WriteLog(s.disk.wal, h, o, g, WriteCover(h, g));
    WriteMemory(s, s', h, o, g);
    CoveredBefore(s.segments, h, o, floor, g.covered);
    WriteManifest(s.disk.manifest, s.disk.synced, s.disk.wal, h, o);
    WriteJob(s.job, s.disk.manifest, s.disk.synced, s.disk.files, s.segments, s.nextSegId, h, o, floor, g.covered);
  }

  lemma CoveredBefore(segments: seq<Seg>, h: History, o: Op, floor: nat, covered: nat)
    requires SegmentsOK(segments, h, floor, covered)
    ensures SegmentsOK(segments, h + [o], floor, covered)
  {
    hide LayersOK;
    assert (h + [o])[..covered] == h[..covered];
  }

  lemma WriteManifest(m: Manifest, synced: nat, wal: History, h: History, o: Op)
    requires ManifestOK(m, synced, wal == [], LastSequence(h)) && o.sequence > LastSequence(h)
    ensures ManifestOK(m, synced, wal + [o] == [], LastSequence(h + [o]))
  {
  }

  lemma RejectKeeps(s: State, s': State, h: History, floor: nat, g: Cover)
    requires Inv(s, h, floor, g) && RejectStep(s, s')
    ensures Inv(s', h, floor, g)
  {
    hide SegmentsOK;
    hide Sortable;
    hide MemoryOK;
    hide JobOK;
    hide FilesOK;
  }

  lemma FreezeMemory(mem: seq<Table>, h: History, g: Cover)
    requires MemoryOK(mem, h, g)
    ensures MemoryOK(mem + [map[]], h, g.(cuts := g.cuts + [|h|]))
  {
    assert h[|h|..|h|] == [];
    assert Window(h, |h|, |h|) == map[];
  }

  lemma FreezeKeeps(s: State, s': State, h: History, floor: nat, g: Cover)
    requires Inv(s, h, floor, g) && FreezeStep(s, s')
    ensures Inv(s', h, floor, g.(cuts := g.cuts + [|h|]))
  {
    hide SegmentsOK;
    hide Sortable;
    hide MemoryOK;
    hide JobOK;
    hide FilesOK;
    hide ManifestOK;
    FreezeMemory(MemTables(s), h, g);
    assert MemTables(s') == MemTables(s) + [map[]];
  }

  // -------------------------------------------------------------------------
  // Flush and checkpoint
  // -------------------------------------------------------------------------

  lemma TakeKeeps(s: State, n: nat, checkpoint: bool, s': State, h: History, floor: nat, g: Cover)
    requires Inv(s, h, floor, g) && TakeStep(s, n, checkpoint, s')
    ensures Inv(s', h, floor, g)
  {
    hide SegmentsOK;
    hide Sortable;
    hide MemoryOK;
    hide FilesOK;
    hide ManifestOK;
    assert s.frozen[..n] + s.frozen[n..] == s.frozen;
    assert MemTables(s') == MemTables(s);
  }

  lemma {:induction false} FilesOfHas(segs: seq<Seg>)
    requires DistinctIds(segs)
    ensures FilesOf(segs).Keys == Ids(segs)
    ensures forall i :: 0 <= i < |segs| ==> FilesOf(segs)[segs[i].id] == segs[i]
  {
    if segs != [] {
      var n := |segs| - 1;
      FilesOfHas(segs[..n]);
      assert segs == segs[..n] + [segs[n]];
    }
  }

  lemma NewIds(tables: seq<Table>, first: nat, segs: seq<Seg>)
    requires SegmentsFor(tables, first, segs)
    ensures DistinctIds(segs)
    ensures forall id :: id in Ids(segs) ==> first <= id < first + |segs|
  {
    hide SortedVersion;
  }

  lemma NewFiles(files: map<nat, Seg>, segments: seq<Seg>, nextSegId: nat, tables: seq<Table>, segs: seq<Seg>)
    requires FilesOK(segments, files, nextSegId) && SegmentsFor(tables, nextSegId, segs)
    ensures FilesOK(segments, files + FilesOf(segs), nextSegId + |segs|)
    ensures forall i :: 0 <= i < |segs| ==> FreshFile(files + FilesOf(segs), segments, nextSegId + |segs|, segs[i])
    ensures DistinctIds(segs)
  {
    hide Truthful;
    hide FilesOf;
    hide SegmentsFor;
    NewIds(tables, nextSegId, segs);
    FilesOfHas(segs);
    forall i | 0 <= i < |segs|
      ensures FreshFile(files + FilesOf(segs), segments, nextSegId + |segs|, segs[i])
    {
      assert segs[i].id in Ids(segs);
    }
    forall i | 0 <= i < |segments|
      ensures segments[i].id in files + FilesOf(segs) && (files + FilesOf(segs))[segments[i].id] == segments[i]
    {
      assert segments[i].id !in FilesOf(segs).Keys;
    }
  }

  /** Memory tables are strict, so the files hold exactly them, and declare their true maxima. */
  lemma WrittenTables(s: State, h: History, g: Cover, segs: seq<Seg>)
    requires MemoryOK(MemTables(s), h, g) && Increasing(h) && s.job.Moving?
    requires SegmentsFor(s.job.tables, s.nextSegId, segs)
    ensures forall i :: 0 <= i < |segs| ==> segs[i].table == s.job.tables[i] && segs[i].maxSeq == Hi(s.job.tables[i])
  {
    hide SortedVersion;
    var mem := MemTables(s);
    forall i | 0 <= i < |segs|
      ensures segs[i].table == s.job.tables[i] && segs[i].maxSeq == Hi(s.job.tables[i])
    {
      assert mem[i] == s.job.tables[i];
      WindowStrict(h, g.cuts[i], g.cuts[i + 1]);
      FrontMaxIsHi(mem[i]);
      SortedVersionOfStrict(segs[i].table, mem[i]);
    }
  }

  lemma WindowStrict(h: History, a: nat, b: nat)
    requires Increasing(h) && a <= b <= |h|
    ensures Strict(Window(h, a, b))
  {
    TableOfStrict(h[a..b]);
  }

  lemma WriteSegmentsKeeps(s: State, s': State, h: History, floor: nat, g: Cover)
    requires Inv(s, h, floor, g) && WriteSegmentsStep(s, s')
    ensures Inv(s', h, floor, g)
  {
    hide SegmentsOK;
    hide Sortable;
    hide MemoryOK;
    hide LogOK;
    hide ManifestOK;
    hide FilesOK;
    hide FreshFile;
    hide Settled;
    hide SegmentsFor;
    var segs := s'.job.segs;
    NewFiles(s.disk.files, s.segments, s.nextSegId, s.job.tables, segs);
    WrittenTables(s, h, g, segs);
    WrittenLength(s, segs);
    assert MemTables(s') == MemTables(s);
  }

  lemma WrittenLength(s: State, segs: seq<Seg>)
    requires s.job.Moving? && SegmentsFor(s.job.tables, s.nextSegId, segs)
    ensures |segs| == |s.job.tables|
  {
  }

  lemma CutsMonotone(mem: seq<Table>, cuts: seq<nat>, h: History, i: nat, j: nat)
    requires Windows(mem, cuts, h) && i <= j <= |mem|
    ensures cuts[i] <= cuts[j]
    decreases j
  {
    if i < j {
      CutsMonotone(mem, cuts, h, i, j - 1);
    }
  }

  /** No window among the first `n` reaches beyond the operation before cut `n`. */
  lemma WindowsBelow(mem: seq<Table>, cuts: seq<nat>, h: History, n: nat, b: nat)
    requires Windows(mem, cuts, h) && Increasing(h) && n <= |mem|
    requires cuts[n] > 0 ==> h[cuts[n] - 1].sequence <= b
    ensures forall i :: 0 <= i < n ==> Hi(mem[i]) <= b
  {
    forall i | 0 <= i < n
      ensures Hi(mem[i]) <= b
    {
      CutsMonotone(mem, cuts, h, i + 1, n);
      assert mem[i] == Window(h, cuts[i], cuts[i + 1]);
      WindowHi(h, cuts[i], cuts[i + 1]);
    }
  }

  lemma {:induction false} BoundaryBound(segs: seq<Seg>, b: nat)
    requires forall i :: 0 <= i < |segs| ==> segs[i].maxSeq <= b
    ensures Boundary(segs) <= b
  {
    if segs != [] {
      BoundaryBound(segs[..|segs| - 1], b);
    }
  }

  /** What the popped tables hold is at or below the operation before the cut that ends them. */
  lemma PoppedBelow(s: State, h: History, g: Cover, b: nat)
    requires MemoryOK(MemTables(s), h, g) && Increasing(h) && s.job.Moving?
    requires MovedOK(s.disk.files, s.segments, s.nextSegId, s.job.tables, s.job.segs)
    requires var c := g.cuts[|s.job.tables|]; c > 0 ==> h[c - 1].sequence <= b
    ensures forall i :: 0 <= i < |s.job.segs| ==> s.job.segs[i].maxSeq <= b
    ensures Boundary(s.job.segs) <= b
  {
    var mem, n := MemTables(s), |s.job.tables|;
    WindowsBelow(mem, g.cuts, h, n, b);
    forall i | 0 <= i < n
      ensures s.job.segs[i].maxSeq <= b
    {
      assert mem[i] == s.job.tables[i];
    }
    BoundaryBound(s.job.segs, b);
  }

  lemma MoveRecordsBelow(s: State, h: History, g: Cover)
    requires MemoryOK(MemTables(s), h, g) && Increasing(h) && s.job.Moving?
    requires MovedOK(s.disk.files, s.segments, s.nextSegId, s.job.tables, s.job.segs)
    ensures forall i :: 0 <= i < |MoveRecords(s.job)| ==> RecordSequence(MoveRecords(s.job)[i]) <= LastSequence(h)
  {
    var c := g.cuts[|s.job.tables|];
    assert c <= |h|;
    PoppedBelow(s, h, g, LastSequence(h));
  }

  /** Appending unsynced records that name no sequence above the last. */
  lemma AppendRecords(m: Manifest, synced: nat, segments: seq<Seg>, records: Manifest, logEmpty: bool, last: nat)
    requires ManifestOK(m, synced, logEmpty, last) && Settled(m, synced, segments)
    requires forall i :: 0 <= i < |records| ==> RecordSequence(records[i]) <= last
    ensures ManifestOK(m + records, synced, logEmpty, last)
    ensures Publishing(m + records, synced, segments, records)
  {
    assert (m + records)[..synced] == m[..synced];
    assert (m + records)[|m|..] == records && (m + records)[..|m|] == m;
  }

  lemma RegisterKeeps(s: State, s': State, h: History, floor: nat, g: Cover)
    requires Inv(s, h, floor, g) && RegisterStep(s, s')
    ensures Inv(s', h, floor, g)
  {
    hide SegmentsOK;
    hide Sortable;
    hide LogOK;
    hide FilesOK;
    hide MemoryOK;
    hide MovedOK;
    hide ManifestOK;
    hide Settled;
    hide Publishing;
    MoveRecordsBelow(s, h, g);
    assert MemTables(s') == MemTables(s);
    AppendRecords(s.disk.manifest, s.disk.synced, s.segments, MoveRecords(s.job), s.disk.wal == [], LastSequence(h));
    assert MoveRecords(s'.job) == MoveRecords(s.job);
  }

  lemma SyncJob(j: Job, m: Manifest, synced: nat, files: map<nat, Seg>, segments: seq<Seg>, nextSegId: nat,
                h: History, floor: nat, covered: nat)
    requires JobOK(j, m, synced, files, segments, nextSegId, h, floor, covered)
    ensures JobOK(j, m, |m|, files, segments, nextSegId, h, floor, covered)
  {
    hide MovedOK;
    hide FreshFile;
    hide MergedOf;
    hide LiveIds;
  }

  lemma SyncKeeps(s: State, s': State, h: History, floor: nat, g: Cover)
    requires Inv(s, h, floor, g) && SyncStep(s, s')
    ensures Inv(s', h, floor, g)
  {
    hide SegmentsOK;
    hide Sortable;
    hide LogOK;
    hide FilesOK;
    hide MemoryOK;
    hide JobOK;
    var m, n := s.disk.manifest, s.disk.synced;
    MaxFlushedAppend(m[..n], m[n..]);
    assert m[..n] + m[n..] == m && m[..|m|] == m;
    SyncJob(s.job, m, n, s.disk.files, s.segments, s.nextSegId, h, floor, g.covered);
  }

  lemma {:induction false} LiveIdsAdds(m: Manifest, segs: seq<Seg>)
    ensures LiveIds(m + AddRecords(segs)) == LiveIds(m) + Ids(segs)
  {
    if segs == [] {
      assert m + AddRecords(segs) == m;
    } else {
      var n := |segs| - 1;
      LiveIdsAdds(m, segs[..n]);
      assert (m + AddRecords(segs))[..|m| + n] == m + AddRecords(segs[..n]);
      assert segs == segs[..n] + [segs[n]];
    }
  }

  lemma LiveIdsMove(m: Manifest, j: Job)
    requires j.Moving?
    ensures LiveIds(m + MoveRecords(j)) == LiveIds(m) + Ids(j.segs)
    ensures j.checkpoint ==> MaxFlushed(m + MoveRecords(j)) >= Boundary(j.segs)
  {
    LiveIdsAdds(m, j.segs);
    if j.checkpoint {
      var a := m + AddRecords(j.segs);
      assert m + MoveRecords(j) == a + [SetWalCheckpoint(Boundary(j.segs))];
      assert (m + MoveRecords(j))[..|a|] == a;
    } else {
      assert MoveRecords(j) == AddRecords(j.segs);
    }
  }

  lemma {:induction false} StackIndex<T>(mem: seq<T>, below: seq<T>, i: nat)
    requires i < |mem| + |below|
    ensures Stack(mem, below)[i] == if i < |mem| then mem[|mem| - 1 - i] else below[i - |mem|]
  {
    if mem != [] {
      StackIndex(mem[1..], [mem[0]] + below, i);
    }
  }

  lemma StackTables(segs: seq<Seg>, below: seq<Seg>)
    ensures Tables(Stack(segs, below)) == Stack(Tables(segs), Tables(below))
  {
    forall i | 0 <= i < |segs| + |below|
      ensures Tables(Stack(segs, below))[i] == Stack(Tables(segs), Tables(below))[i]
    {
      StackIndex(segs, below, i);
      StackIndex(Tables(segs), Tables(below), i);
    }
  }

  lemma StackIds(segs: seq<Seg>, below: seq<Seg>)
    ensures Ids(Stack(segs, below)) == Ids(segs) + Ids(below)
    ensures forall x :: x in Stack(segs, below) <==> x in segs || x in below
  {
    forall i | 0 <= i < |segs| + |below|
      ensures Stack(segs, below)[i] in segs || Stack(segs, below)[i] in below
    {
      StackIndex(segs, below, i);
    }
    forall i | 0 <= i < |segs|
      ensures segs[i] in Stack(segs, below)
    {
      StackIndex(segs, below, |segs| - 1 - i);
    }
    forall i | 0 <= i < |below|
      ensures below[i] in Stack(segs, below)
    {
      StackIndex(segs, below, |segs| + i);
    }
  }

  lemma StackDistinct(segs: seq<Seg>, below: seq<Seg>)
    requires DistinctIds(segs) && DistinctIds(below) && Ids(segs) !! Ids(below)
    ensures DistinctIds(Stack(segs, below))
  {
    var all := Stack(segs, below);
    forall i, j | 0 <= i < j < |all|
      ensures all[i].id != all[j].id
    {
      StackIndex(segs, below, i);
      StackIndex(segs, below, j);
      if i < |segs| <= j {
        assert all[i].id in Ids(segs) && all[j].id in Ids(below);
      }
    }
  }

  /** A batch of moved segments, or its first part, published on top of the open ones. */
  lemma MovedFiles(files: map<nat, Seg>, segments: seq<Seg>, nextSegId: nat, tables: seq<Table>, segs: seq<Seg>, n: nat)
    requires MovedOK(files, segments, nextSegId, tables, segs) && FilesOK(segments, files, nextSegId) && n <= |segs|
    ensures FilesOK(Stack(segs[..n], segments), files, nextSegId)
  {
    var some, all := segs[..n], Stack(segs[..n], segments);
    assert Ids(some) !! Ids(segments);
    StackDistinct(some, segments);
    StackIds(some, segments);
    forall i | 0 <= i < |all|
      ensures all[i].id < nextSegId && all[i].id in files && files[all[i].id] == all[i]
    {
      assert all[i] in all;
    }
  }

  /** The segments hold the tables. */
  ghost predicate Hold(segs: seq<Seg>, tables: seq<Table>)
  {
    |segs| == |tables| && forall i :: 0 <= i < |segs| ==> segs[i].table == tables[i]
  }

  lemma MovedLayers(s: State, h: History, floor: nat, g: Cover, n: nat)
    requires HistoryOK(h, s.nextSequence) && MemoryOK(MemTables(s), h, g)
    requires SegmentsOK(s.segments, h, floor, g.covered)
    requires s.job.Moving? && Hold(s.job.segs, s.job.tables) && 0 < n <= |s.job.segs|
    ensures n < |g.cuts| && g.covered <= g.cuts[n] <= |h|
    ensures SegmentsOK(Stack(s.job.segs[..n], s.segments), h, floor, g.cuts[n])
  {
    var mem, some := MemTables(s), s.job.segs[..n];
    CutsMonotone(mem, g.cuts, h, 1, n);
    StackTables(some, s.segments);
    forall i | 0 <= i < n
      ensures Tables(some)[i] == mem[i]
    {
    }
    StackOK(Tables(some), g.cuts[..n + 1], Tables(s.segments), h, g.covered, floor);
  }

  /** Segments that declare their true maximum may go on top, if that keeps the list in order. */
  lemma StackSortable(segs: seq<Seg>, below: seq<Seg>, h: History, floor: nat)
    requires LayersOK(Tables(Stack(segs, below)), h, floor) && Sortable(below, floor)
    requires forall i :: 0 <= i < |segs| ==> Truthful(segs[i])
    ensures Sortable(Stack(segs, below), floor)
  {
    var all, n := Stack(segs, below), |segs|;
    var ts := Tables(all);
    hide Stack;
    hide Precedes;
    hide LayerOK;
    forall i | 0 <= i < |all|
      ensures Modest(all[i]) && (i < n ==> Truthful(all[i])) && (i >= n ==> all[i] == below[i - n])
    {
      StackIndex(segs, below, i);
    }
    forall i, j | 0 <= i < |all| && 0 <= j < |all| && all[i].maxSeq >= all[j].maxSeq
      ensures Precedes(all[i].table, all[j].table, floor)
    {
      if i < j {
        assert Precedes(ts[i], ts[j], floor);
      } else if j < n {
        HigherPrecedes(ts[i], ts[j], h, floor);
      }
    }
  }

  lemma MovedTruthful(s: State, n: nat)
    requires s.job.Moving? && MovedOK(s.disk.files, s.segments, s.nextSegId, s.job.tables, s.job.segs) && n <= |s.job.segs|
    ensures forall i :: 0 <= i < n ==> Truthful(s.job.segs[..n][i])
  {
  }

  lemma MovedSortable(s: State, h: History, floor: nat, n: nat, covered: nat)
    requires s.job.Moving? && MovedOK(s.disk.files, s.segments, s.nextSegId, s.job.tables, s.job.segs) && n <= |s.job.segs|
    requires Sortable(s.segments, floor) && SegmentsOK(Stack(s.job.segs[..n], s.segments), h, floor, covered)
    ensures Sortable(Stack(s.job.segs[..n], s.segments), floor)
  {
    hide Sortable;
    hide LayersOK;
    MovedTruthful(s, n);
    hide MovedOK;
    StackSortable(s.job.segs[..n], s.segments, h[..covered], floor);
  }

  function PublishCover(g: Cover, n: nat): Cover
  {
    if n < |g.cuts| then Cover(g.cuts[n], g.cuts[n..], g.logStart) else g
  }

  lemma PublishMemory(s: State, s': State, h: History, g: Cover)
    requires MemoryOK(MemTables(s), h, g) && s.job.Moving?
    requires s'.frozen == s.frozen && s'.active == s.active && !s'.job.Moving?
    ensures MemoryOK(MemTables(s'), h, PublishCover(g, |s.job.tables|))
  {
    var n, mem := |s.job.tables|, MemTables(s);
    assert MemTables(s') == mem[n..];
    var mem', cuts' := mem[n..], g.cuts[n..];
    forall i | 0 <= i < |mem'|
      ensures cuts'[i] <= cuts'[i + 1] && mem'[i] == Window(h, cuts'[i], cuts'[i + 1])
    {
      assert cuts'[i] == g.cuts[n + i] && cuts'[i + 1] == g.cuts[n + i + 1] && mem'[i] == mem[n + i];
    }
  }

  lemma PublishedManifest(m: Manifest, j: Job, segments: seq<Seg>)
    requires j.Moving? && Publishing(m, |m|, segments, MoveRecords(j))
    ensures Settled(m, |m|, Stack(j.segs, segments))
    ensures j.checkpoint ==> MaxFlushed(m) >= Boundary(j.segs)
  {
    var n := |m| - |MoveRecords(j)|;
    assert m == m[..n] + MoveRecords(j);
    LiveIdsMove(m[..n], j);
    StackIds(j.segs, segments);
  }

  /** The boundary of moved windows is the last operation before the cut that ends them. */
  lemma {:induction false} BoundaryOfWindows(segs: seq<Seg>, mem: seq<Table>, cuts: seq<nat>, h: History)
    requires Windows(mem, cuts, h) && Increasing(h) && |segs| <= |mem|
    requires forall i :: 0 <= i < |segs| ==> segs[i].maxSeq == Hi(mem[i])
    ensures cuts[0] <= cuts[|segs|] <= |h|
    ensures Boundary(segs) == if cuts[0] < cuts[|segs|] then h[cuts[|segs|] - 1].sequence else 0
  {
    if segs != [] {
      var n := |segs| - 1;
      BoundaryOfWindows(segs[..n], mem, cuts, h);
      assert mem[n] == Window(h, cuts[n], cuts[n + 1]);
      WindowHi(h, cuts[n], cuts[n + 1]);
    }
  }

  lemma MovedMaxima(s: State)
    requires s.job.Moving? && MovedOK(s.disk.files, s.segments, s.nextSegId, s.job.tables, s.job.segs)
    ensures |s.job.segs| == |s.job.tables| <= |MemTables(s)|
    ensures forall i :: 0 <= i < |s.job.segs| ==> s.job.segs[i].maxSeq == Hi(MemTables(s)[i])
  {
    hide FreshFile;
    hide Hi;
    forall i | 0 <= i < |s.job.segs|
      ensures s.job.segs[i].maxSeq == Hi(MemTables(s)[i])
    {
      assert MemTables(s)[i] == s.job.tables[i];
    }
  }

  /** A boundary that ends at a cut leaves nothing at or below it beyond the cut. */
  lemma TruncatesAt(boundary: nat, m: Manifest, h: History, next: nat, start: nat, covered: nat)
    requires HistoryOK(h, next) && start <= covered <= |h| && MaxFlushed(m) >= boundary
    requires boundary == if start < covered then h[covered - 1].sequence else 0
    ensures TruncatingOK(boundary, m, h, covered)
  {
    hide MaxFlushed;
    assert h != [] ==> LastSequence(h) == h[|h| - 1].sequence;
  }

  lemma CoverBelow(s: State, h: History, g: Cover)
    requires HistoryOK(h, s.nextSequence) && MemoryOK(MemTables(s), h, g) && s.job.Moving?
    requires MovedOK(s.disk.files, s.segments, s.nextSegId, s.job.tables, s.job.segs)
    requires s.job.checkpoint ==> MaxFlushed(s.disk.manifest) >= Boundary(s.job.segs)
    ensures s.job.checkpoint ==>
              TruncatingOK(Boundary(s.job.segs), s.disk.manifest, h, PublishCover(g, |s.job.tables|).covered)
  {
    MovedMaxima(s);
    MemoryWindows(MemTables(s), h, g);
    var n := |s.job.tables|;
    assert Increasing(h) && n < |g.cuts| && PublishCover(g, n).covered == g.cuts[n];
    hide *;
    BoundaryOfWindows(s.job.segs, MemTables(s), g.cuts, h);
    if s.job.checkpoint {
      TruncatesAt(Boundary(s.job.segs), s.disk.manifest, h, s.nextSequence, g.cuts[0], g.cuts[n]);
    }
  }

  lemma MemoryWindows(mem: seq<Table>, h: History, g: Cover)
    requires MemoryOK(mem, h, g)
    ensures Windows(mem, g.cuts, h) && |g.cuts| == |mem| + 1
  {
  }

  lemma PublishKeeps(s: State, s': State, h: History, floor: nat, g: Cover)
    requires Inv(s, h, floor, g) && PublishStep(s, s')
    ensures Inv(s', h, floor, PublishCover(g, |s.job.tables|))
  {
    hide SegmentsOK;
    hide Sortable;
    hide ManifestOK;
    hide FilesOK;
    hide MovedOK;
    hide MemoryOK;
    hide Publishing;
    hide Settled;
    hide TruncatingOK;
    var n := |s.job.tables|;
    MovedLength(s);
    assert s.job.segs[..n] == s.job.segs;
    MovedLayers(s, h, floor, g, n);
    MovedFiles(s.disk.files, s.segments, s.nextSegId, s.job.tables, s.job.segs, n);
    MovedSortable(s, h, floor, n, PublishCover(g, n).covered);
    PublishMemory(s, s', h, g);
    PublishedManifest(s.disk.manifest, s.job, s.segments);
    CoverBelow(s, h, g);
    PublishLog(s.disk.wal, h, g, PublishCover(g, n));
  }

  lemma MovedLength(s: State)
    requires s.job.Moving? && MovedOK(s.disk.files, s.segments, s.nextSegId, s.job.tables, s.job.segs)
    ensures |s.job.segs| == |s.job.tables| && Hold(s.job.segs, s.job.tables)
  {
  }

  lemma PublishLog(wal: History, h: History, g: Cover, g': Cover)
    requires LogOK(wal, h, g) && g.covered <= g'.covered <= |h| && g'.logStart == g.logStart
    ensures LogOK(wal, h, g')
  {
  }

  lemma {:induction false} KeepAboveAll(wal: History, b: nat)
    requires Increasing(wal) && (wal != [] ==> wal[0].sequence > b)
    ensures KeepAbove(wal, b) == wal
  {
    if wal != [] {
      KeepAboveAll(wal[1..], b);
    }
  }

  /** Truncation keeps a suffix of the log. */
  lemma {:induction false} KeepAboveSuffix(wal: History, b: nat) returns (i: nat)
    requires Increasing(wal)
    ensures i <= |wal| && KeepAbove(wal, b) == wal[i..]
    ensures i > 0 ==> wal[i - 1].sequence <= b
    ensures i < |wal| ==> wal[i].sequence > b
  {
    if wal == [] || wal[0].sequence > b {
      KeepAboveAll(wal, b);
      i := 0;
    } else {
      var j := KeepAboveSuffix(wal[1..], b);
      i := j + 1;
      assert wal[1..][j..] == wal[i..];
    }
  }

  lemma SuffixIncreasing(h: History, a: nat)
    requires Increasing(h) && a <= |h|
    ensures Increasing(h[a..])
  {
  }

  lemma SuffixConsecutive(wal: History, i: nat)
    requires Consecutive(wal) && i <= |wal|
    ensures Consecutive(wal[i..])
  {
  }

  lemma TruncateLog(wal: History, h: History, m: Manifest, b: nat, g: Cover) returns (g': Cover)
    requires LogOK(wal, h, g) && Increasing(h) && TruncatingOK(b, m, h, g.covered)
    ensures g' == g.(logStart := g'.logStart) && LogOK(KeepAbove(wal, b), h, g')
    ensures KeepAbove(wal, b) == [] ==> wal == [] || LastSequence(h) <= b
  {
    hide KeepAbove;
    SuffixIncreasing(h, g.logStart);
    var i := KeepAboveSuffix(wal, b);
    SuffixConsecutive(wal, i);
    g' := g.(logStart := g.logStart + i);
    assert wal[i..] == h[g.logStart + i..];
    if i > 0 {
      assert h[g.logStart + i - 1] == wal[i - 1];
    }
  }

  lemma TruncateKeeps(s: State, s': State, h: History, floor: nat, g: Cover) returns (g': Cover)
    requires Inv(s, h, floor, g) && TruncateStep(s, s')
    ensures Inv(s', h, floor, g')
  {
    hide SegmentsOK;
    hide Sortable;
    hide MemoryOK;
    hide FilesOK;
    hide LogOK;
    g' := TruncateLog(s.disk.wal, h, s.disk.manifest, s.job.boundary, g);
    MemoryLogStart(MemTables(s), h, g, g');
    assert MemTables(s') == MemTables(s);
    assert s.disk.manifest[..|s.disk.manifest|] == s.disk.manifest;
  }

  lemma MemoryLogStart(mem: seq<Table>, h: History, g: Cover, g': Cover)
    requires MemoryOK(mem, h, g) && g' == g.(logStart := g'.logStart)
    ensures MemoryOK(mem, h, g')
  {
  }

  // -------------------------------------------------------------------------
  // Compaction
  // -------------------------------------------------------------------------

  /** The merged segment declares what the front one does, at most the last covered sequence. */
  lemma MergedIs(segments: seq<Seg>, keep: nat, id: nat, h: History, floor: nat, covered: nat)
    requires SegmentsOK(segments, h, floor, covered) && Sortable(segments, floor) && segments != []
    ensures MergedOf(Seg(id, Merged(Tables(segments), keep), segments[0].maxSeq), segments, h, covered)
  {
    hide LayerOK;
    hide Complete;
    var hc := h[..covered];
    var last := LastSequence(hc);
    MergedOK(Tables(segments), hc, floor, if last > floor then last else floor, keep);
    hide Merged;
    assert Modest(segments[0]);
    LayerBelowLast(Tables(segments)[0], hc, floor);
  }

  lemma MergedFile(segments: seq<Seg>, files: map<nat, Seg>, nextSegId: nat, merged: Seg)
    requires FilesOK(segments, files, nextSegId) && merged.id == nextSegId
    ensures FilesOK(segments, files[merged.id := merged], nextSegId + 1)
    ensures FreshFile(files[merged.id := merged], segments, nextSegId + 1, merged)
  {
  }

  lemma MergeKeeps(s: State, keep: nat, s': State, h: History, floor: nat, g: Cover)
    requires Inv(s, h, floor, g) && MergeStep(s, keep, s')
    ensures Inv(s', h, floor, g)
  {
    hide SegmentsOK;
    hide Sortable;
    hide MemoryOK;
    hide LogOK;
    hide ManifestOK;
    hide MergedOf;
    hide FreshFile;
    MergedFile(s.segments, s.disk.files, s.nextSegId, s'.job.merged);
    MergedIs(s.segments, keep, s.nextSegId, h, floor, g.covered);
    assert MemTables(s') == MemTables(s);
  }

  lemma RaiseSegments(segments: seq<Seg>, h: History, floor: nat, floor': nat, covered: nat)
    requires SegmentsOK(segments, h, floor, covered) && floor <= floor'
    ensures SegmentsOK(segments, h, floor', covered)
  {
    RaiseFloor(Tables(segments), h[..covered], floor, floor');
  }

  lemma RaiseSortable(segments: seq<Seg>, floor: nat, floor': nat)
    requires Sortable(segments, floor) && floor <= floor'
    ensures Sortable(segments, floor')
  {
    forall i, j | 0 <= i < |segments| && 0 <= j < |segments| && segments[i].maxSeq >= segments[j].maxSeq
      ensures Precedes(segments[i].table, segments[j].table, floor')
    {
      assert Precedes(segments[i].table, segments[j].table, floor);
    }
  }

  lemma MergedBelow(merged: Seg, segments: seq<Seg>, h: History, next: nat, covered: nat)
    requires MergedOf(merged, segments, h, covered) && HistoryOK(h, next)
    ensures merged.maxSeq <= Hi(merged.table) <= LastSequence(h)
  {
    hide Merged;
  }

  lemma MergeRecordsBelow(merged: Seg, segments: seq<Seg>, h: History, next: nat, covered: nat)
    requires MergedOf(merged, segments, h, covered) && HistoryOK(h, next)
    ensures var r := MergeRecords(merged, segments); forall i :: 0 <= i < |r| ==> RecordSequence(r[i]) <= LastSequence(h)
  {
  }

  lemma RegisterMergedKeeps(s: State, s': State, h: History, floor: nat, g: Cover)
    requires Inv(s, h, floor, g) && RegisterMergedStep(s, s')
    ensures Inv(s', h, NextFloor(s, floor, RegisterMerged), g)
  {
    hide SegmentsOK;
    hide Sortable;
    hide MemoryOK;
    hide LogOK;
    hide FilesOK;
    hide MergedOf;
    hide FreshFile;
    hide ManifestOK;
    hide Settled;
    hide Publishing;
    RaiseSegments(s.segments, h, floor, NextFloor(s, floor, RegisterMerged), g.covered);
    RaiseSortable(s.segments, floor, NextFloor(s, floor, RegisterMerged));
    MergedBelow(s.job.merged, s.segments, h, s.nextSequence, g.covered);
    MergeRecordsBelow(s.job.merged, s.segments, h, s.nextSequence, g.covered);
    AppendRecords(s.disk.manifest, s.disk.synced, s.segments, MergeRecords(s.job.merged, s.segments),
                  s.disk.wal == [], LastSequence(h));
    assert MemTables(s') == MemTables(s);
  }

  lemma {:induction false} LiveIdsRemoves(m: Manifest, segs: seq<Seg>)
    ensures LiveIds(m + RemoveRecords(segs)) == LiveIds(m) - Ids(segs)
  {
    if segs == [] {
      assert m + RemoveRecords(segs) == m;
    } else {
      var n := |segs| - 1;
      LiveIdsRemoves(m, segs[..n]);
      assert (m + RemoveRecords(segs))[..|m| + n] == m + RemoveRecords(segs[..n]);
      assert segs == segs[..n] + [segs[n]];
    }
  }

  lemma LiveIdsMerge(m: Manifest, merged: Seg, segs: seq<Seg>, n: nat)
    requires n <= |segs|
    ensures LiveIds(m + [AddSegment(merged.id, merged.maxSeq)] + RemoveRecords(segs[..n])) ==
            LiveIds(m) + {merged.id} - Ids(segs[..n])
  {
    var a := m + [AddSegment(merged.id, merged.maxSeq)];
    assert a[..|m|] == m;
    LiveIdsRemoves(a, segs[..n]);
  }

  /** The merged segment with the old ones from index `r` on covers what the old ones covered. */
  lemma MergedLayers(merged: Seg, segments: seq<Seg>, h: History, floor: nat, covered: nat, r: nat)
    requires SegmentsOK(segments, h, floor, covered) && MergedOf(merged, segments, h, covered)
    requires floor >= Hi(merged.table) && r <= |segments|
    ensures SegmentsOK([merged] + segments[r..], h, floor, covered)
  {
    var hc := h[..covered];
    var keep :| merged.table == Merged(Tables(segments), keep);
    MergedWithRest(Tables(segments), hc, floor, floor, keep, r);
    assert Tables([merged] + segments[r..]) == [merged.table] + Tables(segments)[r..];
  }

  lemma MergedManifest(m: Manifest, merged: Seg, segments: seq<Seg>)
    requires Publishing(m, |m|, segments, MergeRecords(merged, segments)) && merged.id !in Ids(segments)
    ensures Settled(m, |m|, [merged])
  {
    var n := |segments|;
    var b := m[..|m| - |MergeRecords(merged, segments)|];
    assert segments[..n] == segments;
    assert m == b + [AddSegment(merged.id, merged.maxSeq)] + RemoveRecords(segments);
    LiveIdsMerge(b, merged, segments, n);
    assert Ids([merged]) == {merged.id};
  }

  lemma OneSortable(merged: Seg, segments: seq<Seg>, h: History, floor: nat, covered: nat)
    requires MergedOf(merged, segments, h, covered)
    ensures Sortable([merged], floor)
  {
    hide Merged;
    hide Visible;
  }

  lemma PublishMergedKeeps(s: State, s': State, h: History, floor: nat, g: Cover)
    requires Inv(s, h, floor, g) && PublishMergedStep(s, s')
    ensures Inv(s', h, floor, g)
  {
    hide SegmentsOK;
    hide Sortable;
    hide MemoryOK;
    hide LogOK;
    hide ManifestOK;
    hide MergedOf;
    hide Settled;
    hide Publishing;
    var merged, n := s.job.merged, |s.segments|;
    MergedLayers(merged, s.segments, h, floor, g.covered, n);
    assert [merged] + s.segments[n..] == [merged];
    OneSortable(merged, s.segments, h, floor, g.covered);
    MergedManifest(s.disk.manifest, merged, s.segments);
    assert Ids([merged]) == {merged.id};
    assert MemTables(s') == MemTables(s);
  }

  lemma DeleteKeeps(s: State, s': State, h: History, floor: nat, g: Cover)
    requires Inv(s, h, floor, g) && DeleteStep(s, s')
    ensures Inv(s', h, floor, g)
  {
    hide SegmentsOK;
    hide Sortable;
    hide MemoryOK;
    hide LogOK;
    hide ManifestOK;
    assert MemTables(s') == MemTables(s);
    assert forall i :: 0 <= i < |s.segments| ==> s.segments[i].id in Ids(s.segments);
  }
}
