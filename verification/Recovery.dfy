/**
 * A crash at any point of any run: reopening restores a state that satisfies the same
 * invariant for the same history.
 */
module Recovery {
  import opened Encoding
  import opened Options
  import opened Versions
  import opened Layers
  import opened Compaction
  import opened Machine
  import opened Safety

  /** The segments that a manifest cut after `cut` records leaves live. */
  function Surviving(s: State, cut: nat): seq<Seg>
  {
    if s.job.Moving? && s.job.stage == Registered then
      var base := |s.disk.manifest| - |s.job.segs| - (if s.job.checkpoint then 1 else 0);
      var added := if cut < base then 0 else if cut - base > |s.job.segs| then |s.job.segs| else cut - base;
      Stack(s.job.segs[..added], s.segments)
    else if s.job.Compacting? && s.job.stage == Registered then
      var base := |s.disk.manifest| - |s.segments| - 1;
      if cut <= base then s.segments
      else [s.job.merged] + s.segments[if cut - base - 1 > |s.segments| then |s.segments| else cut - base - 1..]
    else s.segments
  }

  /** How many operations those segments cover. */
  function SurvivingCover(s: State, g: Cover, cut: nat): nat
  {
    if s.job.Moving? && s.job.stage == Registered then
      var base := |s.disk.manifest| - |s.job.segs| - (if s.job.checkpoint then 1 else 0);
      var added := if cut < base then 0 else if cut - base > |s.job.segs| then |s.job.segs| else cut - base;
      if 0 < added < |g.cuts| then g.cuts[added] else g.covered
    else g.covered
  }

  // -------------------------------------------------------------------------
  // The manifest at a cut
  // -------------------------------------------------------------------------

  lemma CutMove(m: Manifest, j: Job, segments: seq<Seg>, synced: nat, cut: nat)
    requires j.Moving? && Publishing(m, synced, segments, MoveRecords(j)) && synced <= cut <= |m|
    ensures var base := |m| - |j.segs| - (if j.checkpoint then 1 else 0);
            var added := if cut - base > |j.segs| then |j.segs| else cut - base;
            && 0 <= base <= cut && 0 <= added <= |j.segs|
            && LiveIds(m[..cut]) == Ids(j.segs[..added]) + Ids(segments)
  {
    var r := MoveRecords(j);
    var base := |m| - |r|;
    var n := cut - base;
    assert m[..cut] == m[..base] + r[..n];
    if n <= |j.segs| {
      assert r[..n] == AddRecords(j.segs[..n]);
      LiveIdsAdds(m[..base], j.segs[..n]);
    } else {
      assert r[..n] == r && j.segs[..|j.segs|] == j.segs;
      LiveIdsMove(m[..base], j);
    }
  }

  lemma CutMerge(m: Manifest, merged: Seg, segments: seq<Seg>, synced: nat, cut: nat)
    requires Publishing(m, synced, segments, MergeRecords(merged, segments)) && synced <= cut <= |m|
    requires merged.id !in Ids(segments) && DistinctIds(segments)
    ensures var base := |m| - |segments| - 1;
            && 0 <= base <= cut <= base + |segments| + 1
            && LiveIds(m[..cut]) ==
               if cut == base then Ids(segments) else Ids([merged] + segments[cut - base - 1..])
  {
    var r := MergeRecords(merged, segments);
    var base := |m| - |r|;
    if cut > base {
      var n := cut - base - 1;
      assert m[..cut] == m[..base] + [AddSegment(merged.id, merged.maxSeq)] + RemoveRecords(segments[..n]);
      LiveIdsMerge(m[..base], merged, segments, n);
      SplitIds(segments, n);
      assert Ids([merged] + segments[n..]) == {merged.id} + Ids(segments[n..]);
    }
  }

  lemma SplitIds(segments: seq<Seg>, n: nat)
    requires DistinctIds(segments) && n <= |segments|
    ensures Ids(segments) == Ids(segments[..n]) + Ids(segments[n..])
    ensures Ids(segments[..n]) !! Ids(segments[n..])
  {
    assert segments == segments[..n] + segments[n..];
  }

  // -------------------------------------------------------------------------
  // What survives still covers the history
  // -------------------------------------------------------------------------

  lemma SurvivingMove(s: State, h: History, floor: nat, g: Cover, cut: nat)
    requires Inv(s, h, floor, g) && s.disk.synced <= cut <= |s.disk.manifest|
    requires s.job.Moving? && s.job.stage == Registered
    ensures Ids(Surviving(s, cut)) == LiveIds(s.disk.manifest[..cut])
    ensures FilesOK(Surviving(s, cut), s.disk.files, s.nextSegId) && Sortable(Surviving(s, cut), floor)
    ensures SegmentsOK(Surviving(s, cut), h, floor, SurvivingCover(s, g, cut))
    ensures g.covered <= SurvivingCover(s, g, cut)
  {
    hide SegmentsOK;
    hide MemoryOK;
    hide LogOK;
    hide FilesOK;
    hide ManifestOK;
    hide HistoryOK;
    hide MovedOK;
    hide Publishing;
    hide LiveIds;
    hide Sortable;
    CutMove(s.disk.manifest, s.job, s.segments, s.disk.synced, cut);
    MovedLength(s);
    var base := |s.disk.manifest| - |s.job.segs| - (if s.job.checkpoint then 1 else 0);
    var added := if cut - base > |s.job.segs| then |s.job.segs| else cut - base;
    StackIds(s.job.segs[..added], s.segments);
    MovedFiles(s.disk.files, s.segments, s.nextSegId, s.job.tables, s.job.segs, added);
    if added > 0 {
      MovedLayers(s, h, floor, g, added);
      MovedSortable(s, h, floor, added, g.cuts[added]);
    } else {
      assert s.job.segs[..0] == [];
    }
  }

  lemma MergedFiles(merged: Seg, segments: seq<Seg>, files: map<nat, Seg>, nextSegId: nat, n: nat)
    requires FilesOK(segments, files, nextSegId) && FreshFile(files, segments, nextSegId, merged)
    requires n <= |segments|
    ensures FilesOK([merged] + segments[n..], files, nextSegId)
  {
    var all := [merged] + segments[n..];
    forall i | 0 < i < |all|
      ensures all[i] == segments[n + i - 1] && all[i].id in Ids(segments)
    {
    }
  }

  /** Where the segments may be merged safely, any rest of them may be sorted in with the merged one. */
  lemma MergedSortable(merged: Seg, segments: seq<Seg>, h: History, floor: nat, covered: nat, n: nat)
    requires SegmentsOK(segments, h, floor, covered) && Sortable(segments, floor) && MergedOf(merged, segments, h, covered)
    requires floor >= Hi(merged.table) && n <= |segments| && MergeSafe(segments, {})
    ensures Sortable([merged] + segments[n..], floor)
  {
    hide Precedes;
    hide MergeSafe;
    hide SegmentsOK;
    hide MergedOf;
    hide Modest;
    var all := [merged] + segments[n..];
    MergedModest(merged, segments, h, covered);
    forall i | 0 <= i < |all|
      ensures Modest(all[i]) && (i > 0 ==> all[i] == segments[n + i - 1])
    {
    }
    forall i, j | 0 <= i < |all| && 0 <= j < |all| && all[i].maxSeq >= all[j].maxSeq
      ensures Precedes(all[i].table, all[j].table, floor)
    {
      if i == 0 {
        if j > 0 {
          assert all[j].table == Tables(segments)[n + j - 1];
        }
        MergedFirst(merged, segments, h, floor, covered, all[j].table);
      } else if j == 0 {
        OldFirst(merged, segments, h, floor, covered, n + i - 1);
      }
    }
  }

  lemma MergedModest(merged: Seg, segments: seq<Seg>, h: History, covered: nat)
    requires MergedOf(merged, segments, h, covered)
    ensures Modest(merged) && segments != [] && merged.maxSeq == segments[0].maxSeq
  {
    hide Merged;
  }

  /** The merged table may stand in front of every old one, and of itself. */
  lemma MergedFirst(merged: Seg, segments: seq<Seg>, h: History, floor: nat, covered: nat, t: Table)
    requires SegmentsOK(segments, h, floor, covered) && MergedOf(merged, segments, h, covered) && floor >= Hi(merged.table)
    requires t == merged.table || t in Tables(segments)
    ensures Precedes(merged.table, t, floor)
  {
    hide LayerOK;
    hide Precedes;
    hide Complete;
    hide Ordered;
    var hc, ts := h[..covered], Tables(segments);
    MergedLayerOK(merged, segments, h, floor, covered);
    if t != merged.table {
      var m :| 0 <= m < |ts| && ts[m] == t;
      LayerBelowLast(ts[m], hc, floor);
    }
    HigherPrecedes(merged.table, t, hc, floor);
  }

  lemma MergedLayerOK(merged: Seg, segments: seq<Seg>, h: History, floor: nat, covered: nat)
    requires SegmentsOK(segments, h, floor, covered) && MergedOf(merged, segments, h, covered) && floor >= Hi(merged.table)
    ensures LayerOK(merged.table, h[..covered], floor)
  {
    hide Complete;
    hide Ordered;
    var n := |segments|;
    MergedLayers(merged, segments, h, floor, covered, n);
    assert [merged] + segments[n..] == [merged];
    assert Tables([merged])[0] == merged.table;
  }

  /** An old segment that declares as much shows the newest version of each of its keys. */
  lemma OldFirst(merged: Seg, segments: seq<Seg>, h: History, floor: nat, covered: nat, i: nat)
    requires SegmentsOK(segments, h, floor, covered) && MergedOf(merged, segments, h, covered) && MergeSafe(segments, {})
    requires floor >= Hi(merged.table) && i < |segments| && segments[i].maxSeq >= merged.maxSeq
    ensures Precedes(segments[i].table, merged.table, floor)
  {
    hide MergeSafe;
    var t, u := segments[i].table, merged.table;
    forall k, s: nat | s >= floor && Visible(t, k, s).Some? && Visible(u, k, s).Some?
      ensures Visible(t, k, s).value.sequence >= Visible(u, k, s).value.sequence
    {
      var v := Visible(u, k, s).value;
      MergedInSome(merged, segments, h, floor, covered, k, v);
      OldShowsNewest(segments, h, floor, covered, {}, i, k, s, v);
    }
  }

  lemma MergedInSome(merged: Seg, segments: seq<Seg>, h: History, floor: nat, covered: nat, k: Key, v: VersionedEntry)
    requires SegmentsOK(segments, h, floor, covered) && MergedOf(merged, segments, h, covered) && Has(merged.table, k, v)
    ensures InSome(Tables(segments), k, v) && v.sequence <= Hi(merged.table)
    ensures forall w :: InSome(Tables(segments), k, w) ==> w.sequence <= v.sequence
  {
    var keep :| merged.table == Merged(Tables(segments), keep);
    MergedHas(Tables(segments), h[..covered], keep, k, v);
    HasBelowHi(merged.table, k, v);
  }

  /** The oldest holder at or behind a segment that declares as much as the front one. */
  lemma {:induction false} FindOldest(segs: seq<Seg>, i: nat, k: Key) returns (o: nat)
    requires i < |segs| && k in segs[i].table && segs[i].maxSeq >= segs[0].maxSeq
    ensures i <= o && OldestHolder(segs, o, k)
    decreases |segs| - i
  {
    if j :| i < j < |segs| && segs[j].maxSeq >= segs[0].maxSeq && k in segs[j].table {
      o := FindOldest(segs, j, k);
    } else {
      o := i;
    }
  }

  /** So it shows a version as new as any that the segments hold, to readers who can see that one. */
  lemma OldShowsNewest(segments: seq<Seg>, h: History, floor: nat, covered: nat, masked: set<Key>, i: nat, k: Key, s: nat,
                       v: VersionedEntry)
    requires SegmentsOK(segments, h, floor, covered) && MergeSafe(segments, masked) && k !in masked
    requires i < |segments| && Visible(segments[i].table, k, s).Some? && segments[i].maxSeq >= segments[0].maxSeq
    requires InSome(Tables(segments), k, v) && s >= floor && s >= v.sequence
    requires forall w :: InSome(Tables(segments), k, w) ==> w.sequence <= v.sequence
    ensures Visible(segments[i].table, k, s).value.sequence >= v.sequence
  {
    var ts := Tables(segments);
    var o := FindOldest(segments, i, k);
    assert HoldsNewest(segments, o, k);
    var w :| Has(segments[o].table, k, w) && v.sequence <= w.sequence;
    assert Has(ts[o], k, w) && InSome(ts, k, w);
    FirstVisibleIsNewest(ts[o][k], s, w);
    assert Visible(ts[o], k, s).Some?;
    assert LayerOK(ts[i], h[..covered], floor) && ts[i] == segments[i].table;
    if i < o {
      assert Precedes(ts[i], ts[o], floor);
    }
  }

  lemma SurvivingMerge(s: State, h: History, floor: nat, g: Cover, cut: nat)
    requires Inv(s, h, floor, g) && s.disk.synced <= cut <= |s.disk.manifest|
    requires s.job.Compacting? && s.job.stage == Registered
    ensures Ids(Surviving(s, cut)) == LiveIds(s.disk.manifest[..cut])
    ensures FilesOK(Surviving(s, cut), s.disk.files, s.nextSegId)
    ensures Allowed(s, Crash(cut)) ==> Sortable(Surviving(s, cut), floor)
    ensures SegmentsOK(Surviving(s, cut), h, floor, g.covered)
  {
    hide SegmentsOK;
    hide MemoryOK;
    hide LogOK;
    hide ManifestOK;
    hide HistoryOK;
    hide MergedOf;
    hide Publishing;
    hide LiveIds;
    hide Ids;
    hide Modest;
    hide Sortable;
    hide MergeSafe;
    CutMerge(s.disk.manifest, s.job.merged, s.segments, s.disk.synced, cut);
    var base := |s.disk.manifest| - |s.segments| - 1;
    if cut > base {
      MergedLayers(s.job.merged, s.segments, h, floor, g.covered, cut - base - 1);
      MergedFiles(s.job.merged, s.segments, s.disk.files, s.nextSegId, cut - base - 1);
      if cut < |s.disk.manifest| {
        if MergeSafe(s.segments, {}) {
          MergedSortable(s.job.merged, s.segments, h, floor, g.covered, cut - base - 1);
        }
      } else {
        OneSortable(s.job.merged, s.segments, h, floor, g.covered);
        assert [s.job.merged] + s.segments[|s.segments|..] == [s.job.merged];
      }
    }
  }

  /**
   * Whatever records of an unsynced manifest tail a crash keeps, the segments then live cover
   * at least the operations that the open segments covered; they exist as files.
   */
  lemma SurvivingOK(s: State, h: History, floor: nat, g: Cover, cut: nat)
    requires Inv(s, h, floor, g) && s.disk.synced <= cut <= |s.disk.manifest|
    ensures Ids(Surviving(s, cut)) == LiveIds(s.disk.manifest[..cut])
    ensures FilesOK(Surviving(s, cut), s.disk.files, s.nextSegId)
    ensures Allowed(s, Crash(cut)) ==> Sortable(Surviving(s, cut), floor)
    ensures SegmentsOK(Surviving(s, cut), h, floor, SurvivingCover(s, g, cut))
    ensures g.covered <= SurvivingCover(s, g, cut)
  {
    if s.job.Moving? && s.job.stage == Registered {
      SurvivingMove(s, h, floor, g, cut);
    } else if s.job.Compacting? && s.job.stage == Registered {
      SurvivingMerge(s, h, floor, g, cut);
    } else {
      assert s.disk.manifest[..cut] == s.disk.manifest;
    }
  }

  // -------------------------------------------------------------------------
  // Opening
  // -------------------------------------------------------------------------

  /** Two lists of segments read from the same files under the same numbers have the same members. */
  lemma SameMembers(a: seq<Seg>, b: seq<Seg>, files: map<nat, Seg>)
    requires Ids(a) == Ids(b)
    requires forall i :: 0 <= i < |a| ==> a[i].id in files && files[a[i].id] == a[i]
    requires forall i :: 0 <= i < |b| ==> b[i].id in files && files[b[i].id] == b[i]
    ensures forall i :: 0 <= i < |a| ==> a[i] in b
  {
    forall i | 0 <= i < |a|
      ensures a[i] in b
    {
      assert a[i].id in Ids(a);
      assert a[i].id in Ids(b);
      var x :| x in b && x.id == a[i].id;
    }
  }

  lemma SortableMembers(cand: seq<Seg>, segs: seq<Seg>, floor: nat)
    requires Sortable(cand, floor) && forall i :: 0 <= i < |segs| ==> segs[i] in cand
    ensures Sortable(segs, floor)
  {
    hide Precedes;
    hide Modest;
    forall i, j | 0 <= i < |segs| && 0 <= j < |segs|
      ensures Modest(segs[i]) && (segs[i].maxSeq >= segs[j].maxSeq ==> Precedes(segs[i].table, segs[j].table, floor))
    {
      var a :| 0 <= a < |cand| && cand[a] == segs[i];
      var b :| 0 <= b < |cand| && cand[b] == segs[j];
    }
  }

  lemma SortedIsOrdered(segs: seq<Seg>, floor: nat)
    requires SortedByMax(segs) && Sortable(segs, floor)
    ensures Ordered(Tables(segs), floor)
  {
    hide Precedes;
  }

  lemma OpenSegments(cand: seq<Seg>, segs: seq<Seg>, files: map<nat, Seg>, nextSegId: nat, nextSegId': nat,
                     h: History, floor: nat, covered: nat)
    requires FilesOK(cand, files, nextSegId) && SegmentsOK(cand, h, floor, covered) && Sortable(cand, floor)
    requires Ids(segs) == Ids(cand) && DistinctIds(segs) && SortedByMax(segs)
    requires forall i :: 0 <= i < |segs| ==> segs[i].id in files && segs[i] == files[segs[i].id]
    requires forall id :: id in Ids(segs) ==> id < nextSegId'
    ensures FilesOK(segs, files, nextSegId') && SegmentsOK(segs, h, floor, covered) && Sortable(segs, floor)
  {
    hide LayersOK;
    hide Precedes;
    hide Modest;
    SameMembers(segs, cand, files);
    SameMembers(cand, segs, files);
    SortableMembers(cand, segs, floor);
    forall i | 0 <= i < |segs|
      ensures segs[i] in cand && segs[i].id in Ids(segs)
    {
    }
    SortedIsOrdered(segs, floor);
    hide Sortable;
    var ts, us := Tables(cand), Tables(segs);
    forall m | 0 <= m < |us|
      ensures us[m] in ts
    {
      assert segs[m] in cand;
      var j :| 0 <= j < |cand| && cand[j] == segs[m];
      assert ts[j] == us[m];
    }
    forall m | 0 <= m < |ts|
      ensures ts[m] in us
    {
      var j :| 0 <= j < |segs| && segs[j] == cand[m];
      assert us[j] == ts[m];
    }
    Rearrange(ts, us, h[..covered], floor);
  }

  /** A longer synced part still accounts for everything when the log is empty. */
  lemma CutManifest(m: Manifest, synced: nat, cut: nat, logEmpty: bool, last: nat)
    requires ManifestOK(m, synced, logEmpty, last) && synced <= cut <= |m|
    ensures ManifestOK(m[..cut], cut, logEmpty, last) && MaxFlushed(m[..cut]) <= last
  {
    MaxFlushedBound(m[..cut], last);
    assert m[..synced] + m[synced..cut] == m[..cut];
    MaxFlushedAppend(m[..synced], m[synced..cut]);
    assert m[..cut][..cut] == m[..cut];
    hide MaxFlushed;
  }

  lemma LogEnds(wal: History, h: History, g: Cover)
    requires LogOK(wal, h, g)
    ensures Accepted(wal) == wal && (wal != [] ==> LastSequence(wal) == LastSequence(h))
  {
    AcceptedIffConsecutive(wal);
    if wal != [] {
      assert wal[|wal| - 1] == h[|h| - 1];
    }
  }

  lemma CounterAbove(h: History, next: nat, n: nat)
    requires HistoryOK(h, next) && LastSequence(h) < n <= next
    ensures HistoryOK(h, n)
  {
    forall i | 0 <= i < |h|
      ensures h[i].sequence <= LastSequence(h)
    {
    }
  }

  lemma LastBelow(h: History, next: nat)
    requires HistoryOK(h, next)
    ensures LastSequence(h) < next
  {
  }

  /** The counter is restored above every sequence of the history, and right after the log's last. */
  lemma RestoredAbove(wal: History, m: Manifest, synced: nat, cut: nat, h: History, next: nat, g: Cover)
    requires HistoryOK(h, next) && LogOK(wal, h, g)
    requires ManifestOK(m, synced, wal == [], LastSequence(h)) && synced <= cut <= |m|
    ensures var d := Disk(wal, m[..cut], cut, map[]);
            && Accepted(wal) == wal
            && HistoryOK(h, RestoredSequence(d))
            && (wal != [] ==> RestoredSequence(d) == LastSequence(h) + 1)
            && ManifestOK(m[..cut], cut, wal == [], LastSequence(h))
  {
    CutManifest(m, synced, cut, wal == [], LastSequence(h));
    EmptyLogFlushed(m[..cut], cut, wal == [], LastSequence(h));
    LogEnds(wal, h, g);
    LastBelow(h, next);
    hide HistoryOK;
    hide LogOK;
    hide ManifestOK;
    hide MaxFlushed;
    hide LastSequence;
    hide Accepted;
    CounterAbove(h, next, LastSequence(h) + 1);
  }

  lemma EmptyLogFlushed(m: Manifest, synced: nat, logEmpty: bool, last: nat)
    requires ManifestOK(m, synced, logEmpty, last) && synced == |m|
    ensures logEmpty ==> MaxFlushed(m) >= last
  {
    hide MaxFlushed;
    assert m[..synced] == m;
  }

  lemma OpenLog(wal: History, h: History, g: Cover, g': Cover)
    requires LogOK(wal, h, g)
    requires g'.logStart == g.logStart && g.covered <= g'.covered <= |h|
    ensures LogOK(wal, h, g')
    ensures MemoryOK([TableOf(wal)], h, Cover(g'.covered, [g.logStart, |h|], g.logStart))
  {
    assert h[g.logStart..|h|] == wal;
  }

  function RecoveredCover(s: State, h: History, g: Cover, cut: nat): Cover
  {
    Cover(SurvivingCover(s, g, cut), [g.logStart, |h|], g.logStart)
  }

  /**
   * Crash refinement. Between any two durable effects of any job, whatever records of the
   * unsynced manifest tail survive and however equal maxima are sorted, the reopened store
   * satisfies the invariant for the very history it had before.
   */
  lemma CrashKeeps(s: State, cut: nat, s': State, h: History, floor: nat, g: Cover)
    requires Inv(s, h, floor, g) && CrashStep(s, cut, s') && Allowed(s, Crash(cut))
    ensures Inv(s', h, floor, RecoveredCover(s, h, g, cut))
  {
    var d :| CrashImage(s.disk, cut, d) && Opened(d, s');
    InvParts(s, h, floor, g);
    ImageParts(s.disk, cut, d);
    OpenedState(d, s');
    hide *;
    var g', cand := RecoveredCover(s, h, g, cut), Surviving(s, cut);
    SurvivingOK(s, h, floor, g, cut);
    RestoredAbove(s.disk.wal, s.disk.manifest, s.disk.synced, cut, h, s.nextSequence, g);
    SameRestored(d, Disk(s.disk.wal, s.disk.manifest[..cut], cut, map[]));
    SurvivingFiles(cand, s.disk, cut, d, s.nextSegId);
    SurvivingBound(cand, h, floor, SurvivingCover(s, g, cut));
    OpenSegments(cand, s'.segments, d.files, s.nextSegId, s'.nextSegId, h, floor, SurvivingCover(s, g, cut));
    CoverParts(s, h, g, cut);
    OpenLog(s.disk.wal, h, g, g');
    OpenedJob(d, s', h, floor, g'.covered);
    InvFrom(s', h, floor, g');
  }

  lemma InvParts(s: State, h: History, floor: nat, g: Cover)
    requires Inv(s, h, floor, g)
    ensures HistoryOK(h, s.nextSequence) && LogOK(s.disk.wal, h, g)
    ensures ManifestOK(s.disk.manifest, s.disk.synced, s.disk.wal == [], LastSequence(h)) && floor <= LastSequence(h)
  {
    hide SegmentsOK;
    hide LogOK;
    hide MemoryOK;
    hide FilesOK;
    hide ManifestOK;
    hide JobOK;
    hide HistoryOK;
    hide Sortable;
  }

  lemma ImageParts(d: Disk, cut: nat, d': Disk)
    requires CrashImage(d, cut, d')
    ensures d.synced <= cut <= |d.manifest| && d'.wal == d.wal && d'.manifest == d.manifest[..cut] && d'.synced == cut
    ensures d'.synced == |d'.manifest|
  {
  }

  lemma OpenedState(d: Disk, t: State)
    requires Opened(d, t)
    ensures t.disk == d.(wal := Accepted(d.wal)) && t.nextSequence == RestoredSequence(d) && t.job == Idle
    ensures MemTables(t) == [TableOf(Accepted(d.wal))]
    ensures Ids(t.segments) == LiveIds(d.manifest) && DistinctIds(t.segments) && SortedByMax(t.segments)
    ensures forall i :: 0 <= i < |t.segments| ==> t.segments[i].id in d.files && t.segments[i] == d.files[t.segments[i].id]
    ensures forall id :: id in Ids(t.segments) ==> id < t.nextSegId
  {
    hide Accepted;
    hide RestoredSequence;
    hide LiveIds;
    hide TableOf;
  }

  lemma SameRestored(d: Disk, e: Disk)
    requires d.wal == e.wal && d.manifest == e.manifest
    ensures RestoredSequence(d) == RestoredSequence(e)
  {
  }

  lemma CoverParts(s: State, h: History, g: Cover, cut: nat)
    ensures var g' := RecoveredCover(s, h, g, cut);
            g' == Cover(SurvivingCover(s, g, cut), [g.logStart, |h|], g.logStart) && g'.covered == SurvivingCover(s, g, cut)
            && g'.logStart == g.logStart
  {
  }

  lemma InvFrom(s: State, h: History, floor: nat, g: Cover)
    requires HistoryOK(h, s.nextSequence) && LogOK(s.disk.wal, h, g) && MemoryOK(MemTables(s), h, g)
    requires SegmentsOK(s.segments, h, floor, g.covered) && Sortable(s.segments, floor)
    requires FilesOK(s.segments, s.disk.files, s.nextSegId)
    requires ManifestOK(s.disk.manifest, s.disk.synced, s.disk.wal == [], LastSequence(h))
    requires JobOK(s.job, s.disk.manifest, s.disk.synced, s.disk.files, s.segments, s.nextSegId, h, floor, g.covered)
    requires floor <= LastSequence(h)
    ensures Inv(s, h, floor, g)
  {
    hide SegmentsOK;
    hide LogOK;
    hide MemoryOK;
    hide FilesOK;
    hide ManifestOK;
    hide JobOK;
    hide HistoryOK;
    hide Sortable;
  }

  lemma OpenedJob(d: Disk, s': State, h: History, floor: nat, covered: nat)
    requires Opened(d, s') && d.synced == |d.manifest|
    ensures JobOK(s'.job, s'.disk.manifest, s'.disk.synced, s'.disk.files, s'.segments, s'.nextSegId, h, floor, covered)
  {
  }

  lemma SurvivingBound(segs: seq<Seg>, h: History, floor: nat, covered: nat)
    requires SegmentsOK(segs, h, floor, covered)
    ensures covered <= |h|
  {
  }

  lemma SurvivingFiles(cand: seq<Seg>, d: Disk, cut: nat, d': Disk, nextSegId: nat)
    requires CrashImage(d, cut, d') && Ids(cand) == LiveIds(d.manifest[..cut])
    requires FilesOK(cand, d.files, nextSegId)
    ensures FilesOK(cand, d'.files, nextSegId)
  {
    forall i | 0 <= i < |cand|
      ensures cand[i].id in d'.files && d'.files[cand[i].id] == cand[i]
    {
      assert cand[i].id in Ids(cand);
    }
  }
}
