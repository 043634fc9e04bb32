/**
 * A crash that tears the records of a compaction: exactly when reopening still reads what was
 * acknowledged, whichever records survive and however equal maxima are sorted.
 */
module TornCompaction {
  import opened Encoding
  import opened Options
  import opened Versions
  import opened Layers
  import opened Compaction
  import opened Machine
  import opened Safety
  import opened Recovery
  import opened Runs

  /** Every reopening after a crash at this point reads the last operation on every key. */
  ghost predicate ReopensRight(s: State, h: History)
  {
    forall cut: nat, t, k :: CrashStep(s, cut, t) ==> ReadCurrent(ReaderLayers(t), k) == Latest(h, k, LATEST)
  }

  /** The records of a compaction are written, and none of them synced. */
  ghost predicate Registering(s: State)
  {
    s.job.Compacting? && s.job.stage == Registered && s.disk.synced <= |s.disk.manifest| - |s.segments| - 1
  }

  /** What the log replays hides the segments. */
  function Logged(s: State): set<Key>
  {
    TableOf(s.disk.wal).Keys
  }

  // -------------------------------------------------------------------------
  // What reopening walks
  // -------------------------------------------------------------------------

  lemma OpenedLayers(d: Disk, t: State, h: History, g: Cover)
    requires Opened(d, t) && LogOK(d.wal, h, g)
    ensures t.active == TableOf(d.wal) && ReaderLayers(t) == [t.active] + Tables(t.segments)
  {
    AcceptedIffConsecutive(d.wal);
    assert t.frozen + [t.active] == [t.active];
    StackIsOne(t.active, Tables(t.segments));
  }

  /** A key in the replayed log is read from it, and right. */
  lemma LogShowsLast(wal: History, h: History, next: nat, g: Cover, k: Key)
    requires LogOK(wal, h, g) && HistoryOK(h, next) && k in TableOf(wal)
    ensures Visible(TableOf(wal), k, LATEST) == Latest(h, k, LATEST) && Latest(h, k, LATEST).Some?
  {
    var t := TableOf(wal);
    assert wal == h[g.logStart..|h|];
    TableOfStrict(wal);
    var v := t[k][0];
    assert Has(t, k, v);
    WindowHas(h, g.logStart, |h|, k, v);
    LatestIsNewest(h, k, LATEST, Op(v.sequence, k, v.value));
    var x := Latest(h, k, LATEST).value;
    WindowHas(h, g.logStart, |h|, k, x);
    assert Has(t, k, x);
  }

  /** A key outside the log was written last before the log starts, so the segments hold that version. */
  lemma UnloggedIsCovered(s: State, h: History, floor: nat, g: Cover, k: Key)
    requires Inv(s, h, floor, g) && k !in Logged(s) && Latest(h, k, LATEST).Some?
    ensures InSome(Tables(s.segments), k, Latest(h, k, LATEST).value)
  {
    assert LogOK(s.disk.wal, h, g) && HistoryOK(h, s.nextSequence) && SegmentsOK(s.segments, h, floor, g.covered);
    assert floor <= LATEST;
    hide Inv;
    var x := Latest(h, k, LATEST).value;
    var o := Op(x.sequence, k, x.value);
    var i :| 0 <= i < |h| && h[i] == o;
    assert s.disk.wal == h[g.logStart..|h|];
    WindowHas(h, g.logStart, |h|, k, x);
    assert h[..g.covered][i] == o;
    assert h[..|h|] == h;
    LatestWithin(h, g.covered, |h|, k, LATEST);
  }

  /** No segment holds a version newer than the last operation. */
  lemma SegmentBelowLast(s: State, h: History, floor: nat, g: Cover, k: Key, v: VersionedEntry)
    requires Inv(s, h, floor, g) && InSome(Tables(s.segments), k, v)
    ensures v.sequence <= LATEST && Op(v.sequence, k, v.value) in h
    ensures Latest(h, k, LATEST).Some? && v.sequence <= Latest(h, k, LATEST).value.sequence
  {
    assert HistoryOK(h, s.nextSequence) && SegmentsOK(s.segments, h, floor, g.covered);
    hide Inv;
    InSomeWritten(Tables(s.segments), h[..g.covered], k, v);
    var o := Op(v.sequence, k, v.value);
    assert h[..g.covered] <= h;
    var i :| 0 <= i < g.covered && h[..g.covered][i] == o;
    assert h[i] == o;
    LatestIsNewest(h, k, LATEST, o);
  }

  // -------------------------------------------------------------------------
  // A safe merge reads right at every cut
  // -------------------------------------------------------------------------

  /** The merged segment and some of the old ones. */
  ghost predicate Mixed(live: seq<Seg>, merged: Seg, olds: seq<Seg>)
  {
    merged in live && forall y :: y in live ==> y == merged || y in olds
  }

  ghost predicate Same(live: seq<Seg>, olds: seq<Seg>)
  {
    (forall y :: y in live ==> y in olds) && forall y :: y in olds ==> y in live
  }

  /** What is live after the cut: the merged segment unless no record survived, and old ones. */
  lemma LiveAfterCut(s: State, h: History, floor: nat, g: Cover, cut: nat, d: Disk, t: State)
    requires Inv(s, h, floor, g) && Registering(s) && CrashImage(s.disk, cut, d) && Opened(d, t)
    ensures var base := |s.disk.manifest| - |s.segments| - 1;
            cut >= base && if cut > base then Mixed(t.segments, s.job.merged, s.segments) else Same(t.segments, s.segments)
  {
    hide Inv;
    hide Surviving;
    hide SurvivingCover;
    hide LiveIds;
    hide Mixed;
    hide Same;
    hide Allowed;
    hide SegmentsOK;
    hide RestoredSequence;
    hide Accepted;
    SurvivingOK(s, h, floor, g, cut);
    var cand := Surviving(s, cut);
    SurvivingFiles(cand, s.disk, cut, d, s.nextSegId);
    BaseSynced(s, h, floor, g);
    SameMembers(t.segments, cand, d.files);
    SameMembers(cand, t.segments, d.files);
    CandidatesAre(s, cut, t.segments);
  }

  lemma BaseSynced(s: State, h: History, floor: nat, g: Cover)
    requires Inv(s, h, floor, g) && Registering(s)
    ensures s.disk.synced == |s.disk.manifest| - |s.segments| - 1
  {
  }

  lemma CandidatesAre(s: State, cut: nat, live: seq<Seg>)
    requires Registering(s) && s.disk.synced <= cut <= |s.disk.manifest|
    requires s.disk.synced == |s.disk.manifest| - |s.segments| - 1
    requires (forall i :: 0 <= i < |live| ==> live[i] in Surviving(s, cut))
    requires forall i :: 0 <= i < |Surviving(s, cut)| ==> Surviving(s, cut)[i] in live
    ensures if cut > |s.disk.manifest| - |s.segments| - 1 then Mixed(live, s.job.merged, s.segments)
            else Same(live, s.segments)
  {
    var cand := Surviving(s, cut);
    if cut > |s.disk.manifest| - |s.segments| - 1 {
      assert cand[0] == s.job.merged;
    }
  }

  /** The `p`-th segment is the first that shows the key. */
  ghost predicate FirstToShow(segs: seq<Seg>, k: Key, p: nat)
  {
    && p < |segs| && Visible(segs[p].table, k, LATEST).Some?
    && forall j :: 0 <= j < p ==> Visible(segs[j].table, k, LATEST).None?
  }

  /** `x` is the newest version of the key that the segments hold. */
  ghost predicate Newest(segs: seq<Seg>, k: Key, x: VersionedEntry)
  {
    InSome(Tables(segs), k, x) && forall w :: InSome(Tables(segs), k, w) ==> w.sequence <= x.sequence
  }

  /** The first live segment that shows the key shows a version as new as any. */
  lemma FirstShowsNewest(s: State, h: History, floor: nat, g: Cover, cut: nat, d: Disk, t: State, k: Key, p: nat,
                         x: VersionedEntry)
    requires Inv(s, h, floor, g) && Registering(s) && CrashImage(s.disk, cut, d) && Opened(d, t)
    requires MergeSafe(s.segments, Logged(s)) && k !in Logged(s)
    requires FirstToShow(t.segments, k, p) && Newest(s.segments, k, x) && x.sequence <= LATEST
    ensures Visible(t.segments[p].table, k, LATEST).value.sequence >= x.sequence
  {
    LiveAfterCut(s, h, floor, g, cut, d, t);
    JobFacts(s, h, floor, g);
    hide Inv;
    hide MergeSafe;
    hide Sortable;
    hide SegmentsOK;
    hide MergedOf;
    hide FirstToShow;
    hide Newest;
    hide Visible;
    hide LiveIds;
    hide Mixed;
    hide Same;
    if cut > |s.disk.manifest| - |s.segments| - 1 {
      MixedShowsNewest(s.job.merged, s.segments, h, floor, g.covered, Logged(s), t.segments, k, p, x);
    } else {
      SegmentsStrict(s.segments, h, floor, g.covered);
      OldInOrder(s.segments, floor, t.segments, k, p, x);
    }
  }

  lemma SegmentsStrict(segments: seq<Seg>, h: History, floor: nat, covered: nat)
    requires SegmentsOK(segments, h, floor, covered)
    ensures forall i :: 0 <= i < |segments| ==> Strict(segments[i].table)
  {
    hide Strict;
    hide Solid;
    forall i | 0 <= i < |segments|
      ensures Strict(segments[i].table)
    {
      assert LayerOK(Tables(segments)[i], h[..covered], floor);
    }
  }

  /** The merged segment and old ones, sorted by what they declare. */
  lemma MixedShowsNewest(merged: Seg, segments: seq<Seg>, h: History, floor: nat, covered: nat, masked: set<Key>,
                         sorted: seq<Seg>, k: Key, p: nat, x: VersionedEntry)
    requires SegmentsOK(segments, h, floor, covered) && MergedOf(merged, segments, h, covered) && floor <= LATEST
    requires MergeSafe(segments, masked) && k !in masked && merged.maxSeq == segments[0].maxSeq
    requires SortedByMax(sorted) && Mixed(sorted, merged, segments)
    requires FirstToShow(sorted, k, p) && Newest(segments, k, x) && x.sequence <= LATEST
    ensures Visible(sorted[p].table, k, LATEST).value.sequence >= x.sequence
  {
    hide SegmentsOK;
    hide MergedOf;
    hide MergeSafe;
    hide Visible;
    hide InSome;
    MergedShows(merged, segments, h, floor, covered, k, x);
    var y := sorted[p];
    assert y in sorted;
    if y != merged {
      var q :| 0 <= q < |sorted| && sorted[q] == merged;
      var i :| 0 <= i < |segments| && segments[i] == y;
      OldShowsNewest(segments, h, floor, covered, masked, i, k, LATEST, x);
    }
  }

  lemma JobFacts(s: State, h: History, floor: nat, g: Cover)
    requires Inv(s, h, floor, g) && Registering(s)
    ensures MergedOf(s.job.merged, s.segments, h, g.covered) && s.job.merged.maxSeq == s.segments[0].maxSeq
    ensures SegmentsOK(s.segments, h, floor, g.covered) && Sortable(s.segments, floor)
    ensures Hi(s.job.merged.table) <= floor <= LATEST
  {
    hide SegmentsOK;
    hide MemoryOK;
    hide Sortable;
    hide Merged;
  }

  lemma MergedShows(merged: Seg, segments: seq<Seg>, h: History, floor: nat, covered: nat, k: Key, x: VersionedEntry)
    requires SegmentsOK(segments, h, floor, covered) && MergedOf(merged, segments, h, covered)
    requires Newest(segments, k, x) && x.sequence <= LATEST
    ensures Visible(merged.table, k, LATEST).Some? && Visible(merged.table, k, LATEST).value.sequence >= x.sequence
  {
    var keep :| merged.table == Merged(Tables(segments), keep);
    MergedHas(Tables(segments), h[..covered], keep, k, x);
    MergedStrict(Tables(segments), h[..covered], keep);
    hide Merged;
    FirstVisibleIsNewest(merged.table[k], LATEST, x);
  }

  /** Old segments alone, sorted by what they declare, are in order. */
  lemma OldInOrder(segments: seq<Seg>, floor: nat, sorted: seq<Seg>, k: Key, p: nat, x: VersionedEntry)
    requires Sortable(segments, floor) && SortedByMax(sorted) && floor <= LATEST
    requires Same(sorted, segments)
    requires FirstToShow(sorted, k, p) && Newest(segments, k, x) && x.sequence <= LATEST
    requires forall i :: 0 <= i < |segments| ==> Strict(segments[i].table)
    ensures Visible(sorted[p].table, k, LATEST).value.sequence >= x.sequence
  {
    hide Modest;
    var b :| 0 <= b < |segments| && Has(Tables(segments)[b], k, x);
    FirstVisibleIsNewest(segments[b].table[k], LATEST, x);
    assert Visible(segments[b].table, k, LATEST).Some?;
    hide Visible;
    assert segments[b] in sorted && sorted[p] in sorted;
    var q :| 0 <= q < |sorted| && sorted[q] == segments[b];
    var a :| 0 <= a < |segments| && segments[a] == sorted[p];
    assert q >= p && sorted[p].maxSeq >= sorted[q].maxSeq;
    assert Precedes(segments[a].table, segments[b].table, floor);
  }

  /** A safe merge reopens right, wherever the crash cuts its records. */
  lemma SafeReopens(s: State, h: History, floor: nat, g: Cover, cut: nat, t: State, k: Key)
    requires Inv(s, h, floor, g) && Registering(s) && MergeSafe(s.segments, Logged(s)) && CrashStep(s, cut, t)
    ensures ReadCurrent(ReaderLayers(t), k) == Latest(h, k, LATEST)
  {
    var d :| CrashImage(s.disk, cut, d) && Opened(d, t);
    LogFacts(s, h, floor, g);
    OpenedLayers(d, t, h, g);
    OpenedStrict(s, h, floor, g, cut, d, t);
    hide Inv;
    hide MergeSafe;
    hide Opened;
    hide Strict;
    hide AtMost;
    CurrentIsLatest(ReaderLayers(t), k);
    if k in Logged(s) {
      LogShowsLast(s.disk.wal, h, s.nextSequence, g, k);
    } else {
      assert ReaderLayers(t)[1..] == Tables(t.segments);
      assert Visible(t.active, k, LATEST).None?;
      UnloggedReads(s, h, floor, g, cut, d, t, k);
    }
  }

  /** The table's versions were written, and stand newest first. */
  ghost predicate Genuine(t: Table, h: History)
  {
    Strict(t) && AtMost(t, LATEST) && Sound(t, h)
  }

  /** Every layer after reopening is genuine. */
  lemma OpenedStrict(s: State, h: History, floor: nat, g: Cover, cut: nat, d: Disk, t: State)
    requires Inv(s, h, floor, g) && Registering(s) && CrashImage(s.disk, cut, d) && Opened(d, t)
    ensures forall m :: 0 <= m < |ReaderLayers(t)| ==> Strict(ReaderLayers(t)[m]) && AtMost(ReaderLayers(t)[m], LATEST)
    ensures forall m :: 0 <= m < |t.segments| ==> Sound(t.segments[m].table, h)
  {
    hide Mixed;
    hide Same;
    hide MergedOf;
    hide SegmentsOK;
    hide Sound;
    hide Strict;
    hide AtMost;
    hide ReaderLayers;
    LogFacts(s, h, floor, g);
    OpenedLayers(d, t, h, g);
    LiveAfterCut(s, h, floor, g, cut, d, t);
    JobFacts(s, h, floor, g);
    hide Inv;
    hide Opened;
    hide CrashImage;
    LogTable(s.disk.wal, h, s.nextSequence, g);
    MergedGenuine(s.job.merged, s.segments, h, floor, g.covered, s.nextSequence);
    hide Genuine;
    LiveGenuine(t.segments, s.job.merged, s.segments, h);
    GenuineLayers(t.active, t.segments, h);
  }

  lemma LiveGenuine(live: seq<Seg>, merged: Seg, olds: seq<Seg>, h: History)
    requires Mixed(live, merged, olds) || Same(live, olds)
    requires Genuine(merged.table, h) && forall i :: 0 <= i < |olds| ==> Genuine(olds[i].table, h)
    ensures forall m :: 0 <= m < |live| ==> Genuine(live[m].table, h)
  {
    hide Genuine;
    forall m | 0 <= m < |live|
      ensures Genuine(live[m].table, h)
    {
      assert live[m] in live;
    }
  }

  lemma GenuineLayers(active: Table, segs: seq<Seg>, h: History)
    requires Strict(active) && AtMost(active, LATEST) && forall m :: 0 <= m < |segs| ==> Genuine(segs[m].table, h)
    ensures forall m :: 0 <= m < |[active] + Tables(segs)| ==>
              Strict(([active] + Tables(segs))[m]) && AtMost(([active] + Tables(segs))[m], LATEST)
    ensures forall m :: 0 <= m < |segs| ==> Sound(segs[m].table, h)
  {
    hide Strict;
    hide AtMost;
    hide Sound;
  }

  lemma LogTable(wal: History, h: History, next: nat, g: Cover)
    requires LogOK(wal, h, g) && HistoryOK(h, next)
    ensures Strict(TableOf(wal)) && AtMost(TableOf(wal), LATEST)
  {
    assert wal == h[g.logStart..|h|];
    TableOfStrict(wal);
    forall k, v | Has(TableOf(wal), k, v)
      ensures v.sequence <= LATEST
    {
      WindowHas(h, g.logStart, |h|, k, v);
    }
  }

  lemma MergedGenuine(merged: Seg, segments: seq<Seg>, h: History, floor: nat, covered: nat, next: nat)
    requires SegmentsOK(segments, h, floor, covered) && MergedOf(merged, segments, h, covered) && floor >= Hi(merged.table)
    requires HistoryOK(h, next)
    ensures Genuine(merged.table, h) && forall i :: 0 <= i < |segments| ==> Genuine(segments[i].table, h)
  {
    MergedLayerOK(merged, segments, h, floor, covered);
    CoveredGenuine(merged.table, h, floor, covered, next);
    hide MergedOf;
    hide Genuine;
    forall i | 0 <= i < |segments|
      ensures Genuine(segments[i].table, h)
    {
      CoveredGenuine(Tables(segments)[i], h, floor, covered, next);
    }
  }

  lemma CoveredGenuine(t: Table, h: History, floor: nat, covered: nat, next: nat)
    requires covered <= |h| && LayerOK(t, h[..covered], floor) && HistoryOK(h, next)
    ensures Genuine(t, h)
  {
    forall k, v | Has(t, k, v)
      ensures v.sequence <= LATEST && Op(v.sequence, k, v.value) in h
    {
      var j :| 0 <= j < covered && h[..covered][j] == Op(v.sequence, k, v.value);
      assert h[j] == h[..covered][j];
    }
  }

  /** A key that the log does not mention is read from the segments. */
  lemma UnloggedReads(s: State, h: History, floor: nat, g: Cover, cut: nat, d: Disk, t: State, k: Key)
    requires Inv(s, h, floor, g) && Registering(s) && MergeSafe(s.segments, Logged(s)) && k !in Logged(s)
    requires CrashImage(s.disk, cut, d) && Opened(d, t)
    requires forall m :: 0 <= m < |t.segments| ==> Sound(t.segments[m].table, h)
    ensures ReadAt(Tables(t.segments), k, LATEST) == Latest(h, k, LATEST)
  {
    hide *;
    var m := ReadAtFinds(Tables(t.segments), k, LATEST);
    if m < |t.segments| {
      var v := Visible(t.segments[m].table, k, LATEST).value;
      LogFacts(s, h, floor, g);
      VisibleIsWritten(t.segments[m].table, h, s.nextSequence, k, v);
      var x := Latest(h, k, LATEST).value;
      LatestHeld(s, h, floor, g, k, x);
      FirstFound(t.segments, k, m);
      FirstShowsNewest(s, h, floor, g, cut, d, t, k, m, x);
      SameWritten(h, s.nextSequence, k, v, x);
    } else if Latest(h, k, LATEST).Some? {
      LatestHeld(s, h, floor, g, k, Latest(h, k, LATEST).value);
      SomeShows(s, h, floor, g, cut, d, t, k, Latest(h, k, LATEST).value);
    }
  }

  lemma FirstFound(live: seq<Seg>, k: Key, m: nat)
    requires m < |live| && Visible(live[m].table, k, LATEST).Some?
    requires forall j :: 0 <= j < m ==> Visible(Tables(live)[j], k, LATEST).None?
    ensures FirstToShow(live, k, m)
  {
    hide Visible;
    assert forall j :: 0 <= j < m ==> Tables(live)[j] == live[j].table;
  }

  /** What a sound table shows was written, so the history has a last operation no older. */
  lemma VisibleIsWritten(t: Table, h: History, next: nat, k: Key, v: VersionedEntry)
    requires Sound(t, h) && HistoryOK(h, next) && Visible(t, k, LATEST) == Some(v)
    ensures Op(v.sequence, k, v.value) in h
    ensures Latest(h, k, LATEST).Some? && Latest(h, k, LATEST).value.sequence >= v.sequence
  {
    hide Latest;
    assert Has(t, k, v);
    LatestIsNewest(h, k, LATEST, Op(v.sequence, k, v.value));
  }

  lemma SameWritten(h: History, next: nat, k: Key, v: VersionedEntry, x: VersionedEntry)
    requires HistoryOK(h, next) && Op(v.sequence, k, v.value) in h && Op(x.sequence, k, x.value) in h
    requires v.sequence == x.sequence
    ensures v == x
  {
    SequencesIdentify(h, Op(v.sequence, k, v.value), Op(x.sequence, k, x.value));
  }

  lemma LatestHeld(s: State, h: History, floor: nat, g: Cover, k: Key, x: VersionedEntry)
    requires Inv(s, h, floor, g) && k !in Logged(s) && Latest(h, k, LATEST) == Some(x)
    ensures Newest(s.segments, k, x) && x.sequence <= LATEST
  {
    hide Inv;
    UnloggedIsCovered(s, h, floor, g, k);
    forall w | InSome(Tables(s.segments), k, w)
      ensures w.sequence <= x.sequence
    {
      SegmentBelowLast(s, h, floor, g, k, w);
    }
  }

  /** Some live segment shows a key that the segments hold. */
  lemma SomeShows(s: State, h: History, floor: nat, g: Cover, cut: nat, d: Disk, t: State, k: Key, x: VersionedEntry)
    requires Inv(s, h, floor, g) && Registering(s) && CrashImage(s.disk, cut, d) && Opened(d, t)
    requires Newest(s.segments, k, x) && x.sequence <= LATEST
    ensures exists m :: 0 <= m < |t.segments| && Visible(t.segments[m].table, k, LATEST).Some?
  {
    hide MergedOf;
    hide SegmentsOK;
    hide Newest;
    hide Mixed;
    hide Same;
    hide Visible;
    LiveAfterCut(s, h, floor, g, cut, d, t);
    JobFacts(s, h, floor, g);
    hide Inv;
    hide Opened;
    if cut > |s.disk.manifest| - |s.segments| - 1 {
      MixedShows(t.segments, s.job.merged, s.segments, h, floor, g.covered, k, x);
    } else {
      SegmentsStrict(s.segments, h, floor, g.covered);
      SameShows(t.segments, s.segments, k, x);
    }
  }

  lemma MixedShows(live: seq<Seg>, merged: Seg, segments: seq<Seg>, h: History, floor: nat, covered: nat, k: Key, x: VersionedEntry)
    requires SegmentsOK(segments, h, floor, covered) && MergedOf(merged, segments, h, covered) && Mixed(live, merged, segments)
    requires Newest(segments, k, x) && x.sequence <= LATEST
    ensures exists m :: 0 <= m < |live| && Visible(live[m].table, k, LATEST).Some?
  {
    hide SegmentsOK;
    hide MergedOf;
    hide Newest;
    MergedShows(merged, segments, h, floor, covered, k, x);
    var q :| 0 <= q < |live| && live[q] == merged;
  }

  lemma SameShows(live: seq<Seg>, segments: seq<Seg>, k: Key, x: VersionedEntry)
    requires Same(live, segments) && Newest(segments, k, x) && x.sequence <= LATEST
    requires forall i :: 0 <= i < |segments| ==> Strict(segments[i].table)
    ensures exists m :: 0 <= m < |live| && Visible(live[m].table, k, LATEST).Some?
  {
    var b :| 0 <= b < |segments| && Has(Tables(segments)[b], k, x);
    FirstVisibleIsNewest(segments[b].table[k], LATEST, x);
    assert segments[b] in live;
    var q :| 0 <= q < |live| && live[q] == segments[b];
  }

  // -------------------------------------------------------------------------
  // An unsafe merge reads stale at some cut
  // -------------------------------------------------------------------------

  /** How many segments in front declare at least `n`. */
  function Lead(n: nat, q: seq<Seg>): (p: nat)
    ensures p <= |q| && (forall a :: 0 <= a < p ==> q[a].maxSeq >= n) && (p < |q| ==> q[p].maxSeq < n)
  {
    if q == [] || q[0].maxSeq < n then 0 else 1 + Lead(n, q[1..])
  }

  /** Sorted in behind every segment that declares as much. */
  function Behind(m: Seg, q: seq<Seg>): seq<Seg>
  {
    q[..Lead(m.maxSeq, q)] + [m] + q[Lead(m.maxSeq, q)..]
  }

  function SortSegs(l: seq<Seg>): seq<Seg>
  {
    if l == [] then [] else Behind(l[0], SortSegs(l[1..]))
  }

  lemma BehindSorted(m: Seg, q: seq<Seg>)
    requires SortedByMax(q)
    ensures SortedByMax(Behind(m, q))
  {
    var p, r := Lead(m.maxSeq, q), Behind(m, q);
    forall i, j | 0 <= i < j < |r|
      ensures r[i].maxSeq >= r[j].maxSeq
    {
      assert i < p ==> r[i] == q[i];
      assert i > p ==> r[i] == q[i - 1];
      assert j < p ==> r[j] == q[j];
      assert j > p ==> r[j] == q[j - 1];
      assert i == p && j > p ==> q[p].maxSeq >= q[j - 1].maxSeq;
    }
  }

  lemma {:induction false} SortSegsIs(l: seq<Seg>)
    requires DistinctIds(l)
    ensures SortedByMax(SortSegs(l)) && DistinctIds(SortSegs(l))
    ensures forall y :: y in SortSegs(l) <==> y in l
  {
    if l != [] {
      var q := SortSegs(l[1..]);
      SortSegsIs(l[1..]);
      var p := Lead(l[0].maxSeq, q);
      BehindSorted(l[0], q);
      forall y
        ensures y in SortSegs(l) <==> y in l
      {
        assert l == [l[0]] + l[1..];
        assert q == q[..p] + q[p..];
      }
      InsertedDistinct(l[0], q, p, l[1..]);
    }
  }

  lemma InsertedDistinct(m: Seg, q: seq<Seg>, p: nat, tail: seq<Seg>)
    requires p <= |q| && DistinctIds(q) && (forall y :: y in q ==> y in tail) && DistinctIds([m] + tail)
    ensures DistinctIds(q[..p] + [m] + q[p..])
  {
    var r := q[..p] + [m] + q[p..];
    forall i | 0 <= i < |q|
      ensures q[i].id != m.id
    {
      assert q[i] in tail;
      var j :| 0 <= j < |tail| && tail[j] == q[i];
      assert ([m] + tail)[0] == m && ([m] + tail)[j + 1] == q[i];
    }
    forall i, j | 0 <= i < j < |r|
      ensures r[i].id != r[j].id
    {
      assert i < p ==> r[i] == q[i];
      assert i > p ==> r[i] == q[i - 1];
      assert j < p ==> r[j] == q[j];
      assert j > p ==> r[j] == q[j - 1];
    }
  }

  /** The reopening after the cut that leaves the merged segment and the old ones from the `i`-th on. */
  function CutState(s: State, i: nat): State
    requires s.job.Compacting? && i < |s.segments| < |s.disk.manifest|
  {
    var cut := |s.disk.manifest| - |s.segments| + i;
    var d := s.disk.(manifest := s.disk.manifest[..cut], synced := cut);
    State(d.(wal := Accepted(d.wal)), RestoredSequence(d), TableOf(Accepted(d.wal)), [],
          SortSegs([s.job.merged] + s.segments[i..]), s.nextSegId, Idle)
  }

  lemma CutStateOpens(s: State, h: History, floor: nat, g: Cover, i: nat)
    requires Inv(s, h, floor, g) && Registering(s) && i < |s.segments|
    ensures |s.segments| < |s.disk.manifest| && CrashStep(s, |s.disk.manifest| - |s.segments| + i, CutState(s, i))
  {
    hide SortSegs;
    hide LiveIds;
    hide MaxFlushed;
    hide SegmentsOK;
    hide MemoryOK;
    hide LogOK;
    hide ManifestOK;
    hide HistoryOK;
    hide Sortable;
    hide MergedOf;
    hide RestoredSequence;
    hide Accepted;
    var m, cut := s.disk.manifest, |s.disk.manifest| - |s.segments| + i;
    var live := [s.job.merged] + s.segments[i..];
    CutMerge(m, s.job.merged, s.segments, s.disk.synced, cut);
    MergedFiles(s.job.merged, s.segments, s.disk.files, s.nextSegId, i);
    CutOpened(s, i, live);
  }

  lemma CutOpened(s: State, i: nat, live: seq<Seg>)
    requires s.job.Compacting? && i < |s.segments| < |s.disk.manifest| && live == [s.job.merged] + s.segments[i..]
    requires s.disk.synced <= |s.disk.manifest| - |s.segments| + i
    requires LiveIds(s.disk.manifest[..|s.disk.manifest| - |s.segments| + i]) == Ids(live)
    requires FilesOK(live, s.disk.files, s.nextSegId)
    ensures CrashStep(s, |s.disk.manifest| - |s.segments| + i, CutState(s, i))
  {
    hide SortSegs;
    hide LiveIds;
    hide MaxFlushed;
    hide RestoredSequence;
    hide Accepted;
    hide TableOf;
    var cut := |s.disk.manifest| - |s.segments| + i;
    var d := s.disk.(manifest := s.disk.manifest[..cut], synced := cut);
    var t := CutState(s, i);
    SortSegsIs(live);
    assert Ids(t.segments) == Ids(live);
    forall a | 0 <= a < |t.segments|
      ensures t.segments[a].id in d.files && t.segments[a] == d.files[t.segments[a].id]
    {
      assert t.segments[a] in live;
    }
    forall id | id in Ids(live)
      ensures id in d.files && id < s.nextSegId
    {
    }
    assert CrashImage(s.disk, cut, d);
    assert Opened(d, t);
  }

  /** In that reopening the oldest holder of a key stands in front of every other that has it. */
  lemma OldestLeads(merged: Seg, segs: seq<Seg>, i: nat, k: Key, m: nat)
    requires OldestHolder(segs, i, k) && merged.maxSeq == segs[0].maxSeq && DistinctIds([merged] + segs[i..])
    requires forall j :: 0 <= j < |segs| ==> Strict(segs[j].table) && AtMost(segs[j].table, LATEST)
    requires FirstToShow(SortSegs([merged] + segs[i..]), k, m)
    ensures SortSegs([merged] + segs[i..])[m] == segs[i]
  {
    var live := [merged] + segs[i..];
    var tail, all := SortSegs(segs[i..]), SortSegs(live);
    assert live[1..] == segs[i..];
    TailDistinct(live);
    SortSegsIs(segs[i..]);
    SortSegsIs(live);
    var p := Lead(merged.maxSeq, tail);
    assert all == tail[..p] + [merged] + tail[p..];
    hide SortSegs;
    hide Lead;
    assert segs[i..][0] == segs[i] && segs[i] in segs[i..];
    var a :| 0 <= a < |tail| && tail[a] == segs[i];
    assert a < p && all[a] == segs[i];
    ShowsFront(segs[i].table, k);
    assert m <= a;
    assert all[m] == tail[m] && tail[m] in segs[i..];
    var j :| 0 <= j < |segs[i..]| && segs[i..][j] == tail[m];
    assert segs[i + j] == tail[m] && tail[m].maxSeq >= tail[a].maxSeq;
  }

  lemma TailDistinct(l: seq<Seg>)
    requires l != [] && DistinctIds(l)
    ensures DistinctIds(l[1..])
  {
  }

  lemma ShowsFront(t: Table, k: Key)
    requires Strict(t) && AtMost(t, LATEST) && k in t
    ensures Visible(t, k, LATEST) == Some(t[k][0])
  {
    assert Has(t, k, t[k][0]);
  }

  /** If the oldest holder of an unlogged key is stale, the cut in front of it reads that key stale. */
  lemma UnsafeLoses(s: State, h: History, floor: nat, g: Cover, i: nat, k: Key)
    requires Inv(s, h, floor, g) && Registering(s)
    requires k !in Logged(s) && OldestHolder(s.segments, i, k) && !HoldsNewest(s.segments, i, k)
    ensures |s.segments| < |s.disk.manifest|
    ensures CrashStep(s, |s.disk.manifest| - |s.segments| + i, CutState(s, i))
    ensures ReadCurrent(ReaderLayers(CutState(s, i)), k) != Latest(h, k, LATEST)
  {
    CutStateOpens(s, h, floor, g, i);
    var t := CutState(s, i);
    LogFacts(s, h, floor, g);
    CutReads(s, h, g, i);
    JobFacts(s, h, floor, g);
    MergedFresh(s, h, floor, g, i);
    MergedGenuine(s.job.merged, s.segments, h, floor, g.covered, s.nextSequence);
    StaleBelow(s, h, floor, g, i, k);
    hide Inv;
    hide CrashStep;
    hide MergedOf;
    hide SegmentsOK;
    hide OldestHolder;
    hide HoldsNewest;
    hide Sound;
    hide RestoredSequence;
    LogTable(s.disk.wal, h, s.nextSequence, g);
    CutFront(s.job.merged, s.segments, i, k, h);
    CurrentOfFirst(t.active, t.segments, k);
  }

  lemma CutReads(s: State, h: History, g: Cover, i: nat)
    requires s.job.Compacting? && i < |s.segments| < |s.disk.manifest| && LogOK(s.disk.wal, h, g)
    ensures var t := CutState(s, i);
            t.active == TableOf(s.disk.wal) && ReaderLayers(t) == [t.active] + Tables(t.segments)
  {
    hide SortSegs;
    hide RestoredSequence;
    var t := CutState(s, i);
    AcceptedIffConsecutive(s.disk.wal);
    assert t.frozen + [t.active] == [t.active];
    StackIsOne(t.active, Tables(t.segments));
  }

  lemma MergedFresh(s: State, h: History, floor: nat, g: Cover, i: nat)
    requires Inv(s, h, floor, g) && Registering(s) && i < |s.segments|
    ensures DistinctIds([s.job.merged] + s.segments[i..])
  {
    hide SegmentsOK;
    hide MemoryOK;
    hide Sortable;
    hide MergedOf;
    MergedFiles(s.job.merged, s.segments, s.disk.files, s.nextSegId, i);
  }

  /** The front version of a stale holder is older than the last operation. */
  lemma StaleBelow(s: State, h: History, floor: nat, g: Cover, i: nat, k: Key)
    requires Inv(s, h, floor, g) && OldestHolder(s.segments, i, k) && !HoldsNewest(s.segments, i, k)
    ensures s.segments[i].table[k] != [] ==> Latest(h, k, LATEST) != Some(s.segments[i].table[k][0])
  {
    hide Inv;
    var v :| InSome(Tables(s.segments), k, v) && forall w :: Has(s.segments[i].table, k, w) ==> v.sequence > w.sequence;
    SegmentBelowLast(s, h, floor, g, k, v);
    if s.segments[i].table[k] != [] {
      assert Has(s.segments[i].table, k, s.segments[i].table[k][0]);
    }
  }

  /** The first to show the key there is its oldest holder. */
  lemma CutFront(merged: Seg, segs: seq<Seg>, i: nat, k: Key, h: History)
    requires OldestHolder(segs, i, k) && merged.maxSeq == segs[0].maxSeq && DistinctIds([merged] + segs[i..])
    requires Genuine(merged.table, h) && forall j :: 0 <= j < |segs| ==> Genuine(segs[j].table, h)
    ensures k in segs[i].table && segs[i].table[k] != []
    ensures ReadAt(Tables(SortSegs([merged] + segs[i..])), k, LATEST) == Some(segs[i].table[k][0])
    ensures forall j :: 0 <= j < |SortSegs([merged] + segs[i..])| ==> Genuine(SortSegs([merged] + segs[i..])[j].table, h)
  {
    var live := [merged] + segs[i..];
    var all := SortSegs(live);
    SortSegsIs(live);
    hide SortSegs;
    hide Sound;
    ShowsFront(segs[i].table, k);
    assert live[1] == segs[i] && segs[i] in live;
    var a :| 0 <= a < |all| && all[a] == segs[i];
    var m := ReadAtFinds(Tables(all), k, LATEST);
    assert Tables(all)[a] == segs[i].table;
    OldestLeads(merged, segs, i, k, m);
    forall j | 0 <= j < |all|
      ensures Genuine(all[j].table, h)
    {
      assert all[j] in live;
    }
  }

  lemma CurrentOfFirst(active: Table, segs: seq<Seg>, k: Key)
    requires Strict(active) && AtMost(active, LATEST) && k !in active
    requires forall j :: 0 <= j < |segs| ==> Strict(segs[j].table) && AtMost(segs[j].table, LATEST)
    ensures ReadCurrent([active] + Tables(segs), k) == ReadAt(Tables(segs), k, LATEST)
  {
    var layers := [active] + Tables(segs);
    assert layers[1..] == Tables(segs);
    hide Strict;
    hide AtMost;
    forall m | 0 <= m < |layers|
      ensures Strict(layers[m]) && AtMost(layers[m], LATEST)
    {
      assert m > 0 ==> layers[m] == segs[m - 1].table;
    }
    CurrentIsLatest(layers, k);
  }

  /**
   * Exactly when a compaction can be torn: every cut of its records and every order of equal
   * maxima reopens to reads of the last operations if and only if, for each key that the log does
   * not replay, the oldest segment that holds it and declares at least what the front one does
   * holds its newest version.
   */
  lemma TornReadsIff(s: State, h: History, floor: nat, g: Cover)
    requires Inv(s, h, floor, g) && Registering(s)
    ensures ReopensRight(s, h) <==> MergeSafe(s.segments, Logged(s))
  {
    hide Inv;
    if MergeSafe(s.segments, Logged(s)) {
      forall cut: nat, t, k | CrashStep(s, cut, t)
        ensures ReadCurrent(ReaderLayers(t), k) == Latest(h, k, LATEST)
      {
        SafeReopens(s, h, floor, g, cut, t, k);
      }
    } else {
      var i: nat, k :| k !in Logged(s) && OldestHolder(s.segments, i, k) && !HoldsNewest(s.segments, i, k);
      UnsafeLoses(s, h, floor, g, i, k);
    }
  }

  /** The same, before the compaction starts. */
  lemma TornMergeReadsIff(s: State, keep: nat, s1: State, s2: State, h: History, floor: nat, g: Cover)
    requires Inv(s, h, floor, g) && MergeStep(s, keep, s1) && RegisterMergedStep(s1, s2)
    ensures ReopensRight(s2, h) <==> MergeSafe(s.segments, Logged(s))
  {
    MergedSteps(s, keep, s1, s2, h, floor, g);
    hide *;
    MergeKeeps(s, keep, s1, h, floor, g);
    RegisterMergedKeeps(s1, s2, h, floor, g);
    TornReadsIff(s2, h, NextFloor(s1, floor, RegisterMerged), g);
  }

  lemma MergedSteps(s: State, keep: nat, s1: State, s2: State, h: History, floor: nat, g: Cover)
    requires Inv(s, h, floor, g) && MergeStep(s, keep, s1) && RegisterMergedStep(s1, s2)
    ensures Registering(s2) && s2.segments == s.segments && Logged(s2) == Logged(s)
  {
    hide FilesOK;
    hide SegmentsOK;
    hide Sortable;
    hide MemoryOK;
    hide LogOK;
    hide ManifestOK;
    hide HistoryOK;
    hide Merged;
    hide TableOf;
  }
}
