/**
 * Where the code falls short of its documentation: the exact condition for each promise, and
 * a run that breaks it.
 */
module Limits {
  import opened Encoding
  import opened Options
  import opened Versions
  import opened Layers
  import opened Compaction
  import opened Machine
  import opened Safety
  import opened Recovery
  import opened Runs

  // -------------------------------------------------------------------------
  // Batches of several operations
  // -------------------------------------------------------------------------

  /** The log is as every run of one-operation appends leaves it. */
  ghost predicate CleanLog(s: State)
  {
    Consecutive(s.disk.wal) && (s.disk.wal != [] ==> s.nextSequence == LastSequence(s.disk.wal) + 1)
  }

  /**
   * An append takes one sequence from the counter and numbers its frames from there on. The
   * append after it is still in the log after reopening exactly when this one held a single
   * operation; otherwise it is precisely the later append that is cut off, acknowledged or not.
   */
  lemma NextWriteSurvivesIff(s: State, ops: seq<(Key, EntryValue)>, op: (Key, EntryValue))
    requires ops != [] && CleanLog(s)
    ensures var once := AfterWrite(s, ops);
            var twice := AfterWrite(once, [op]);
            && Accepted(once.disk.wal) == once.disk.wal
            && (Accepted(twice.disk.wal) == twice.disk.wal <==> |ops| == 1)
            && (|ops| > 1 ==> Accepted(twice.disk.wal) == once.disk.wal)
  {
    hide AcceptedLength;
    hide Numbered;
    hide PushAll;
    var n := s.nextSequence;
    var w1 := s.disk.wal + Numbered(ops, n);
    GroupFollows(s.disk.wal, ops, n);
    AcceptedIffConsecutive(w1);
    OneMore(w1, Op(n + 1, op.0, op.1));
    NumberedOne(op, n + 1);
  }

  lemma NumberedOne(op: (Key, EntryValue), n: nat)
    ensures Numbered([op], n) == [Op(n, op.0, op.1)]
  {
  }

  lemma GroupFollows(w: History, ops: seq<(Key, EntryValue)>, n: nat)
    requires Consecutive(w) && (w != [] ==> n == LastSequence(w) + 1) && ops != []
    ensures Consecutive(w + Numbered(ops, n)) && LastSequence(w + Numbered(ops, n)) == n + |ops| - 1
  {
    if w != [] {
      assert w[|w| - 1].sequence == w[0].sequence + (|w| - 1);
    }
  }

  /** One more frame is accepted exactly when it follows the last; otherwise it alone is cut. */
  lemma OneMore(w: History, o: Op)
    requires Consecutive(w) && w != []
    ensures Accepted(w + [o]) == if o.sequence == LastSequence(w) + 1 then w + [o] else w
  {
    var w' := w + [o];
    hide AcceptedLength;
    assert w[|w| - 1].sequence == w[0].sequence + (|w| - 1);
    if o.sequence == LastSequence(w) + 1 {
      AcceptedIffConsecutive(w');
    } else {
      AcceptedStops(w, w');
    }
  }

  /** Reopening stops before the first frame that does not follow. */
  lemma {:induction false} AcceptedStops(w: History, w': History)
    requires w != [] && w <= w' && Consecutive(w)
    requires |w'| == |w| + 1 && w'[|w|].sequence != w[|w| - 1].sequence + 1
    ensures Accepted(w') == w
  {
    if |w| > 1 {
      var t, t' := w[1..], w'[1..];
      assert forall i :: 0 <= i < |t| ==> t[i] == w[i + 1] && t[i].sequence == w[0].sequence + i + 1;
      AcceptedStops(t, t');
      assert Accepted(t') == t'[..AcceptedLength(t')];
    }
    assert AcceptedLength(w') == |w|;
  }

  /**
   * An append refused after its sequence was taken leaves a gap. The next append is still in
   * the log after reopening exactly when the log was empty.
   */
  lemma WriteAfterRejectSurvivesIff(s: State, op: (Key, EntryValue))
    requires CleanLog(s)
    ensures var t := AfterWrite(s.(nextSequence := s.nextSequence + 1), [op]);
            && (Accepted(t.disk.wal) == t.disk.wal <==> s.disk.wal == [])
            && (s.disk.wal != [] ==> Accepted(t.disk.wal) == s.disk.wal)
  {
    var o := Op(s.nextSequence + 1, op.0, op.1);
    assert Numbered([op], s.nextSequence + 1) == [o];
    if s.disk.wal != [] {
      OneMore(s.disk.wal, o);
    } else {
      assert [] + [o] == [o];
    }
  }

  function FreshState(): State
  {
    State(Disk([], [], 0, map[]), 1, map[], [], [], 1, Idle)
  }

  function Put1(k: Key, v: Bytes): seq<(Key, EntryValue)>
  {
    [(k, Value(v))]
  }

  lemma WriteOne(s: State, k: Key, v: Bytes)
    ensures AfterWrite(s, Put1(k, v)).active == Push(s.active, k, VersionedEntry(s.nextSequence, Value(v)))
    ensures AfterWrite(s, Put1(k, v)).disk.wal == s.disk.wal + [Op(s.nextSequence, k, Value(v))]
    ensures ReadCurrent(ReaderLayers(AfterWrite(s, Put1(k, v))), k) == Some(VersionedEntry(s.nextSequence, Value(v)))
  {
    var t := AfterWrite(s, Put1(k, v));
    OneNumbered(Put1(k, v), s.nextSequence, s.active);
    StackIndex(t.frozen + [t.active], Tables(t.segments), 0);
  }

  lemma CurrentOne(t: Table, k: Key)
    ensures ReadCurrent([t], k) == Front(t, k)
  {
    assert ReadCurrent([t][1..], k).None?;
  }

  lemma CurrentTwo(t: Table, u: Table, k: Key)
    ensures ReadCurrent([t, u], k) == if Front(t, k).Some? then Front(t, k) else Front(u, k)
  {
    CurrentOne(u, k);
    assert [t, u][1..] == [u];
  }

  /** The readers of a store with nothing but its active table. */
  lemma OnlyActive(s: State)
    requires s.frozen == [] && s.segments == []
    ensures ReaderLayers(s) == [s.active]
  {
    assert s.frozen + [s.active] == [s.active];
    StackIndex([s.active], Tables(s.segments), 0);
  }

  lemma NotThere(wal: History, c: Key)
    requires Increasing(wal) && forall i :: 0 <= i < |wal| ==> wal[i].key != c
    ensures Front(TableOf(wal), c).None?
  {
    var t := TableOf(wal);
    TableOfStrict(wal);
    if c in t {
      TableOfHas(wal, c, t[c][0]);
    }
  }

  /**
   * A batch of two puts, an acknowledged put of a third key, and a restart: the third key is
   * gone.
   */
  lemma BatchLosesNextWrite(a: Key, b: Key, c: Key, v: Bytes) returns (s1: State, s2: State, s3: State)
    requires c != a && c != b
    ensures WriteStep(FreshState(), [(a, Value(v)), (b, Value(v))], s1)
    ensures WriteStep(s1, Put1(c, v), s2)
    ensures CrashStep(s2, 0, s3)
    ensures Get(s2, c) == Some(v) && Get(s3, c) == None
  {
    hide PushAll;
    hide Accepted;
    hide TableOf;
    hide ReadCurrent;
    hide ReaderLayers;
    hide CrashStep;
    var ops := [(a, Value(v)), (b, Value(v))];
    s1 := AfterWrite(FreshState(), ops);
    s2 := AfterWrite(s1, Put1(c, v));
    var w: History := [Op(1, a, Value(v)), Op(2, b, Value(v))];
    s3 := Reopened(s2.disk, w);
    BatchThenPut(ops, c, v);
    NotThere(w, c);
    assert Numbered(ops, 1) == w && [] + w == w;
    ReopenedFresh(s2, w);
    OnlyActive(s3);
    CurrentOne(s3.active, c);
  }

  lemma BatchThenPut(ops: seq<(Key, EntryValue)>, c: Key, v: Bytes)
    requires |ops| > 1
    ensures var s1 := AfterWrite(FreshState(), ops);
            var s2 := AfterWrite(s1, Put1(c, v));
            && Get(s2, c) == Some(v) && Accepted(s2.disk.wal) == s1.disk.wal
            && s1.disk.wal == Numbered(ops, 1)
  {
    var s1 := AfterWrite(FreshState(), ops);
    assert [] + Numbered(ops, 1) == Numbered(ops, 1);
    hide PushAll;
    hide Accepted;
    hide ReadCurrent;
    WriteOne(s1, c, v);
    NextWriteSurvivesIff(FreshState(), ops, (c, Value(v)));
  }

  lemma ReopenedFresh(s: State, log: History)
    requires s.disk.manifest == [] && s.disk.synced == 0 && s.disk.files == map[] && Accepted(s.disk.wal) == log
    ensures CrashStep(s, 0, Reopened(s.disk, log))
  {
    hide Accepted;
    hide RestoredSequence;
    hide TableOf;
    assert s.disk.manifest[..0] == [];
    assert CrashImage(s.disk, 0, s.disk) && Opened(s.disk, Reopened(s.disk, log));
  }

  function Reopened(d: Disk, log: History): State
  {
    State(d.(wal := log), RestoredSequence(d), TableOf(log), [], [], 1, Idle)
  }

  // -------------------------------------------------------------------------
  // Sorting on flush
  // -------------------------------------------------------------------------

  /**
   * Memory reads the front of a chain, a segment its greatest sequence. Writing a table out keeps
   * the current read of a key exactly when the front version has the greatest sequence.
   */
  lemma FlushKeepsFrontIff(t: Table, t': Table, k: Key)
    requires SortedVersion(t', t) && k in t && t[k] != []
    ensures t'[k] != []
    ensures t'[k][0].sequence == t[k][0].sequence <==> forall v :: v in t[k] ==> v.sequence <= t[k][0].sequence
    ensures t'[k][0] in t[k] && forall v :: v in t[k] ==> v.sequence <= t'[k][0].sequence
  {
    var c, d := t[k], t'[k];
    assert |multiset(d)| == |d| && |multiset(c)| == |c|;
    assert d[0] in multiset(c);
    forall v | v in c
      ensures v.sequence <= d[0].sequence
    {
      assert v in multiset(d);
      var j :| 0 <= j < |d| && d[j] == v;
    }
    assert c[0] in c;
  }

  /** Writing out a chain that is not sorted puts its greatest sequence in front. */
  lemma NewestLeads(t: Table, t': Table, k: Key, v: VersionedEntry, first: VersionedEntry, last: VersionedEntry)
    requires k in t && t[k] == [v, first, last] && last.sequence < v.sequence < first.sequence && SortedVersion(t', t)
    ensures k in t' && t'[k] != [] && t'[k][0] == first
  {
    FlushKeepsFrontIff(t, t', k);
    assert t[k][1] in t[k];
  }

  lemma ThreeInserted(k: Key, x: Key, a: Bytes, b: Bytes, s: State)
    requires x != k && s == AfterWrite(FreshState(), [(k, Value(a)), (x, Value(a)), (k, Value(b))])
    ensures s.nextSequence == 2
    ensures s.active == map[k := [VersionedEntry(3, Value(b)), VersionedEntry(1, Value(a))], x := [VersionedEntry(2, Value(a))]]
  {
    var h := Numbered([(k, Value(a)), (x, Value(a)), (k, Value(b))], 1);
    var one: Chain := [VersionedEntry(1, Value(a))];
    var t1 := Push(map[], k, VersionedEntry(1, Value(a)));
    var t2 := Push(t1, x, VersionedEntry(2, Value(a)));
    assert t1[k] == one + [] == one;
    assert t2[k] == one;
    var three: Chain := [VersionedEntry(3, Value(b)), VersionedEntry(1, Value(a))];
    var other: Chain := [VersionedEntry(2, Value(a))];
    assert t2[x] == other + [] == other;
    var t3 := Push(t2, k, VersionedEntry(3, Value(b)));
    assert t3[k] == [VersionedEntry(3, Value(b))] + one == three;
    assert t3 == map[k := three, x := other];
    assert h[1..][1..][1..] == [];
    assert PushAll(t2, h[1..][1..]) == t3;
    assert PushAll(t1, h[1..]) == t3;
    assert PushAll(map[], h) == t3;
  }

  // -------------------------------------------------------------------------
  // Snapshots across a compaction
  // -------------------------------------------------------------------------

  lemma {:induction false} StackIsAppend<T>(m: seq<T>, below: seq<T>)
    ensures Stack(m, below) == Stack(m, []) + below
  {
    if m == [] {
      assert [] + below == below;
    } else {
      StackIsAppend(m[1..], [m[0]] + below);
      StackIsAppend(m[1..], [m[0]]);
      assert [m[0]] + [] == [m[0]];
      assert Stack(m[1..], []) + ([m[0]] + below) == Stack(m[1..], []) + [m[0]] + below;
    }
  }

  lemma {:induction false} ReadAtJoin(a: LayerList, b: LayerList, k: Key, s: nat)
    ensures ReadAt(a + b, k, s) == if ReadAt(a, k, s).Some? then ReadAt(a, k, s) else ReadAt(b, k, s)
  {
    if a == [] {
      assert a + b == b;
    } else {
      assert (a + b)[0] == a[0] && (a + b)[1..] == a[1..] + b;
      ReadAtJoin(a[1..], b, k, s);
    }
  }

  /** The tables in memory, newest first. */
  function MemoryLayers(s: State): LayerList
  {
    Stack(s.frozen + [s.active], [])
  }

  /**
   * Exactly when compaction keeps what a snapshot reads of a key, whatever retention floor it
   * is given: when a table in memory answers, or the segments hold no version of the key above
   * the snapshot, or the snapshot reads nothing there anyway.
   */
  lemma CompactionKeepsSnapshotIff(s: State, keep: nat, h: History, floor: nat, g: Cover, k: Key, snapshot: nat)
    requires Inv(s, h, floor, g) && s.segments != [] && snapshot >= floor
    ensures GetAt(Compacted(s, keep), snapshot, k) == GetAt(s, snapshot, k) <==>
              || ReadAt(MemoryLayers(s), k, snapshot).Some?
              || FullChain(Tables(s.segments), k) == [] || FullChain(Tables(s.segments), k)[0].sequence <= snapshot
              || Live(ReadAt(Tables(s.segments), k, snapshot)).None?
  {
    assert SegmentsOK(s.segments, h, floor, g.covered);
    hide Inv;
    hide LayersOK;
    hide Merged;
    hide FullChain;
    hide ReadAt;
    hide Stack;
    var m, ts := s.frozen + [s.active], Tables(s.segments);
    var merged: LayerList := [Merged(ts, keep)];
    assert Tables(Compacted(s, keep).segments) == merged;
    StackIsAppend(m, ts);
    StackIsAppend(m, merged);
    ReadAtJoin(MemoryLayers(s), ts, k, snapshot);
    ReadAtJoin(MemoryLayers(s), merged, k, snapshot);
    CodedRuleKeepsSnapshotIff(ts, h[..g.covered], floor, keep, k, snapshot);
  }

  // -------------------------------------------------------------------------
  // Readers during a flush
  // -------------------------------------------------------------------------

  /**
   * Between popping a frozen table and publishing its segment a reader misses it: a put, a
   * freeze and the first step of a flush hide an acknowledged value. `Runs.ReadIff` is the
   * exact condition.
   */
  lemma FlushHidesValue(k: Key, v: Bytes) returns (s1: State, s2: State, s3: State)
    ensures WriteStep(FreshState(), Put1(k, v), s1)
    ensures FreezeStep(s1, s2)
    ensures TakeStep(s2, 1, false, s3)
    ensures Get(s2, k) == Some(v) && Get(s3, k) == None
  {
    var s0 := FreshState();
    s1 := AfterWrite(s0, Put1(k, v));
    WriteOne(s0, k, v);
    var t := s1.active;
    s2 := s1.(active := map[], frozen := [t]);
    s3 := s2.(frozen := [], job := Moving([t], [], false, Taken));
    assert s1.frozen + [s1.active] == [t] && s2.frozen[1..] == [] && s2.frozen[..1] == [t];
    var m: LayerList := [t, map[]];
    assert s2.frozen + [s2.active] == m;
    StackIndex(m, Tables(s2.segments), 0);
    StackIndex(m, Tables(s2.segments), 1);
    assert ReaderLayers(s2) == [map[], t];
    CurrentTwo(map[], t, k);
    OnlyActive(s3);
    CurrentOne(map[], k);
  }

  // -------------------------------------------------------------------------
  // A crash inside the log truncation
  // -------------------------------------------------------------------------

  /** Some segment holds the last operation of the history. */
  ghost predicate LastInSegments(s: State, h: History)
    requires h != []
  {
    exists i :: 0 <= i < |s.segments| && Has(s.segments[i].table, h[|h| - 1].key, Version(h[|h| - 1]))
  }

  /** No key of the first `n` operations is written again after them. */
  ghost predicate NotRewritten(log: History, n: nat)
  {
    forall i, j :: 0 <= i < n <= j < |log| ==> log[i].key != log[j].key
  }

  /**
   * Truncation empties the file and then rewrites the frames above the boundary. A crash that
   * leaves only the first `n` of them is harmless exactly when none is missing, or the segments
   * hold the last operation and no key among those `n` is written again in the missing ones: a
   * key that is would be read stale from the log in front of the segments.
   */
  lemma TornTruncationIff(s: State, h: History, floor: nat, g: Cover, n: nat, d: Disk, s': State)
    requires Inv(s, h, floor, g) && s.job.Truncating?
    requires n <= |KeepAbove(s.disk.wal, s.job.boundary)|
    requires d == s.disk.(wal := KeepAbove(s.disk.wal, s.job.boundary)[..n]) && Opened(d, s')
    ensures n < |KeepAbove(s.disk.wal, s.job.boundary)| ==> h != []
    ensures (forall k :: ReadCurrent(ReaderLayers(s'), k) == Latest(h, k, LATEST)) <==>
              || n == |KeepAbove(s.disk.wal, s.job.boundary)|
              || (LastInSegments(s, h) && NotRewritten(KeepAbove(s.disk.wal, s.job.boundary), n))
  {
    var keep := KeepAbove(s.disk.wal, s.job.boundary);
    hide Inv;
    hide Opened;
    hide KeepAbove;
    hide LastInSegments;
    hide NotRewritten;
    if n == |keep| {
      assert keep[..n] == keep;
      WholeTruncation(s, h, floor, g, d, s');
    } else {
      TruncationKeepsLast(s, h, floor, g);
      if !LastInSegments(s, h) {
        TornTruncationLoses(s, h, floor, g, n, s');
      } else if !NotRewritten(keep, n) {
        RewrittenIsStale(s, h, floor, g, n, s');
      } else {
        forall k
          ensures ReadCurrent(ReaderLayers(s'), k) == Latest(h, k, LATEST)
        {
          TornTruncationHarmless(s, h, floor, g, n, s', k);
        }
      }
    }
  }

  /** After a checkpoint that flushed something, a torn truncation is harmless exactly when nothing is missing. */
  lemma FlushedTruncationIff(s: State, h: History, floor: nat, g: Cover, n: nat, d: Disk, s': State)
    requires Inv(s, h, floor, g) && s.job.Truncating? && s.job.boundary > 0
    requires n <= |KeepAbove(s.disk.wal, s.job.boundary)|
    requires d == s.disk.(wal := KeepAbove(s.disk.wal, s.job.boundary)[..n]) && Opened(d, s')
    ensures (forall k :: ReadCurrent(ReaderLayers(s'), k) == Latest(h, k, LATEST)) <==>
              n == |KeepAbove(s.disk.wal, s.job.boundary)|
  {
    hide Inv;
    hide Opened;
    hide KeepAbove;
    hide ReaderLayers;
    TornTruncationIff(s, h, floor, g, n, d, s');
    if n < |KeepAbove(s.disk.wal, s.job.boundary)| {
      TruncationKeepsLast(s, h, floor, g);
      SegmentsMissLast(s, h, floor, g);
    }
  }

  /** What the kept frames replay, in front of reopened segments. */
  lemma TornLayers(s: State, h: History, floor: nat, g: Cover, n: nat, s': State)
    requires Inv(s, h, floor, g) && s.job.Truncating? && n <= |KeepAbove(s.disk.wal, s.job.boundary)|
    requires Opened(s.disk.(wal := KeepAbove(s.disk.wal, s.job.boundary)[..n]), s')
    ensures var kept := KeepAbove(s.disk.wal, s.job.boundary)[..n];
            && ReaderLayers(s') == [TableOf(kept)] + Tables(s'.segments)
            && Strict(TableOf(kept)) && AtMost(TableOf(kept), LATEST)
            && SegmentsOK(s'.segments, h, floor, g.covered) && HistoryOK(h, s.nextSequence) && floor <= LATEST
  {
    hide *;
    var kept := KeepAbove(s.disk.wal, s.job.boundary)[..n];
    var a := KeptWindow(s, h, floor, g, n);
    SettledImage(s, h, floor, g);
    SegmentFacts(s, h, floor, g);
    AcceptedIffConsecutive(kept);
    TornActive(kept, h, s.nextSequence, a);
    OpenedOn(s, kept, s', h, floor, g.covered);
  }

  /** Opening on a log that is accepted whole. */
  lemma OpenedOn(s: State, kept: History, s': State, h: History, floor: nat, covered: nat)
    requires Opened(s.disk.(wal := kept), s') && Accepted(kept) == kept && LiveIds(s.disk.manifest) == Ids(s.segments)
    requires FilesOK(s.segments, s.disk.files, s.nextSegId) && SegmentsOK(s.segments, h, floor, covered)
    requires Sortable(s.segments, floor)
    ensures ReaderLayers(s') == [TableOf(kept)] + Tables(s'.segments) && SegmentsOK(s'.segments, h, floor, covered)
  {
    OpenedParts(s.disk.(wal := kept), s');
    hide *;
    OpenSegments(s.segments, s'.segments, s.disk.files, s.nextSegId, s'.nextSegId, h, floor, covered);
  }

  /** What opening reads, and what its readers see. */
  lemma OpenedParts(d: Disk, t: State)
    requires Opened(d, t)
    ensures Ids(t.segments) == LiveIds(d.manifest) && DistinctIds(t.segments) && SortedByMax(t.segments)
    ensures forall i :: 0 <= i < |t.segments| ==> t.segments[i].id in d.files && t.segments[i] == d.files[t.segments[i].id]
    ensures forall id :: id in Ids(t.segments) ==> id < t.nextSegId
    ensures ReaderLayers(t) == [TableOf(Accepted(d.wal))] + Tables(t.segments)
  {
    hide RestoredSequence;
    hide Accepted;
    hide TableOf;
    hide LiveIds;
    hide Stack;
    assert t.frozen + [t.active] == [t.active];
    StackIsOne(t.active, Tables(t.segments));
  }

  lemma TornActive(kept: History, h: History, next: nat, a: nat)
    requires HistoryOK(h, next) && a + |kept| <= |h| && kept == h[a..a + |kept|]
    ensures Strict(TableOf(kept)) && AtMost(TableOf(kept), LATEST)
  {
    SliceIncreasing(h, a, a + |kept|);
    TableOfStrict(kept);
    KeptFits(kept, h, next, a);
    hide TableOf;
    forall k, v | Has(TableOf(kept), k, v)
      ensures v.sequence <= LATEST
    {
      TableOfHas(kept, k, v);
    }
  }

  lemma KeptFits(kept: History, h: History, next: nat, a: nat)
    requires HistoryOK(h, next) && a + |kept| <= |h| && kept == h[a..a + |kept|]
    ensures forall o :: o in kept ==> o.sequence <= LATEST
  {
    forall i | 0 <= i < |kept|
      ensures kept[i].sequence <= LATEST
    {
      assert kept[i] == h[a + i];
    }
  }

  /** The kept frames are a window of the history. */
  lemma KeptWindow(s: State, h: History, floor: nat, g: Cover, n: nat) returns (a: nat)
    requires Inv(s, h, floor, g) && s.job.Truncating? && n <= |KeepAbove(s.disk.wal, s.job.boundary)|
    ensures var keep := KeepAbove(s.disk.wal, s.job.boundary);
            a + |keep| == |h| && keep == h[a..] && keep[..n] == h[a..a + n] && Consecutive(keep[..n])
  {
    LogFacts(s, h, floor, g);
    hide Inv;
    a := WindowOfLog(s.disk.wal, h, g, s.job.boundary, n);
  }

  lemma WindowOfLog(wal: History, h: History, g: Cover, boundary: nat, n: nat) returns (a: nat)
    requires LogOK(wal, h, g) && Increasing(h) && n <= |KeepAbove(wal, boundary)|
    ensures var keep := KeepAbove(wal, boundary);
            a + |keep| == |h| && keep == h[a..] && keep[..n] == h[a..a + n] && Consecutive(keep[..n])
  {
    hide KeepAbove;
    SuffixIncreasing(h, g.logStart);
    var i := KeepAboveSuffix(wal, boundary);
    a := g.logStart + i;
    SuffixConsecutive(wal, i);
  }

  /** A key of the kept frames that a missing one writes again is read from the kept ones. */
  lemma RewrittenIsStale(s: State, h: History, floor: nat, g: Cover, n: nat, s': State)
    requires Inv(s, h, floor, g) && s.job.Truncating? && n <= |KeepAbove(s.disk.wal, s.job.boundary)|
    requires Opened(s.disk.(wal := KeepAbove(s.disk.wal, s.job.boundary)[..n]), s')
    requires !NotRewritten(KeepAbove(s.disk.wal, s.job.boundary), n)
    ensures exists k :: ReadCurrent(ReaderLayers(s'), k) != Latest(h, k, LATEST)
  {
    hide *;
    var keep := KeepAbove(s.disk.wal, s.job.boundary);
    TornLayers(s, h, floor, g, n, s');
    var a := KeptWindow(s, h, floor, g, n);
    var k := StaleKey(keep, h, a, n, s.nextSequence, Tables(s'.segments));
  }

  lemma StaleKey(keep: History, h: History, a: nat, n: nat, next: nat, below: LayerList) returns (k: Key)
    requires HistoryOK(h, next) && a + |keep| == |h| && keep == h[a..] && n <= |keep| && !NotRewritten(keep, n)
    requires Strict(TableOf(keep[..n]))
    ensures ReadCurrent([TableOf(keep[..n])] + below, k) != Latest(h, k, LATEST)
  {
    var i, j :| 0 <= i < n <= j < |keep| && keep[i].key == keep[j].key;
    k := keep[i].key;
    var t := TableOf(keep[..n]);
    assert keep[..n][i] == keep[i];
    TableOfHas(keep[..n], k, Version(keep[i]));
    TableOfHas(keep[..n], k, t[k][0]);
    hide TableOf;
    hide NotRewritten;
    assert ReadCurrent([t] + below, k) == Some(t[k][0]);
    var b :| 0 <= b < n && keep[..n][b] == Op(t[k][0].sequence, k, t[k][0].value);
    assert h[a + b] == keep[b] && h[a + j] == keep[j];
    LatestIsNewest(h, k, LATEST, keep[j]);
  }

  /** Otherwise kept keys are read from the kept frames, and all others from the segments. */
  lemma TornTruncationHarmless(s: State, h: History, floor: nat, g: Cover, n: nat, s': State, k: Key)
    requires Inv(s, h, floor, g) && s.job.Truncating? && n <= |KeepAbove(s.disk.wal, s.job.boundary)| && h != []
    requires Opened(s.disk.(wal := KeepAbove(s.disk.wal, s.job.boundary)[..n]), s')
    requires LastInSegments(s, h) && NotRewritten(KeepAbove(s.disk.wal, s.job.boundary), n)
    ensures ReadCurrent(ReaderLayers(s'), k) == Latest(h, k, LATEST)
  {
    hide *;
    var keep := KeepAbove(s.disk.wal, s.job.boundary);
    TornLayers(s, h, floor, g, n, s');
    var a := KeptWindow(s, h, floor, g, n);
    LastIsCovered(s, h, floor, g);
    var t, ts := TableOf(keep[..n]), Tables(s'.segments);
    AllCovered(s'.segments, h, floor, g.covered);
    SegmentsCurrent(s'.segments, h, floor, s.nextSequence, k);
    CurrentHead(t, ts, k);
    if k in t {
      KeptIsLast(keep, h, a, n, k, s.nextSequence);
      StrictFront(t, k);
    } else {
      NoFront(t, k);
    }
  }

  lemma CurrentHead(t: Table, ts: LayerList, k: Key)
    ensures ReadCurrent([t] + ts, k) == if Front(t, k).Some? then Front(t, k) else ReadCurrent(ts, k)
  {
    assert ([t] + ts)[1..] == ts;
  }

  lemma StrictFront(t: Table, k: Key)
    requires Strict(t) && k in t
    ensures Front(t, k).Some?
  {
  }

  lemma NoFront(t: Table, k: Key)
    requires k !in t
    ensures Front(t, k).None?
  {
  }

  lemma AllCovered(segs: seq<Seg>, h: History, floor: nat, covered: nat)
    requires SegmentsOK(segs, h, floor, covered) && covered == |h|
    ensures LayersOK(Tables(segs), h, floor)
  {
    hide LayersOK;
    assert h[..|h|] == h;
  }

  lemma SegmentsCurrent(segs: seq<Seg>, h: History, floor: nat, next: nat, k: Key)
    requires LayersOK(Tables(segs), h, floor) && HistoryOK(h, next) && floor <= LATEST
    ensures ReadCurrent(Tables(segs), k) == Latest(h, k, LATEST)
  {
    var ts := Tables(segs);
    LayeredRead(ts, h, floor, k, LATEST);
    hide Solid;
    hide Ordered;
    hide Complete;
    forall m | 0 <= m < |ts|
      ensures Strict(ts[m]) && AtMost(ts[m], LATEST)
    {
      assert Sound(ts[m], h);
      SoundAtMost(ts[m], h, next);
    }
    CurrentIsLatest(ts, k);
  }

  lemma SoundAtMost(t: Table, h: History, next: nat)
    requires Sound(t, h) && HistoryOK(h, next)
    ensures AtMost(t, LATEST)
  {
  }

  lemma LastIsCovered(s: State, h: History, floor: nat, g: Cover)
    requires Inv(s, h, floor, g) && h != [] && LastInSegments(s, h)
    ensures g.covered == |h|
  {
    assert SegmentsOK(s.segments, h, floor, g.covered) && HistoryOK(h, s.nextSequence);
    hide Inv;
    var o := h[|h| - 1];
    var i :| 0 <= i < |s.segments| && Has(s.segments[i].table, o.key, Version(o));
    assert Sound(Tables(s.segments)[i], h[..g.covered]);
    hide SegmentsOK;
    var j :| 0 <= j < g.covered && h[..g.covered][j] == o;
    assert h[j] == o;
  }

  /** The last kept operation on a key that is not written again is the last of all. */
  lemma KeptIsLast(keep: History, h: History, a: nat, n: nat, k: Key, next: nat)
    requires HistoryOK(h, next) && a + |keep| == |h| && keep == h[a..] && n <= |keep| && NotRewritten(keep, n)
    requires Strict(TableOf(keep[..n])) && k in TableOf(keep[..n])
    ensures Front(TableOf(keep[..n]), k) == Latest(h, k, LATEST)
  {
    var t := TableOf(keep[..n]);
    var v := t[k][0];
    TableOfHas(keep[..n], k, v);
    var b :| 0 <= b < n && keep[..n][b] == Op(v.sequence, k, v.value);
    assert h[a + b] == keep[b];
    LatestIsNewest(h, k, LATEST, keep[b]);
    var x := Latest(h, k, LATEST).value;
    var o := Op(x.sequence, k, x.value);
    var c :| 0 <= c < |h| && h[c] == o;
    if c >= a {
      assert keep[c - a] == o;
      if c - a < n {
        assert keep[..n][c - a] == o;
        TableOfHas(keep[..n], k, x);
      }
    }
    assert h[c].sequence <= h[a + b].sequence;
    SequencesIdentify(h, o, keep[b]);
  }

  lemma WholeTruncation(s: State, h: History, floor: nat, g: Cover, d: Disk, s': State)
    requires Inv(s, h, floor, g) && s.job.Truncating?
    requires d == s.disk.(wal := KeepAbove(s.disk.wal, s.job.boundary)) && Opened(d, s')
    ensures forall k :: ReadCurrent(ReaderLayers(s'), k) == Latest(h, k, LATEST)
  {
    hide Inv;
    hide CrashStep;
    hide Opened;
    var t := s.(disk := d, job := Idle);
    TruncatedCrash(s, h, floor, g, d, s');
    var g1 := TruncateKeeps(s, t, h, floor, g);
    CrashKeeps(t, d.synced, s', h, floor, g1);
    var g' := RecoveredCover(t, h, g1, d.synced);
    InvReadable(s', h, floor, g');
    hide Readable;
    forall k
      ensures ReadCurrent(ReaderLayers(s'), k) == Latest(h, k, LATEST)
    {
      ReaderStrict(s', h, floor, g');
      CurrentIsLatest(ReaderLayers(s'), k);
      GetIsGetAt(s', h, floor, g', k);
      ReadIff(s', h, floor, g', k, LATEST);
    }
  }

  lemma TruncatedCrash(s: State, h: History, floor: nat, g: Cover, d: Disk, s': State)
    requires Inv(s, h, floor, g) && s.job.Truncating?
    requires d == s.disk.(wal := KeepAbove(s.disk.wal, s.job.boundary)) && Opened(d, s')
    ensures var t := s.(disk := d, job := Idle); TruncateStep(s, t) && CrashStep(t, d.synced, s') && s'.job == Idle
  {
    SettledImage(s, h, floor, g);
    hide Inv;
    var t := s.(disk := d, job := Idle);
    assert d.manifest[..d.synced] == d.manifest;
    assert CrashImage(t.disk, d.synced, d);
    assert CrashStep(t, d.synced, s');
  }

  lemma SettledImage(s: State, h: History, floor: nat, g: Cover)
    requires Inv(s, h, floor, g) && s.job.Truncating?
    ensures s.disk.synced == |s.disk.manifest| && LiveIds(s.disk.manifest) == Ids(s.segments)
    ensures forall i :: g.covered <= i < |h| ==> h[i].sequence > s.job.boundary
  {
  }

  /** The last kept frame holds the last operation of the history, which no segment holds. */
  lemma TornTruncationLoses(s: State, h: History, floor: nat, g: Cover, n: nat, s': State)
    requires Inv(s, h, floor, g) && s.job.Truncating? && h != [] && !LastInSegments(s, h)
    requires n < |KeepAbove(s.disk.wal, s.job.boundary)|
    requires Opened(s.disk.(wal := KeepAbove(s.disk.wal, s.job.boundary)[..n]), s')
    ensures ReadCurrent(ReaderLayers(s'), h[|h| - 1].key) != Latest(h, h[|h| - 1].key, LATEST)
  {
    var wal, b := s.disk.wal, s.job.boundary;
    TruncationKeepsLast(s, h, floor, g);
    SettledImage(s, h, floor, g);
    assert HistoryOK(h, s.nextSequence) && FilesOK(s.segments, s.disk.files, s.nextSegId);
    hide Inv;
    hide Opened;
    hide FilesOK;
    var o := h[|h| - 1];
    LogMissesLast(wal, b, n, h);
    OpenedMisses(s, s', KeepAbove(wal, b)[..n], o);
    LatestIsNewest(h, o.key, LATEST, o);
    var x := Latest(h, o.key, LATEST).value;
    SequencesIdentify(h, o, Op(x.sequence, o.key, x.value));
    CurrentComesFrom(ReaderLayers(s'), o.key);
  }

  lemma TruncationKeepsLast(s: State, h: History, floor: nat, g: Cover)
    requires Inv(s, h, floor, g) && s.job.Truncating? && KeepAbove(s.disk.wal, s.job.boundary) != []
    ensures h != [] && h[|h| - 1].sequence > s.job.boundary
    ensures Increasing(s.disk.wal) && s.disk.wal != [] && s.disk.wal[|s.disk.wal| - 1] == h[|h| - 1]
  {
    assert LogOK(s.disk.wal, h, g) && HistoryOK(h, s.nextSequence);
    hide Inv;
    hide KeepAbove;
    SuffixIncreasing(h, g.logStart);
    LastKept(s.disk.wal, s.job.boundary);
  }

  lemma LastKept(wal: History, b: nat)
    requires Increasing(wal) && KeepAbove(wal, b) != []
    ensures wal != [] && wal[|wal| - 1].sequence > b
  {
    hide KeepAbove;
    var i := KeepAboveSuffix(wal, b);
    assert wal[i].sequence <= wal[|wal| - 1].sequence;
  }

  lemma LogMissesLast(wal: History, b: nat, n: nat, h: History)
    requires Increasing(wal) && wal != [] && h != [] && wal[|wal| - 1] == h[|h| - 1]
    requires n < |KeepAbove(wal, b)|
    ensures h[|h| - 1] !in Accepted(KeepAbove(wal, b)[..n])
  {
    hide KeepAbove;
    var i := KeepAboveSuffix(wal, b);
    var cut := KeepAbove(wal, b)[..n];
    assert forall j :: 0 <= j < n ==> cut[j] == wal[i + j];
  }

  /** What is above the boundary was written after what the segments cover. */
  lemma SegmentsMissLast(s: State, h: History, floor: nat, g: Cover)
    requires Inv(s, h, floor, g) && s.job.Truncating? && s.job.boundary > 0
    requires h != [] && h[|h| - 1].sequence > s.job.boundary
    ensures !LastInSegments(s, h)
  {
    CutBelowLast(s, h, floor, g);
    hide Inv;
    if LastInSegments(s, h) {
      LastIsCovered(s, h, floor, g);
    }
  }

  lemma CutBelowLast(s: State, h: History, floor: nat, g: Cover)
    requires Inv(s, h, floor, g) && s.job.Truncating? && s.job.boundary > 0
    ensures 0 < g.covered <= |h| && h[g.covered - 1].sequence == s.job.boundary
  {
    hide FilesOK;
    hide SegmentsOK;
    hide Sortable;
    hide MemoryOK;
    hide LogOK;
    hide ManifestOK;
    hide Settled;
    hide MaxFlushed;
  }

  /** Reopening reads the same segment files. */
  lemma OpenedTables(s: State, s': State, wal: History)
    requires FilesOK(s.segments, s.disk.files, s.nextSegId) && Ids(s.segments) == LiveIds(s.disk.manifest)
    requires Opened(s.disk.(wal := wal), s')
    ensures forall i :: 0 <= i < |s'.segments| ==> s'.segments[i] in s.segments
  {
    SameMembers(s'.segments, s.segments, s.disk.files);
  }

  lemma {:induction false} CurrentComesFrom(layers: LayerList, k: Key)
    ensures ReadCurrent(layers, k).Some? ==> InSome(layers, k, ReadCurrent(layers, k).value)
  {
    if layers != [] {
      if Front(layers[0], k).Some? {
        assert Has(layers[0], k, layers[0][k][0]);
      } else {
        CurrentComesFrom(layers[1..], k);
        InSomeSplit(layers, k);
      }
    }
  }

  /** No layer of the reopened store holds the last operation. */
  lemma OpenedMisses(s: State, s': State, wal: History, o: Op)
    requires Opened(s.disk.(wal := wal), s') && o !in Accepted(wal)
    requires FilesOK(s.segments, s.disk.files, s.nextSegId) && Ids(s.segments) == LiveIds(s.disk.manifest)
    requires forall i :: 0 <= i < |s.segments| ==> !Has(s.segments[i].table, o.key, Version(o))
    ensures !InSome(ReaderLayers(s'), o.key, Version(o))
  {
    hide FilesOK;
    hide LiveIds;
    OpenedTables(s, s', wal);
    ReaderMembers(s');
    TableOfHas(Accepted(wal), o.key, Version(o));
    hide ReaderLayers;
    forall m | 0 <= m < |ReaderLayers(s')|
      ensures !Has(ReaderLayers(s')[m], o.key, Version(o))
    {
      var t := ReaderLayers(s')[m];
      assert t in ReaderLayers(s');
      if t !in s'.frozen + [s'.active] {
        var i :| 0 <= i < |s'.segments| && s'.segments[i].table == t;
        var j :| 0 <= j < |s.segments| && s.segments[j] == s'.segments[i];
      }
    }
  }
}
