/**
 * What a store is to a user who knows only its history: the operations acknowledged so far, and
 * some marks on that line. Without a crash the marks determine every answer of the store,
 * snapshot reads included.
 */
module Timelines {
  import opened Encoding
  import opened Options
  import opened Versions
  import opened Layers
  import opened Compaction
  import opened Machine
  import opened Safety
  import opened Runs
  import opened Jobs
  import opened Uncrashed

  // -------------------------------------------------------------------------
  // The map that a history leaves
  // -------------------------------------------------------------------------

  function Applied(m: map<Key, Bytes>, o: Op): map<Key, Bytes>
  {
    match o.value
    case Value(b) => m[o.key := b]
    case Tombstone => m - {o.key}
  }

  /** What a map holds after the operations of the history, in order. */
  function Contents(h: History): map<Key, Bytes>
  {
    if h == [] then map[] else Applied(Contents(h[..|h| - 1]), h[|h| - 1])
  }

  function Find(m: map<Key, Bytes>, k: Key): Option<Bytes>
  {
    if k in m then Some(m[k]) else None
  }

  /** The last operation on a key is all that the map knows of it. */
  lemma {:induction false} ContentsIsLatest(h: History, k: Key)
    requires forall i :: 0 <= i < |h| ==> h[i].sequence <= LATEST
    ensures Find(Contents(h), k) == Live(Latest(h, k, LATEST))
  {
    if h != [] {
      ContentsIsLatest(h[..|h| - 1], k);
    }
  }

  lemma AfterOne(h: History, o: Op)
    ensures Contents(h + [o]) == Applied(Contents(h), o)
  {
    assert (h + [o])[..|h|] == h;
  }

  // -------------------------------------------------------------------------
  // The line and its marks
  // -------------------------------------------------------------------------

  /**
   * Marks are numbers of operations: where each frozen table ends, how far the segments reach,
   * how far each segment (newest first) declares to reach, and the retention watermark.
   */
  datatype Timeline = Timeline(history: History, frozen: seq<nat>, covered: nat, declared: seq<nat>, mark: nat)

  ghost predicate Sane(t: Timeline)
  {
    && t.mark <= t.covered <= |t.history|
    && (forall i :: 0 <= i < |t.frozen| ==> t.covered <= t.frozen[i] <= |t.history|)
    && (forall i, j :: 0 <= i < j < |t.frozen| ==> t.frozen[i] <= t.frozen[j])
    && forall i :: 0 <= i < |t.declared| ==> t.declared[i] <= t.covered
  }

  function Empty(): Timeline
  {
    Timeline([], [], 0, [], 0)
  }

  function Appended(t: Timeline, o: Op): Timeline
  {
    t.(history := t.history + [o])
  }

  function Frozen(t: Timeline): Timeline
  {
    t.(frozen := t.frozen + [|t.history|])
  }

  /** How far segments written from consecutive tables declare to reach: an empty one declares nothing. */
  function Reaches(start: nat, ends: seq<nat>): (r: seq<nat>)
    ensures |r| == |ends|
  {
    seq(|ends|, i requires 0 <= i < |ends| => if ends[i] > (if i == 0 then start else ends[i - 1]) then ends[i] else 0)
  }

  /** The `n` oldest frozen tables written out as segments. */
  function Moved(t: Timeline, n: nat): Timeline
    requires 0 < n <= |t.frozen|
  {
    t.(frozen := t.frozen[n..], covered := t.frozen[n - 1], declared := Stack(Reaches(t.covered, t.frozen[..n]), t.declared))
  }

  function FlushedOne(t: Timeline): Timeline
  {
    if t.frozen == [] then t else Moved(t, 1)
  }

  function Checkpointed(t: Timeline): Timeline
  {
    Moved(Frozen(t), |t.frozen| + 1)
  }

  /** Compaction declares what the front segment does, and raises the watermark to what the segments reach. */
  function Joined(t: Timeline): Timeline
  {
    if |t.declared| < 2 then t else t.(declared := [t.declared[0]], mark := t.covered)
  }

  function Most(ns: seq<nat>): (m: nat)
    ensures forall i :: 0 <= i < |ns| ==> ns[i] <= m
    ensures m == 0 || m in ns
  {
    if ns == [] then 0
    else Higher(Most(ns[..|ns| - 1]), ns[|ns| - 1])
  }

  /** How many operations a snapshot taken now sees. */
  function Seen(t: Timeline): nat
  {
    if t.covered < |t.history| then |t.history| else Most(t.declared)
  }

  /**
   * Exactly when a new snapshot sees every operation: when something is not in segments yet, or
   * some segment declares to reach the last operation, or there is none.
   */
  lemma SeesAllIff(t: Timeline)
    requires Sane(t)
    ensures Seen(t) <= |t.history|
    ensures Seen(t) == |t.history| <==> t.history == [] || t.covered < |t.history| || |t.history| in t.declared
  {
    assert forall i :: 0 <= i < |t.declared| ==> t.declared[i] <= Most(t.declared);
  }

  // -------------------------------------------------------------------------
  // States with that line
  // -------------------------------------------------------------------------

  function UpTo(h: History, n: nat): (s: nat)
    requires n <= |h|
  {
    LastSequence(h[..n])
  }

  ghost predicate Declaring(segs: seq<Seg>, h: History, declared: seq<nat>)
  {
    && |segs| == |declared|
    && forall i :: 0 <= i < |segs| ==> declared[i] <= |h| && segs[i].maxSeq == UpTo(h, declared[i])
  }

  function CoverOf(t: Timeline): Cover
  {
    Cover(t.covered, [t.covered] + t.frozen + [|t.history|], 0)
  }

  ghost predicate On(s: State, t: Timeline)
  {
    && Sane(t) && s.job == Idle
    && Faithful(s, t.history, UpTo(t.history, t.mark), CoverOf(t))
    && Declaring(s.segments, t.history, t.declared)
  }

  lemma UpToMonotone(h: History, next: nat, m: nat, n: nat)
    requires HistoryOK(h, next) && m <= n <= |h|
    ensures UpTo(h, m) <= UpTo(h, n) <= LastSequence(h) < next
    ensures m < n ==> UpTo(h, m) < UpTo(h, n)
  {
    assert n > 0 ==> h[..n][n - 1] == h[n - 1];
    assert m > 0 ==> h[..m][m - 1] == h[m - 1];
  }

  lemma OnHistory(s: State, t: Timeline)
    requires On(s, t)
    ensures HistoryOK(t.history, s.nextSequence) && |s.frozen| == |t.frozen| && |s.segments| == |t.declared|
  {
    hide Sane;
    hide HistoryOK;
    hide SegmentsOK;
  }

  lemma OnFresh(s: State)
    requires Fresh(s)
    ensures On(s, Empty())
  {
    FreshFaithful(s);
    hide Faithful;
    assert CoverOf(Empty()) == Cover(0, [0, 0], 0);
  }

  lemma Undisturbed(segs: seq<Seg>, h: History, o: Op, declared: seq<nat>)
    requires Declaring(segs, h, declared)
    ensures Declaring(segs, h + [o], declared)
  {
    forall i | 0 <= i < |segs|
      ensures segs[i].maxSeq == UpTo(h + [o], declared[i])
    {
      assert (h + [o])[..declared[i]] == h[..declared[i]];
    }
  }

  lemma OnWrite(s: State, ops: seq<(Key, EntryValue)>, s': State, t: Timeline)
    requires On(s, t) && WriteStep(s, ops, s') && |ops| == 1
    ensures On(s', Appended(t, Op(s.nextSequence, ops[0].0, ops[0].1)))
  {
    var o := Op(s.nextSequence, ops[0].0, ops[0].1);
    var h := t.history;
    WriteFaithful(s, ops, s', h, UpTo(h, t.mark), CoverOf(t));
    hide Faithful;
    hide PushAll;
    OneNumbered(ops, s.nextSequence, s.active);
    Undisturbed(s.segments, h, o, t.declared);
    assert (h + [o])[..t.mark] == h[..t.mark];
    assert WriteCover(h, CoverOf(t)) == CoverOf(Appended(t, o));
  }

  lemma OnReject(s: State, s': State, t: Timeline)
    requires On(s, t) && RejectStep(s, s')
    ensures On(s', t)
  {
    RejectFaithful(s, s', t.history, UpTo(t.history, t.mark), CoverOf(t));
    hide Faithful;
  }

  lemma OnFreeze(s: State, s': State, t: Timeline)
    requires On(s, t) && FreezeStep(s, s')
    ensures On(s', Frozen(t))
  {
    var g := CoverOf(t);
    FreezeFaithful(s, s', t.history, UpTo(t.history, t.mark), g);
    hide Faithful;
    assert g.(cuts := g.cuts + [|t.history|]) == CoverOf(Frozen(t));
  }

  /** The segments written for moved tables declare how far those tables reach. */
  lemma WrittenDeclare(s: State, t: Timeline, tables: seq<Table>, first: nat, segs: seq<Seg>, n: nat)
    requires Sane(t) && HistoryOK(t.history, s.nextSequence) && n <= |t.frozen| && |tables| == n
    requires forall i :: 0 <= i < n ==> tables[i] == Window(t.history, CoverOf(t).cuts[i], CoverOf(t).cuts[i + 1])
    requires SegmentsFor(tables, first, segs)
    ensures Declaring(segs, t.history, Reaches(t.covered, t.frozen[..n]))
  {
    hide SortedVersion;
    var h, cuts, r := t.history, CoverOf(t).cuts, Reaches(t.covered, t.frozen[..n]);
    forall i | 0 <= i < n
      ensures r[i] <= |h| && segs[i].maxSeq == UpTo(h, r[i])
    {
      assert segs[i].maxSeq == FrontMax(tables[i]);
      WindowDeclares(h, cuts[i], cuts[i + 1]);
    }
  }

  lemma WindowDeclares(h: History, a: nat, b: nat)
    requires Increasing(h) && a <= b <= |h|
    ensures FrontMax(Window(h, a, b)) == UpTo(h, if b > a then b else 0)
  {
    WindowStrict(h, a, b);
    WindowHi(h, a, b);
    FrontMaxIsHi(Window(h, a, b));
    hide Window;
    assert b > 0 ==> h[..b][b - 1] == h[b - 1];
  }

  lemma StackDeclares(segs: seq<Seg>, below: seq<Seg>, h: History, r: seq<nat>, declared: seq<nat>)
    requires Declaring(segs, h, r) && Declaring(below, h, declared)
    ensures Declaring(Stack(segs, below), h, Stack(r, declared))
  {
    hide Stack;
    forall i | 0 <= i < |segs| + |below|
      ensures Stack(r, declared)[i] <= |h| && Stack(segs, below)[i].maxSeq == UpTo(h, Stack(r, declared)[i])
    {
      StackIndex(segs, below, i);
      StackIndex(r, declared, i);
    }
  }

  /** The tables to be moved are the windows up to the marks. */
  lemma FrozenWindows(s: State, t: Timeline, n: nat)
    requires On(s, t) && n <= |t.frozen|
    ensures n <= |s.frozen|
    ensures forall i :: 0 <= i < n ==> s.frozen[..n][i] == Window(t.history, CoverOf(t).cuts[i], CoverOf(t).cuts[i + 1])
  {
    hide Sane;
    hide HistoryOK;
    hide SegmentsOK;
    hide Window;
    assert forall i :: 0 <= i < n ==> s.frozen[..n][i] == MemTables(s)[i];
  }

  lemma StackBounded(a: seq<nat>, b: seq<nat>, m: nat)
    requires (forall i :: 0 <= i < |a| ==> a[i] <= m) && forall i :: 0 <= i < |b| ==> b[i] <= m
    ensures forall i :: 0 <= i < |Stack(a, b)| ==> Stack(a, b)[i] <= m
  {
    hide Stack;
    forall i | 0 <= i < |a| + |b|
      ensures Stack(a, b)[i] <= m
    {
      StackIndex(a, b, i);
    }
  }

  lemma SaneMove(t: Timeline, n: nat)
    requires Sane(t) && 0 < n <= |t.frozen|
    ensures Sane(Moved(t, n)) && PublishCover(CoverOf(t), n) == CoverOf(Moved(t, n))
  {
    hide Stack;
    ReachesBounded(t, n);
    StackBounded(Reaches(t.covered, t.frozen[..n]), t.declared, t.frozen[n - 1]);
    MovedCover(t, n);
    hide Reaches;
    hide CoverOf;
  }

  lemma ReachesBounded(t: Timeline, n: nat)
    requires Sane(t) && 0 < n <= |t.frozen|
    ensures forall i :: 0 <= i < n ==> Reaches(t.covered, t.frozen[..n])[i] <= t.frozen[n - 1]
    ensures forall i :: 0 <= i < |t.declared| ==> t.declared[i] <= t.frozen[n - 1]
  {
  }

  lemma MovedCover(t: Timeline, n: nat)
    requires 0 < n <= |t.frozen|
    ensures PublishCover(CoverOf(t), n) == CoverOf(Moved(t, n))
  {
    hide Stack;
    hide Reaches;
    assert ([t.covered] + t.frozen + [|t.history|])[n..] == t.frozen[n - 1..] + [|t.history|];
    assert t.frozen[n - 1..] == [t.frozen[n - 1]] + t.frozen[n..];
  }

  /** Moving the `n` oldest frozen tables, up to their publication. */
  lemma OnMove(s: State, n: nat, checkpoint: bool, s': State, t: Timeline)
    requires On(s, t) && 0 < n <= |t.frozen| && Path(s, MoveEvents(n, checkpoint), s')
    ensures n <= |s.frozen| && s'.frozen == s.frozen[n..]
    ensures On(s'.(job := Idle), Moved(t, n)) && (!checkpoint ==> s'.job == Idle)
  {
    OnHistory(s, t);
    FrozenWindows(s, t, n);
    var h, g := t.history, CoverOf(t);
    hide Faithful;
    hide Path;
    hide MoveEvents;
    hide Window;
    hide CoverOf;
    hide Sane;
    var segs := MoveFaithful(s, n, checkpoint, s', h, UpTo(h, t.mark), g);
    WrittenDeclare(s, t, s.frozen[..n], s.nextSegId, segs, n);
    hide SegmentsFor;
    hide HistoryOK;
    hide Declaring;
    hide FilesOf;
    hide MoveRecords;
    StackDeclares(segs, s.segments, h, Reaches(t.covered, t.frozen[..n]), t.declared);
    SaneMove(t, n);
    FaithfulIdle(s', h, UpTo(h, t.mark), CoverOf(Moved(t, n)));
  }

  /** The end of a job does not concern readers, unless it moves tables. */
  lemma FaithfulIdle(s: State, h: History, floor: nat, g: Cover)
    requires Faithful(s, h, floor, g) && !s.job.Moving?
    ensures Faithful(s.(job := Idle), h, floor, g)
  {
    hide MemoryOK;
    hide SegmentsOK;
    hide HistoryOK;
    assert MemTables(s.(job := Idle)) == MemTables(s);
  }

  lemma OnFlush(s: State, s': State, t: Timeline)
    requires On(s, t) && if s.frozen == [] then s' == s else Path(s, MoveEvents(1, false), s')
    ensures On(s', FlushedOne(t))
  {
    OnHistory(s, t);
    hide On;
    hide Path;
    if s.frozen != [] {
      OnMove(s, 1, false, s', t);
    }
  }

  lemma OnCheckpoint(s: State, s': State, t: Timeline)
    requires On(s, t) && Path(s, CheckpointEvents(|s.frozen| + 1), s')
    ensures On(s', Checkpointed(t)) && s'.frozen == []
  {
    OnHistory(s, t);
    var f, m := CheckpointSteps(s, |s.frozen| + 1, s');
    hide Path;
    OnFreeze(s, f, t);
    OnHistory(f, Frozen(t));
    OnMove(f, |s.frozen| + 1, true, m, Frozen(t));
    hide Faithful;
    hide Sane;
    hide Declaring;
    OnTruncate(m, s', Checkpointed(t));
  }

  lemma OnTruncate(m: State, s': State, t: Timeline)
    requires On(m.(job := Idle), t) && TruncateStep(m, s')
    ensures On(s', t)
  {
    hide MemoryOK;
    hide SegmentsOK;
    hide HistoryOK;
    hide Sane;
    assert MemTables(s') == MemTables(m.(job := Idle));
  }

  lemma OnCompact(s: State, keep: nat, s': State, t: Timeline)
    requires On(s, t) && |s.segments| >= 2 && Path(s, CompactEvents(keep), s')
    ensures On(s', Joined(t))
  {
    OnHistory(s, t);
    var h := t.history;
    hide Faithful;
    hide Path;
    hide Compaction.Merged;
    CompactFaithful(s, keep, s', h, UpTo(h, t.mark), CoverOf(t));
    UpToMonotone(h, s.nextSequence, t.mark, t.covered);
    hide HistoryOK;
  }

  // -------------------------------------------------------------------------
  // What readers are given
  // -------------------------------------------------------------------------

  lemma SequencesBelowTop(h: History, next: nat)
    requires HistoryOK(h, next)
    ensures forall i :: 0 <= i < |h| ==> h[i].sequence <= LATEST
  {
  }

  lemma CurrentContents(s: State, t: Timeline, k: Key)
    requires On(s, t)
    ensures Machine.Get(s, k) == Machine.GetAt(s, LATEST, k) == Find(Contents(t.history), k)
  {
    OnHistory(s, t);
    SequencesBelowTop(t.history, s.nextSequence);
    hide Faithful;
    hide Sane;
    hide Declaring;
    hide HistoryOK;
    FaithfulReads(s, t.history, UpTo(t.history, t.mark), CoverOf(t), k, LATEST);
    ContentsIsLatest(t.history, k);
  }

  /** A snapshot of the first `b` operations, at or above the watermark, reads what the map held after them. */
  lemma SnapshotContents(s: State, t: Timeline, b: nat, k: Key)
    requires On(s, t) && t.mark <= b <= |t.history|
    ensures Machine.GetAt(s, UpTo(t.history, b), k) == Find(Contents(t.history[..b]), k)
  {
    OnHistory(s, t);
    var h := t.history;
    UpToMonotone(h, s.nextSequence, t.mark, b);
    PastIsBelow(h[..b], h, s.nextSequence);
    hide Faithful;
    hide Sane;
    hide Declaring;
    hide HistoryOK;
    FaithfulReads(s, h, UpTo(h, t.mark), CoverOf(t), k, UpTo(h, b));
    LatestStable(h[..b], h, k, UpTo(h, b));
    AllBelowTop(h[..b], k, UpTo(h, b));
    ContentsIsLatest(h[..b], k);
  }

  lemma PastIsBelow(past: History, h: History, next: nat)
    requires HistoryOK(h, next) && past <= h
    ensures Increasing(past) && LastSequence(past) <= LATEST
    ensures forall i :: 0 <= i < |past| ==> past[i].sequence <= LATEST
    ensures forall i :: |past| <= i < |h| ==> h[i].sequence > LastSequence(past)
  {
  }

  // -------------------------------------------------------------------------
  // Where a snapshot is taken
  // -------------------------------------------------------------------------

  lemma {:induction false} BoundaryDeclared(segs: seq<Seg>, h: History, next: nat, declared: seq<nat>)
    requires HistoryOK(h, next) && Declaring(segs, h, declared)
    ensures Most(declared) <= |h| && Boundary(segs) == UpTo(h, Most(declared))
  {
    if segs != [] {
      var n := |segs| - 1;
      BoundaryDeclared(segs[..n], h, next, declared[..n]);
      var a, b := Most(declared[..n]), declared[n];
      if a < b {
        UpToMonotone(h, next, a, b);
      } else {
        UpToMonotone(h, next, b, a);
      }
    }
  }

  /** A snapshot is taken at the last operation that it sees. */
  lemma BoundaryIsSeen(s: State, t: Timeline)
    requires On(s, t)
    ensures Seen(t) <= |t.history| && SnapshotBoundary(s) == UpTo(t.history, Seen(t))
  {
    var h, m := t.history, s.frozen + [s.active];
    OnHistory(s, t);
    SeesAllIff(t);
    hide Sane;
    BoundaryDeclared(s.segments, h, s.nextSequence, t.declared);
    UpToMonotone(h, s.nextSequence, Most(t.declared), |h|);
    assert h[..|h|] == h;
    hide Faithful;
    hide Declaring;
    hide HistoryOK;
    if t.covered < |h| {
      MemoryTop(s, t);
    } else {
      MemoryEmpty(s, t);
      NothingInFront(m);
    }
  }

  lemma MemoryTop(s: State, t: Timeline)
    requires On(s, t) && t.covered < |t.history|
    ensures MaxFront(s.frozen + [s.active]) == LastSequence(t.history)
  {
    var h, g := t.history, CoverOf(t);
    OnReadable(s, t);
    hide *;
    if !MemoryHolds(s) {
      EmptyMemoryCovered(s, h, UpTo(h, t.mark), g);
    }
    MemoryReaches(s, h, UpTo(h, t.mark), g);
    TablesBelow(s, h, UpTo(h, t.mark), g);
    MaxFrontBelow(s.frozen + [s.active], LastSequence(h));
  }

  lemma OnReadable(s: State, t: Timeline)
    requires On(s, t)
    ensures Readable(s, t.history, UpTo(t.history, t.mark), CoverOf(t)) && s.job == Idle && CoverOf(t).covered == t.covered
  {
    hide Readable;
    hide Sane;
    hide Declaring;
  }

  lemma MemoryEmpty(s: State, t: Timeline)
    requires On(s, t) && t.covered == |t.history|
    ensures forall i :: 0 <= i < |s.frozen + [s.active]| ==> (s.frozen + [s.active])[i] == map[]
  {
    var mem, g, h := s.frozen + [s.active], CoverOf(t), t.history;
    hide HistoryOK;
    hide SegmentsOK;
    hide Window;
    assert MemTables(s) == mem;
    forall i | 0 <= i < |mem|
      ensures mem[i] == map[]
    {
      assert mem[i] == Window(h, g.cuts[i], g.cuts[i + 1]);
      WindowEmpty(h, g.cuts[i]);
    }
  }

  lemma WindowEmpty(h: History, a: nat)
    requires a <= |h|
    ensures Window(h, a, a) == map[]
  {
    assert h[a..a] == [];
  }
}
