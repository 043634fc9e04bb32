/**
 * The log as a sequence of frames: what opening accepts, what replay returns, what
 * truncation keeps, and that batches are atomic under any torn write.
 */
module WalLog {
  import opened Encoding
  import opened Options
  import opened Framing
  import opened WalCodec

  type Frames = seq<WalFrame>

  // -------------------------------------------------------------------------
  // Replay
  // -------------------------------------------------------------------------

  datatype PendingBatch = PendingBatch(batchId: nat, ops: Frames)

  datatype ReplayState = ReplayState(committed: Frames, pending: Option<PendingBatch>)

  const REPLAY_START: ReplayState := ReplayState([], None)

  function ReplayFrame(st: ReplayState, f: WalFrame): Result<ReplayState, StoreError>
  {
    match f.kind
    case Begin(id) =>
      if id == STANDALONE || st.pending.Some? then Err(Storage)
      else Ok(st.(pending := Some(PendingBatch(id, []))))
    case Commit(id) =>
      if st.pending.None? || st.pending.value.batchId != id then Err(Storage)
      else Ok(ReplayState(st.committed + st.pending.value.ops, None))
    case _ =>
      match st.pending
      case Some(batch) =>
        if f.batchId != batch.batchId then Err(Storage)
        else Ok(st.(pending := Some(batch.(ops := batch.ops + [f]))))
      case None =>
        if f.batchId != STANDALONE then Err(Storage)
        else Ok(st.(committed := st.committed + [f]))
  }

  function ReplayFrom(st: ReplayState, fs: Frames): Result<ReplayState, StoreError>
    decreases |fs|
  {
    if fs == [] then Ok(st)
    else
      match ReplayFrame(st, fs[0])
      case Ok(next) => ReplayFrom(next, fs[1..])
      case Err(e) => Err(e)
  }

  /** The committed operations in log order; an incomplete trailing batch is dropped. */
  function Replay(fs: Frames): Result<Frames, StoreError>
  {
    match ReplayFrom(REPLAY_START, fs)
    case Ok(st) => Ok(st.committed)
    case Err(e) => Err(e)
  }

  lemma {:induction false} ReplayAppend(st: ReplayState, a: Frames, b: Frames)
    ensures ReplayFrom(st, a + b) ==
            match ReplayFrom(st, a) case Ok(mid) => ReplayFrom(mid, b) case Err(e) => Err(e)
    decreases |a|
  {
    if a == [] {
      assert a + b == b;
    } else {
      assert (a + b)[0] == a[0] && (a + b)[1..] == a[1..] + b;
      if ReplayFrame(st, a[0]).Ok? {
        ReplayAppend(ReplayFrame(st, a[0]).value, a[1..], b);
      }
    }
  }

  /**
   * Opening does not cut a batch that lacks its COMMIT. A standalone operation appended after
   * it can be replayed exactly when no batch is pending.
   */
  lemma StandaloneReplaysIff(fs: Frames, f: WalFrame)
    requires ReplayFrom(REPLAY_START, fs).Ok? && f.kind.IsOperation() && f.batchId == STANDALONE
    requires var st := ReplayFrom(REPLAY_START, fs).value; st.pending.Some? ==> st.pending.value.batchId != STANDALONE
    ensures Replay(fs + [f]).Ok? <==> ReplayFrom(REPLAY_START, fs).value.pending.None?
  {
    ReplayAppend(REPLAY_START, fs, [f]);
    assert [f][1..] == [];
  }

  /** A log torn after BEGIN opens, takes an acknowledged put, and can then not be opened again. */
  lemma TornBatchPoisonsLog(k: Key, v: Bytes)
    ensures var torn := [WalFrame(1, 1, Begin(1))];
            && Replay(torn) == Ok([])
            && ScanLength(torn) == 1
            && Replay(torn + [WalFrame(2, STANDALONE, Put(k, v))]).Err?
  {
    var torn := [WalFrame(1, 1, Begin(1))];
    assert torn[1..] == [];
    StandaloneReplaysIff(torn, WalFrame(2, STANDALONE, Put(k, v)));
  }

  /** `fs` are operations of the batch. */
  ghost predicate OfBatch(fs: Frames, id: nat)
  {
    forall i :: 0 <= i < |fs| ==> fs[i].kind.IsOperation() && fs[i].batchId == id
  }

  lemma {:induction false} OpsPend(st: ReplayState, fs: Frames, id: nat)
    requires st.pending.Some? && st.pending.value.batchId == id && OfBatch(fs, id)
    ensures ReplayFrom(st, fs) == Ok(st.(pending := Some(PendingBatch(id, st.pending.value.ops + fs))))
    decreases |fs|
  {
    if fs == [] {
      assert st.pending.value.ops + fs == st.pending.value.ops;
    } else {
      var next := ReplayFrame(st, fs[0]).value;
      OpsPend(next, fs[1..], id);
      assert st.pending.value.ops + [fs[0]] + fs[1..] == st.pending.value.ops + fs;
    }
  }

  /** Behind whatever was committed, a batch counts when its COMMIT is there, all of it and in order; without the
      COMMIT none of it does. */
  lemma BatchReplays(before: Frames, begin: WalFrame, ops: Frames, commit: WalFrame, id: nat)
    requires ReplayFrom(REPLAY_START, before).Ok? && ReplayFrom(REPLAY_START, before).value.pending.None?
    requires begin.kind == Begin(id) && id != 0 && OfBatch(ops, id) && commit.kind == Commit(id)
    ensures Replay(before).Ok?
    ensures Replay(before + [begin] + ops) == Replay(before)
    ensures Replay(before + [begin] + ops + [commit]) == Ok(Replay(before).value + ops)
  {
    var st := ReplayFrom(REPLAY_START, before).value;
    var open := st.(pending := Some(PendingBatch(id, [])));
    ReplayAppend(REPLAY_START, before, [begin]);
    assert [begin][1..] == [] && [commit][1..] == [];
    assert ReplayFrom(st, [begin]) == Ok(open);
    ReplayAppend(REPLAY_START, before + [begin], ops);
    OpsPend(open, ops, id);
    assert [] + ops == ops;
    ReplayAppend(REPLAY_START, before + [begin] + ops, [commit]);
  }

  // -------------------------------------------------------------------------
  // Scan
  // -------------------------------------------------------------------------

  /** The number of frames up to the first sequence that does not follow its predecessor. */
  function ScanLength(fs: Frames): (n: nat)
    ensures n <= |fs|
  {
    if |fs| <= 1 then |fs|
    else if fs[1].sequence != fs[0].sequence + 1 then 1
    else 1 + ScanLength(fs[1..])
  }

  ghost predicate FramesConsecutive(fs: Frames)
  {
    forall i :: 0 < i < |fs| ==> fs[i].sequence == fs[i - 1].sequence + 1
  }

  function LastOf(fs: Frames): Option<nat>
  {
    if fs == [] then None else Some(fs[|fs| - 1].sequence)
  }

  predicate FollowsOn(previous: Option<nat>, sequence: nat)
  {
    previous.None? || sequence == previous.value + 1
  }

  lemma {:induction false} ScanIs(fs: Frames, n: nat)
    requires n <= |fs| && (n == 0 ==> fs == [])
    requires forall i :: 0 < i < n ==> fs[i].sequence == fs[i - 1].sequence + 1
    requires n < |fs| ==> fs[n].sequence != fs[n - 1].sequence + 1
    ensures ScanLength(fs) == n
  {
    if n > 1 {
      ScanIs(fs[1..], n - 1);
    }
  }

  /** The scan takes exactly the longest run of consecutive frames. */
  lemma ScanStops(done: Frames, rest: Frames)
    requires FramesConsecutive(done) && (rest != [] ==> !FollowsOn(LastOf(done), rest[0].sequence))
    ensures ScanLength(done + rest) == |done| && (done + rest)[..|done|] == done
    ensures rest != [] ==> 0 < |done| < |done + rest|
  {
    ScanIs(done + rest, |done|);
  }

  /** A run of frames is its first frame followed on by the run of the rest. */
  lemma RunOfRest(a: Frames, b: Frames)
    requires |a| > 1 && b == a[1..]
    ensures FramesConsecutive(a) <==> a[1].sequence == a[0].sequence + 1 && FramesConsecutive(b)
  {
    if FramesConsecutive(a) {
      forall i | 0 < i < |b|
        ensures b[i].sequence == b[i - 1].sequence + 1
      {
        assert a[i + 1].sequence == a[i].sequence + 1;
      }
    }
    if a[1].sequence == a[0].sequence + 1 && FramesConsecutive(b) {
      forall i | 0 < i < |a|
        ensures a[i].sequence == a[i - 1].sequence + 1
      {
        assert i > 1 ==> b[i - 1].sequence == b[i - 2].sequence + 1;
      }
    }
  }

  /** A frame is accepted exactly when no frame up to it breaks the run. */
  lemma {:induction false} ScanReaches(fs: Frames, p: nat)
    requires p < |fs|
    ensures p < ScanLength(fs) <==> FramesConsecutive(fs[..p + 1])
    decreases p
  {
    if p > 0 {
      ScanReaches(fs[1..], p - 1);
      RunOfRest(fs[..p + 1], fs[1..][..p]);
      hide FramesConsecutive;
    }
  }

  // -------------------------------------------------------------------------
  // Truncation
  // -------------------------------------------------------------------------

  /** The batches with a frame above the boundary. */
  function KeptBatches(fs: Frames, boundary: nat): set<nat>
  {
    set f | f in fs && f.sequence > boundary && f.batchId != STANDALONE :: f.batchId
  }

  function Select(fs: Frames, boundary: nat, kept: set<nat>): Frames
  {
    if fs == [] then []
    else if fs[0].sequence > boundary || fs[0].batchId in kept then [fs[0]] + Select(fs[1..], boundary, kept)
    else Select(fs[1..], boundary, kept)
  }

  /** The frames above the boundary, with every batch that has one of them whole. */
  function KeepFrames(fs: Frames, boundary: nat): Frames
  {
    Select(fs, boundary, KeptBatches(fs, boundary))
  }

  lemma {:induction false} SelectAppend(a: Frames, b: Frames, boundary: nat, kept: set<nat>)
    ensures Select(a + b, boundary, kept) == Select(a, boundary, kept) + Select(b, boundary, kept)
  {
    if a == [] {
      assert a + b == b;
    } else {
      assert (a + b)[0] == a[0] && (a + b)[1..] == a[1..] + b;
      SelectAppend(a[1..], b, boundary, kept);
    }
  }

  lemma {:induction false} SelectAll(fs: Frames, boundary: nat, kept: set<nat>)
    requires forall i :: 0 <= i < |fs| ==> fs[i].sequence > boundary || fs[i].batchId in kept
    ensures Select(fs, boundary, kept) == fs
  {
    if fs != [] {
      SelectAll(fs[1..], boundary, kept);
    }
  }

  lemma {:induction false} SelectNone(fs: Frames, boundary: nat, kept: set<nat>)
    requires forall i :: 0 <= i < |fs| ==> fs[i].sequence <= boundary && fs[i].batchId !in kept
    ensures Select(fs, boundary, kept) == []
  {
    if fs != [] {
      SelectNone(fs[1..], boundary, kept);
    }
  }

  /** The frame is above the boundary, or of a batch that has a frame above it. */
  ghost predicate KeptFrame(fs: Frames, boundary: nat, f: WalFrame)
  {
    f.sequence > boundary || (f.batchId != 0 && exists g :: g in fs && g.batchId == f.batchId && g.sequence > boundary)
  }

  /** `kept` is exactly those frames, in the order they stand in the log. */
  ghost predicate KeptFrames(fs: Frames, boundary: nat, kept: Frames, places: seq<nat>)
  {
    && |places| == |kept|
    && (forall i, j :: 0 <= i < j < |places| ==> places[i] < places[j])
    && (forall i :: 0 <= i < |places| ==> places[i] < |fs| && kept[i] == fs[places[i]])
    && forall p: nat :: p < |fs| ==> (p in places <==> KeptFrame(fs, boundary, fs[p]))
  }

  /** The places of the frames selected among the first `n`. */
  ghost predicate Selected(fs: Frames, boundary: nat, kept: set<nat>, n: nat, places: seq<nat>)
    requires n <= |fs|
  {
    && |places| == |Select(fs[..n], boundary, kept)|
    && (forall i, j :: 0 <= i < j < |places| ==> places[i] < places[j])
    && (forall i :: 0 <= i < |places| ==> places[i] < n && Select(fs[..n], boundary, kept)[i] == fs[places[i]])
    && forall p: nat :: p < n ==> (p in places <==> fs[p].sequence > boundary || fs[p].batchId in kept)
  }

  lemma {:induction false} SelectPlaces(fs: Frames, boundary: nat, kept: set<nat>, n: nat) returns (places: seq<nat>)
    requires n <= |fs|
    ensures Selected(fs, boundary, kept, n, places)
    decreases n
  {
    if n == 0 {
      places := [];
    } else {
      var front := SelectPlaces(fs, boundary, kept, n - 1);
      assert fs[..n] == fs[..n - 1] + [fs[n - 1]];
      SelectAppend(fs[..n - 1], [fs[n - 1]], boundary, kept);
      assert [fs[n - 1]][1..] == [];
      places := front + if fs[n - 1].sequence > boundary || fs[n - 1].batchId in kept then [n - 1] else [];
    }
  }

  /** What truncation keeps. */
  lemma KeepIsKept(fs: Frames, boundary: nat)
    ensures exists places :: KeptFrames(fs, boundary, KeepFrames(fs, boundary), places)
  {
    var kept := KeptBatches(fs, boundary);
    var places := SelectPlaces(fs, boundary, kept, |fs|);
    assert fs[..|fs|] == fs;
    forall p: nat | p < |fs|
      ensures KeptFrame(fs, boundary, fs[p]) <==> fs[p].sequence > boundary || fs[p].batchId in kept
    {
      hide Select;
    }
    hide Select;
    hide KeptFrame;
    assert KeptFrames(fs, boundary, KeepFrames(fs, boundary), places);
  }

  // -------------------------------------------------------------------------
  // Units
  // -------------------------------------------------------------------------

  /** What one append writes: a standalone operation or a whole batch. */
  datatype Unit = Single(op: WalFrameKind) | Batch(ops: seq<WalFrameKind>)

  predicate ValidUnit(u: Unit)
  {
    match u
    case Single(op) => op.IsOperation()
    case Batch(ops) => forall i :: 0 <= i < |ops| ==> ops[i].IsOperation()
  }

  function UnitLength(u: Unit): (n: nat)
    ensures n > 0
  {
    if u.Single? then 1 else |u.ops| + 2
  }

  function OpFrames(ops: seq<WalFrameKind>, first: nat, batchId: nat): (fs: Frames)
    ensures |fs| == |ops|
    ensures forall i :: 0 <= i < |fs| ==> fs[i] == WalFrame(first + i, batchId, ops[i])
  {
    seq(|ops|, i requires 0 <= i < |ops| => WalFrame(first + i, batchId, ops[i]))
  }

  /** The frames of a unit whose first sequence is `first`; a batch is named after it. */
  function UnitFrames(u: Unit, first: nat): (fs: Frames)
    ensures |fs| == UnitLength(u)
  {
    match u
    case Single(op) => [WalFrame(first, STANDALONE, op)]
    case Batch(ops) =>
      [WalFrame(first, first, Begin(first))] + OpFrames(ops, first + 1, first)
      + [WalFrame(first + |ops| + 1, first, Commit(first))]
  }

  /** What a unit contributes to a replay. */
  function UnitOps(u: Unit, first: nat): Frames
  {
    match u
    case Single(op) => [WalFrame(first, STANDALONE, op)]
    case Batch(ops) => OpFrames(ops, first + 1, first)
  }

  function Layout(us: seq<Unit>, first: nat): Frames
    decreases |us|
  {
    if us == [] then [] else UnitFrames(us[0], first) + Layout(us[1..], first + UnitLength(us[0]))
  }

  function LayoutOps(us: seq<Unit>, first: nat): Frames
    decreases |us|
  {
    if us == [] then [] else UnitOps(us[0], first) + LayoutOps(us[1..], first + UnitLength(us[0]))
  }

  lemma UnitSequences(u: Unit, first: nat)
    ensures forall i :: 0 <= i < |UnitFrames(u, first)| ==>
              && UnitFrames(u, first)[i].sequence == first + i
              && UnitFrames(u, first)[i].batchId == if u.Single? then STANDALONE else first
  {
  }

  /** Frames of a laid out log are consecutive, so opening accepts all of them. */
  /** The frames carry consecutive sequences from `first` on and no batch older than that. */
  ghost predicate SequencedFrom(fs: Frames, first: nat)
  {
    forall i :: 0 <= i < |fs| ==> fs[i].sequence == first + i && (fs[i].batchId == STANDALONE || fs[i].batchId >= first)
  }

  lemma SequencedJoin(a: Frames, b: Frames, first: nat)
    requires SequencedFrom(a, first) && SequencedFrom(b, first + |a|)
    ensures SequencedFrom(a + b, first)
  {
  }

  lemma UnitSequenced(u: Unit, first: nat)
    ensures SequencedFrom(UnitFrames(u, first), first) && |UnitFrames(u, first)| == UnitLength(u)
  {
    UnitSequences(u, first);
    hide UnitFrames;
  }

  lemma {:induction false} LayoutSequenced(us: seq<Unit>, first: nat)
    ensures SequencedFrom(Layout(us, first), first)
    decreases |us|
  {
    hide SequencedFrom;
    if us != [] {
      UnitSequenced(us[0], first);
      LayoutSequenced(us[1..], first + UnitLength(us[0]));
      SequencedJoin(UnitFrames(us[0], first), Layout(us[1..], first + UnitLength(us[0])), first);
    } else {
      NothingSequenced(first);
    }
  }

  lemma NothingSequenced(first: nat)
    ensures SequencedFrom([], first)
  {
  }

  lemma LayoutSequences(us: seq<Unit>, first: nat)
    ensures forall i :: 0 <= i < |Layout(us, first)| ==> Layout(us, first)[i].sequence == first + i
    ensures forall i :: 0 <= i < |Layout(us, first)| ==> Layout(us, first)[i].batchId == STANDALONE || Layout(us, first)[i].batchId >= first
  {
    LayoutSequenced(us, first);
    hide Layout;
  }

  /** The first unit of a layout, and the frames after it. */
  lemma LayoutHead(us: seq<Unit>, first: nat)
    requires us != []
    ensures var head, tail := UnitFrames(us[0], first), Layout(us[1..], first + UnitLength(us[0]));
            && Layout(us, first) == head + tail && head != []
            && (forall i :: 0 <= i < |head| ==> head[i].sequence == first + i && head[i].batchId == if us[0].Single? then STANDALONE else first)
            && (forall i :: 0 <= i < |tail| ==> tail[i].sequence == first + |head| + i)
            && (forall i :: 0 <= i < |tail| ==> tail[i].batchId == STANDALONE || tail[i].batchId >= first + |head|)
  {
    hide UnitFrames;
    hide Layout;
    LayoutUnfold(us, first);
    UnitSequences(us[0], first);
    LayoutSequences(us[1..], first + UnitLength(us[0]));
  }

  lemma LayoutUnfold(us: seq<Unit>, first: nat)
    requires us != []
    ensures Layout(us, first) == UnitFrames(us[0], first) + Layout(us[1..], first + UnitLength(us[0]))
  {
  }

  // -------------------------------------------------------------------------
  // Batches are atomic
  // -------------------------------------------------------------------------

  lemma {:induction false} ReplayOps(committed: Frames, id: nat, done: Frames, ops: seq<WalFrameKind>, first: nat)
    requires forall i :: 0 <= i < |ops| ==> ops[i].IsOperation()
    ensures ReplayFrom(ReplayState(committed, Some(PendingBatch(id, done))), OpFrames(ops, first, id)) ==
            Ok(ReplayState(committed, Some(PendingBatch(id, done + OpFrames(ops, first, id)))))
    decreases |ops|
  {
    var fs := OpFrames(ops, first, id);
    if ops == [] {
      assert done + fs == done;
    } else {
      ReplayOps(committed, id, done + [fs[0]], ops[1..], first + 1);
      assert fs[1..] == OpFrames(ops[1..], first + 1, id);
      assert done + [fs[0]] + fs[1..] == done + fs;
    }
  }

  lemma ReplayThen(st: ReplayState, a: Frames, mid: ReplayState, b: Frames)
    requires ReplayFrom(st, a) == Ok(mid)
    ensures ReplayFrom(st, a + b) == ReplayFrom(mid, b)
  {
    ReplayAppend(st, a, b);
  }

  lemma ReplayOne(st: ReplayState, f: WalFrame)
    ensures ReplayFrom(st, [f]) == ReplayFrame(st, f)
  {
    assert [f][1..] == [];
  }

  /** A whole unit commits its operations. */
  lemma ReplayUnit(committed: Frames, u: Unit, first: nat)
    requires ValidUnit(u) && first > 0
    ensures ReplayFrom(ReplayState(committed, None), UnitFrames(u, first)) == Ok(ReplayState(committed + UnitOps(u, first), None))
  {
    match u
    case Single(op) =>
      ReplayOne(ReplayState(committed, None), WalFrame(first, STANDALONE, op));
    case Batch(ops) =>
      ReplayBatch(committed, ops, first);
  }

  /** BEGIN and the operations leave the batch pending. */
  lemma ReplayPending(committed: Frames, ops: seq<WalFrameKind>, first: nat, named: nat)
    requires named > 0 && forall i :: 0 <= i < |ops| ==> ops[i].IsOperation()
    ensures ReplayFrom(ReplayState(committed, None), [WalFrame(named, named, Begin(named))] + OpFrames(ops, first, named)) ==
            Ok(ReplayState(committed, Some(PendingBatch(named, OpFrames(ops, first, named)))))
  {
    var begin, body := WalFrame(named, named, Begin(named)), OpFrames(ops, first, named);
    ReplayOne(ReplayState(committed, None), begin);
    ReplayOps(committed, named, [], ops, first);
    assert [] + body == body;
    hide ReplayFrom;
    ReplayThen(ReplayState(committed, None), [begin], ReplayState(committed, Some(PendingBatch(named, []))), body);
  }

  lemma ReplayBatch(committed: Frames, ops: seq<WalFrameKind>, first: nat)
    requires first > 0 && forall i :: 0 <= i < |ops| ==> ops[i].IsOperation()
    ensures ReplayFrom(ReplayState(committed, None), UnitFrames(Batch(ops), first)) ==
            Ok(ReplayState(committed + OpFrames(ops, first + 1, first), None))
  {
    var body := OpFrames(ops, first + 1, first);
    var commit := WalFrame(first + |ops| + 1, first, Commit(first));
    var pending := ReplayState(committed, Some(PendingBatch(first, body)));
    ReplayPending(committed, ops, first + 1, first);
    ReplayOne(pending, commit);
    hide ReplayFrom;
    ReplayThen(ReplayState(committed, None), [WalFrame(first, first, Begin(first))] + body, pending, [commit]);
  }

  /** A unit cut short commits nothing. */
  lemma ReplayPartOfUnit(committed: Frames, u: Unit, first: nat, n: nat)
    requires ValidUnit(u) && first > 0 && n < UnitLength(u)
    ensures ReplayFrom(ReplayState(committed, None), UnitFrames(u, first)[..n]).Ok?
    ensures ReplayFrom(ReplayState(committed, None), UnitFrames(u, first)[..n]).value.committed == committed
  {
    var part := UnitFrames(u, first)[..n];
    if n > 0 {
      assert part == [WalFrame(first, first, Begin(first))] + OpFrames(u.ops[..n - 1], first + 1, first);
      ReplayPending(committed, u.ops[..n - 1], first + 1, first);
    }
  }

  /** The number of units that lie wholly within the first `n` frames. */
  function WholeUnits(us: seq<Unit>, n: nat): (m: nat)
    ensures m <= |us|
    decreases |us|
  {
    if us == [] || n < UnitLength(us[0]) then 0 else 1 + WholeUnits(us[1..], n - UnitLength(us[0]))
  }

  lemma TakeHead<T>(a: seq<T>, b: seq<T>, n: nat)
    requires n <= |a|
    ensures (a + b)[..n] == a[..n]
  {
  }

  lemma TakeTail<T>(a: seq<T>, b: seq<T>, n: nat)
    requires |a| <= n <= |a| + |b|
    ensures (a + b)[..n] == a + b[..n - |a|]
  {
  }

  lemma LayoutOpsStep(us: seq<Unit>, first: nat, m: nat)
    requires us != [] && m < |us|
    ensures LayoutOps(us[..m + 1], first) == UnitOps(us[0], first) + LayoutOps(us[1..][..m], first + UnitLength(us[0]))
  {
    assert us[..m + 1][0] == us[0] && us[..m + 1][1..] == us[1..][..m];
  }

  lemma {:induction false} ReplayLayout(committed: Frames, us: seq<Unit>, first: nat, n: nat)
    requires (forall i :: 0 <= i < |us| ==> ValidUnit(us[i])) && first > 0 && n <= |Layout(us, first)|
    ensures var r := ReplayFrom(ReplayState(committed, None), Layout(us, first)[..n]);
            r.Ok? && r.value.committed == committed + LayoutOps(us[..WholeUnits(us, n)], first)
    decreases |us|
  {
    hide Layout;
    hide ReplayFrom;
    hide UnitFrames;
    hide UnitOps;
    hide LayoutOps;
    NothingAdded(committed, us, first);
    if us == [] {
      ReplayNone(committed, us, first, n);
    } else {
      var u, k := us[0], UnitLength(us[0]);
      var head, tail := UnitFrames(u, first), Layout(us[1..], first + k);
      LayoutHead(us, first);
      if n < k {
        TakeHead(head, tail, n);
        ReplayPartOfUnit(committed, u, first, n);
      } else {
        var m := WholeUnits(us[1..], n - k);
        TakeTail(head, tail, n);
        ReplayUnit(committed, u, first);
        ReplayLayout(committed + UnitOps(u, first), us[1..], first + k, n - k);
        LayoutOpsStep(us, first, m);
        ReplayThen(ReplayState(committed, None), head, ReplayState(committed + UnitOps(u, first), None), tail[..n - k]);
        Reassociate(committed, UnitOps(u, first), LayoutOps(us[1..][..m], first + k));
      }
    }
  }

  lemma ReplayNone(committed: Frames, us: seq<Unit>, first: nat, n: nat)
    requires us == [] && n <= |Layout(us, first)|
    ensures ReplayFrom(ReplayState(committed, None), Layout(us, first)[..n]) == Ok(ReplayState(committed, None))
  {
  }

  lemma NothingAdded(committed: Frames, us: seq<Unit>, first: nat)
    ensures committed + LayoutOps(us[..0], first) == committed
  {
  }

  ghost predicate Writable(us: seq<Unit>, first: nat)
  {
    && first > 0
    && (forall i :: 0 <= i < |us| ==> ValidUnit(us[i]))
    && (forall i :: 0 <= i < |Layout(us, first)| ==> Encodable(Layout(us, first)[i]))
  }

  /** What replaying a file returns. */
  function ReplayBytes(crc: Checksum, b: Bytes): Result<Frames, StoreError>
  {
    var dec := FrameDecoder(crc);
    match Replay(Records(dec, b))
    case Err(e) => Err(e)
    case Ok(fs) => if ReadNextFrame(crc, b[ValidLength(dec, b)..]).Corrupt? then Err(Storage) else Ok(fs)
  }

  lemma {:induction false} TornTailNotCorrupt(crc: Checksum, fs: Frames, n: nat)
    requires (forall i :: 0 <= i < |fs| ==> Encodable(fs[i])) && n <= |EncodeAll(FrameEncoder(crc), fs)|
    ensures var b := EncodeAll(FrameEncoder(crc), fs)[..n];
            !ReadNextFrame(crc, b[ValidLength(FrameDecoder(crc), b)..]).Corrupt?
    decreases |fs|
  {
    var enc := FrameEncoder(crc);
    hide EncodeFrame;
    hide ReadNextFrame;
    hide FrameDecoder;
    if fs == [] {
      EmptyIsEof(crc, EncodeAll(enc, fs)[..n]);
    } else {
      var e, tail := EncodeFrame(crc, fs[0]), EncodeAll(enc, fs[1..]);
      if n < |e| {
        TakeHead(e, tail, n);
        FirstTorn(crc, fs[0], n);
      } else {
        TakeTail(e, tail, n);
        AfterFirst(crc, fs[0], tail[..n - |e|]);
        TornTailNotCorrupt(crc, fs[1..], n - |e|);
      }
    }
  }

  lemma FirstTorn(crc: Checksum, f: WalFrame, n: nat)
    requires Encodable(f) && n < |EncodeFrame(crc, f)|
    ensures var b := EncodeFrame(crc, f)[..n];
            !ReadNextFrame(crc, b[ValidLength(FrameDecoder(crc), b)..]).Corrupt?
  {
    FramesDelimit(crc);
    FrameReadsBack(crc, f);
    TornRecord(FrameDecoder(crc), FrameEncoder(crc), f, n);
    TornFrameIsNotCorrupt(crc, f, n);
    hide EncodeFrame;
    hide ReadNextFrame;
    var b := EncodeFrame(crc, f)[..n];
    assert b[0..] == b;
  }

  lemma AfterFirst(crc: Checksum, f: WalFrame, t: Bytes)
    requires Encodable(f)
    ensures var dec, b := FrameDecoder(crc), EncodeFrame(crc, f) + t;
            b[ValidLength(dec, b)..] == t[ValidLength(dec, t)..]
  {
    ReadsFirstFrame(crc, f, t);
    var dec, e := FrameDecoder(crc), EncodeFrame(crc, f);
    hide EncodeFrame;
    hide FrameDecoder;
    Step(dec, e + t, f, |e|);
    assert (e + t)[|e|..] == t;
  }

  lemma ReadsFirstFrame(crc: Checksum, f: WalFrame, t: Bytes)
    requires Encodable(f)
    ensures FrameDecoder(crc)(EncodeFrame(crc, f) + t) == Some((f, |EncodeFrame(crc, f)|)) && |EncodeFrame(crc, f)| > 0
  {
    FrameReadsBack(crc, f);
    FrameRoundTrip(crc, f);
    var e := FrameEncoder(crc)(f);
    hide ReadNextFrame;
    hide EncodeFrame;
    hide DecodeFrame;
    assert FrameDecoder(crc)(e + t) == Some((f, |e|));
  }

  lemma EmptyIsEof(crc: Checksum, b: Bytes)
    requires b == []
    ensures ValidLength(FrameDecoder(crc), b) == 0 && ReadNextFrame(crc, b[0..]).Eof?
  {
  }

  lemma FramesReadBack(crc: Checksum, fs: Frames)
    requires forall i :: 0 <= i < |fs| ==> Encodable(fs[i])
    ensures AllReadBack(FrameDecoder(crc), FrameEncoder(crc), fs)
  {
    forall i | 0 <= i < |fs|
      ensures ReadsBack(FrameDecoder(crc), FrameEncoder(crc), fs[i])
    {
      FrameReadsBack(crc, fs[i]);
    }
  }

  /**
   * Torn-log atomicity. Take any log written unit by unit and cut its bytes anywhere: replay
   * returns exactly the operations of the units that lie wholly before the cut, in order. A
   * batch is there whole or not at all.
   */
  lemma TornLogAtomicity(crc: Checksum, us: seq<Unit>, first: nat, n: nat)
    requires Writable(us, first)
    requires n <= |EncodeAll(FrameEncoder(crc), Layout(us, first))|
    ensures var frames := WholeRecords(FrameEncoder(crc), Layout(us, first), n);
            ReplayBytes(crc, EncodeAll(FrameEncoder(crc), Layout(us, first))[..n]) ==
            Ok(LayoutOps(us[..WholeUnits(us, frames)], first))
  {
    var fs := Layout(us, first);
    FramesReadBack(crc, fs);
    FramesDelimit(crc);
    TornLog(FrameDecoder(crc), FrameEncoder(crc), fs, n);
    TornTailNotCorrupt(crc, fs, n);
    var m := WholeRecords(FrameEncoder(crc), fs, n);
    ReplayLayout([], us, first, m);
    assert [] + LayoutOps(us[..WholeUnits(us, m)], first) == LayoutOps(us[..WholeUnits(us, m)], first);
  }

  // -------------------------------------------------------------------------
  // Truncation keeps whole units
  // -------------------------------------------------------------------------

  /** The number of leading units that lie wholly at or below the boundary. */
  function UnitsBelow(us: seq<Unit>, first: nat, boundary: nat): (m: nat)
    ensures m <= |us|
    decreases |us|
  {
    if us == [] || first + UnitLength(us[0]) - 1 > boundary then 0
    else 1 + UnitsBelow(us[1..], first + UnitLength(us[0]), boundary)
  }

  function FirstOf(us: seq<Unit>, first: nat, m: nat): nat
    requires m <= |us|
    decreases m
  {
    if m == 0 then first else FirstOf(us[1..], first + UnitLength(us[0]), m - 1)
  }

  function BatchIds(fs: Frames): set<nat>
  {
    set f | f in fs && f.batchId != STANDALONE :: f.batchId
  }

  lemma KeptBatchesSplit(a: Frames, b: Frames, boundary: nat)
    ensures KeptBatches(a + b, boundary) == KeptBatches(a, boundary) + KeptBatches(b, boundary)
    ensures BatchIds(a + b) == BatchIds(a) + BatchIds(b)
  {
    assert forall f :: f in a + b <==> f in a || f in b;
  }

  /** A log whose first unit reaches above the boundary is kept whole. */
  lemma AllKept(head: Frames, tail: Frames, boundary: nat, kept: set<nat>)
    requires head != [] && head[|head| - 1].sequence > boundary
    requires forall i :: 0 <= i < |head| ==> head[i].batchId == head[0].batchId
    requires |head| == 1 || head[0].batchId != STANDALONE
    requires forall i :: 0 <= i < |tail| ==> tail[i].sequence > boundary
    requires kept * BatchIds(head + tail) == KeptBatches(head + tail, boundary)
    ensures Select(head + tail, boundary, kept) == head + tail
  {
    var fs := head + tail;
    forall i | 0 <= i < |fs|
      ensures fs[i].sequence > boundary || fs[i].batchId in kept
    {
      if i < |head| && |head| > 1 {
        var last := head[|head| - 1];
        assert fs[|head| - 1] == last && last in fs;
        assert last.batchId in KeptBatches(fs, boundary);
      }
    }
    SelectAll(fs, boundary, kept);
  }

  /** A unit at or below the boundary is dropped whole. */
  lemma HeadDropped(head: Frames, tail: Frames, first: nat, k: nat, boundary: nat, kept: set<nat>)
    requires first > 0 && |head| == k > 0 && first + k - 1 <= boundary && STANDALONE !in kept
    requires forall i :: 0 <= i < k ==> head[i].sequence == first + i && (head[i].batchId == STANDALONE || head[i].batchId == first)
    requires forall i :: 0 <= i < |tail| ==> tail[i].batchId == STANDALONE || tail[i].batchId >= first + k
    requires kept * BatchIds(head + tail) == KeptBatches(head + tail, boundary)
    ensures Select(head, boundary, kept) == []
    ensures kept * BatchIds(tail) == KeptBatches(tail, boundary)
  {
    KeptBatchesSplit(head, tail, boundary);
    assert KeptBatches(head, boundary) == {};
    assert forall b :: b in KeptBatches(tail, boundary) ==> b >= first + k;
    forall i | 0 <= i < |head|
      ensures head[i].sequence <= boundary && head[i].batchId !in kept
    {
      assert head[i] in head + tail by { assert head[i] in head; }
      var b := head[i].batchId;
      assert b != STANDALONE ==> b in BatchIds(head + tail);
      assert b in kept ==> b in kept * BatchIds(head + tail);
      assert b != STANDALONE ==> b !in KeptBatches(tail, boundary);
    }
    SelectNone(head, boundary, kept);
  }

  lemma SuffixStep(us: seq<Unit>, first: nat, m: nat)
    requires us != [] && m < |us|
    ensures Layout(us[m + 1..], FirstOf(us, first, m + 1)) ==
            Layout(us[1..][m..], FirstOf(us[1..], first + UnitLength(us[0]), m))
  {
    assert us[m + 1..] == us[1..][m..];
  }

  lemma FirstKept(us: seq<Unit>, first: nat, boundary: nat, kept: set<nat>)
    requires us != [] && first > 0 && first + UnitLength(us[0]) - 1 > boundary
    requires kept * BatchIds(Layout(us, first)) == KeptBatches(Layout(us, first), boundary)
    ensures Select(Layout(us, first), boundary, kept) == Layout(us, first)
  {
    hide Layout;
    hide UnitFrames;
    hide KeptBatches;
    hide BatchIds;
    hide Select;
    var k := UnitLength(us[0]);
    var head, tail := UnitFrames(us[0], first), Layout(us[1..], first + k);
    LayoutHead(us, first);
    AllKept(head, tail, boundary, kept);
  }

  lemma FirstDropped(us: seq<Unit>, first: nat, boundary: nat, kept: set<nat>)
    requires us != [] && first > 0 && first + UnitLength(us[0]) - 1 <= boundary && STANDALONE !in kept
    requires kept * BatchIds(Layout(us, first)) == KeptBatches(Layout(us, first), boundary)
    ensures var tail := Layout(us[1..], first + UnitLength(us[0]));
            && Select(Layout(us, first), boundary, kept) == Select(tail, boundary, kept)
            && kept * BatchIds(tail) == KeptBatches(tail, boundary)
  {
    hide Layout;
    hide UnitFrames;
    hide KeptBatches;
    hide BatchIds;
    hide Select;
    var k := UnitLength(us[0]);
    var head, tail := UnitFrames(us[0], first), Layout(us[1..], first + k);
    LayoutHead(us, first);
    HeadDropped(head, tail, first, k, boundary, kept);
    SelectAppend(head, tail, boundary, kept);
    assert [] + Select(tail, boundary, kept) == Select(tail, boundary, kept);
  }

  lemma {:induction false} SelectSuffix(us: seq<Unit>, first: nat, boundary: nat, kept: set<nat>)
    requires first > 0 && STANDALONE !in kept
    requires kept * BatchIds(Layout(us, first)) == KeptBatches(Layout(us, first), boundary)
    ensures var m := UnitsBelow(us, first, boundary);
            Select(Layout(us, first), boundary, kept) == Layout(us[m..], FirstOf(us, first, m))
    decreases |us|
  {
    hide KeptBatches;
    hide BatchIds;
    if us != [] {
      var k := UnitLength(us[0]);
      if first + k - 1 > boundary {
        FirstKept(us, first, boundary, kept);
        assert us[0..] == us;
      } else {
        FirstDropped(us, first, boundary, kept);
        SelectSuffix(us[1..], first + k, boundary, kept);
        SuffixStep(us, first, UnitsBelow(us[1..], first + k, boundary));
      }
    }
  }

  lemma LayoutScans(us: seq<Unit>, first: nat)
    ensures ScanLength(Layout(us, first)) == |Layout(us, first)|
  {
    LayoutSequences(us, first);
    hide Layout;
    ScanIs(Layout(us, first), |Layout(us, first)|);
  }

  /**
   * Truncation keeps a suffix of whole units: exactly those with some frame above the
   * boundary. Opening accepts all of it, and replay returns exactly their operations.
   */
  lemma TruncationKeepsUnits(us: seq<Unit>, first: nat, boundary: nat)
    requires first > 0 && forall i :: 0 <= i < |us| ==> ValidUnit(us[i])
    ensures var m := UnitsBelow(us, first, boundary);
            var kept := KeepFrames(Layout(us, first), boundary);
            && kept == Layout(us[m..], FirstOf(us, first, m))
            && ScanLength(kept) == |kept|
            && Replay(kept) == Ok(LayoutOps(us[m..], FirstOf(us, first, m)))
  {
    var m := UnitsBelow(us, first, boundary);
    var fs := Layout(us, first);
    var f := FirstOf(us, first, m);
    assert KeptBatches(fs, boundary) * BatchIds(fs) == KeptBatches(fs, boundary);
    SelectSuffix(us, first, boundary, KeptBatches(fs, boundary));
    var rest := us[m..];
    FirstOfPositive(us, first, m);
    LayoutScans(rest, f);
    var n := |Layout(rest, f)|;
    assert Layout(rest, f)[..n] == Layout(rest, f);
    ReplayLayout([], rest, f, n);
    AllUnitsWhole(rest, f);
    assert rest[..|rest|] == rest;
    assert [] + LayoutOps(rest, f) == LayoutOps(rest, f);
  }

  lemma {:induction false} FirstOfPositive(us: seq<Unit>, first: nat, m: nat)
    requires first > 0 && m <= |us|
    ensures FirstOf(us, first, m) > 0
    decreases m
  {
    if m > 0 {
      FirstOfPositive(us[1..], first + UnitLength(us[0]), m - 1);
    }
  }

  lemma {:induction false} AllUnitsWhole(us: seq<Unit>, first: nat)
    ensures WholeUnits(us, |Layout(us, first)|) == |us|
    decreases |us|
  {
    if us != [] {
      AllUnitsWhole(us[1..], first + UnitLength(us[0]));
    }
  }
}
