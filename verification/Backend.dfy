/**
 * The storage contract and its two backends: the in-memory map, which is the specification,
 * and the store, driven through the same operations.
 */
module Backends {
  import opened Encoding
  import opened Options
  import opened Versions
  import opened Layers
  import opened Compaction
  import opened Machine
  import opened Safety
  import opened Runs
  import opened Jobs
  import opened Uncrashed
  import opened Timelines
  import opened Sorting
  import opened MemTables
  import opened Scans
  import opened Snapshots
  import opened StoreView
  import opened Stores
  import ManifestFile
  import WalCodec

  // -------------------------------------------------------------------------
  // Listings
  // -------------------------------------------------------------------------

  /** The sorted list of the map's pairs in a range. */
  ghost predicate IsListing(out: seq<Pair<Bytes>>, m: map<Key, Bytes>, start: Option<Key>, end: Option<Key>)
  {
    KeySorted(out) && forall k, b :: (k, b) in out <==> Between(k, start, end) && Find(m, k) == Some(b)
  }

  lemma ListingUnique(a: seq<Pair<Bytes>>, b: seq<Pair<Bytes>>, m: map<Key, Bytes>, start: Option<Key>, end: Option<Key>)
    requires IsListing(a, m, start, end) && IsListing(b, m, start, end)
    ensures a == b
  {
    forall x: Pair<Bytes>
      ensures x in a <==> x in b
    {
      assert x == (x.0, x.1);
    }
    ScanUnique(a, b);
  }

  /** The range ends before it starts. */
  ghost predicate Inverted(start: Option<Key>, end: Option<Key>)
  {
    start.Some? && end.Some? && ComesBefore(end.value, start.value)
  }

  /** The test for it. */
  predicate BadRange(start: Option<Key>, end: Option<Key>): (r: bool)
    ensures r <==> Inverted(start, end)
  {
    start.Some? && end.Some? && (LessIsComesBefore(end.value, start.value); Less(end.value, start.value))
  }

  // -------------------------------------------------------------------------
  // The in-memory backend
  // -------------------------------------------------------------------------

  class MemoryBackend {
    var data: map<Key, Bytes>

    constructor ()
      ensures data == map[]
    {
      data := map[];
    }

    method Get(key: Key) returns (r: Option<Bytes>)
      ensures r == Find(data, key)
    {
      r := Find(data, key);
    }

    /** A put or a delete. */
    method Write(op: (Key, EntryValue))
      modifies this
      ensures forall n: nat :: data == Applied(old(data), Op(n, op.0, op.1))
    {
      match op.1 {
        case Value(b) => data := data[op.0 := b];
        case Tombstone => data := data - {op.0};
      }
    }

    /** The operations one after the other. */
    method Batch(ops: seq<(Key, EntryValue)>)
      modifies this
      ensures forall n: nat :: data == AppliedAll(old(data), Numbered(ops, n))
    {
      ghost var start := data;
      for i := 0 to |ops|
        invariant forall n: nat :: data == AppliedAll(start, Numbered(ops, n)[..i])
      {
        ghost var before := data;
        Write(ops[i]);
        forall n: nat
          ensures data == AppliedAll(start, Numbered(ops, n)[..i + 1])
        {
          assert Numbered(ops, n)[..i + 1][..i] == Numbered(ops, n)[..i];
          assert data == Applied(before, Op(n + i, ops[i].0, ops[i].1));
        }
      }
      forall n: nat
        ensures Numbered(ops, n)[..|ops|] == Numbered(ops, n)
      {
      }
    }

    method Scan(start: Option<Key>, end: Option<Key>) returns (out: seq<Pair<Bytes>>)
      requires !Inverted(start, end)
      ensures IsListing(out, data, start, end)
    {
      out := ScanMap(data, start, end);
    }

    /** A snapshot is a copy of the map. */
    method Snapshot() returns (copy: map<Key, Bytes>)
      ensures copy == data
    {
      copy := data;
    }
  }

  function AppliedAll(m: map<Key, Bytes>, h: History): map<Key, Bytes>
  {
    if h == [] then m else Applied(AppliedAll(m, h[..|h| - 1]), h[|h| - 1])
  }

  /** The pairs of a range in key order. An inverted range is a caller's error. */
  method ScanMap(data: map<Key, Bytes>, start: Option<Key>, end: Option<Key>) returns (out: seq<Pair<Bytes>>)
    requires !Inverted(start, end)
    ensures IsListing(out, data, start, end)
  {
    var found: seq<Pair<Bytes>> := [];
    var keys := data.Keys;
    hide InRange;
    hide Between;
    while keys != {}
      invariant keys <= data.Keys && DistinctKeys(found)
      invariant forall x :: x in found ==> x.0 in data.Keys - keys
      invariant forall k, b :: (k, b) in found <==> k in data.Keys - keys && InRange(k, start, end) && data[k] == b
      decreases |keys|
    {
      var key :| key in keys;
      keys := keys - {key};
      if InRange(key, start, end) {
        found := found + [(key, data[key])];
      }
    }
    SortsByKey(found);
    out := Sort(ByKey(), found);
  }

  // -------------------------------------------------------------------------
  // Scans of the store, in terms of the map
  // -------------------------------------------------------------------------

  lemma ScanIsListing(s: State, t: Timeline, out: seq<Pair<Bytes>>, start: Option<Key>, end: Option<Key>)
    requires On(s, t) && IsScan(out, ReaderLayers(s), (start, end), LATEST)
    ensures IsListing(out, Contents(t.history), start, end)
  {
    hide On;
    hide ReaderLayers;
    hide ReadAt;
    hide Between;
    forall k
      ensures Live(ReadAt(ReaderLayers(s), k, LATEST)) == Find(Contents(t.history), k)
    {
      CurrentContents(s, t, k);
    }
  }

  lemma SnapshotListing(s: State, t: Timeline, b: nat, out: seq<Pair<Bytes>>, start: Option<Key>, end: Option<Key>)
    requires On(s, t) && t.mark <= b <= |t.history|
    requires IsScan(out, ReaderLayers(s), (start, end), UpTo(t.history, b))
    ensures IsListing(out, Contents(t.history[..b]), start, end)
  {
    hide On;
    hide ReaderLayers;
    hide ReadAt;
    hide Between;
    hide UpTo;
    forall k
      ensures Live(ReadAt(ReaderLayers(s), k, UpTo(t.history, b))) == Find(Contents(t.history[..b]), k)
    {
      SnapshotContents(s, t, b, k);
    }
  }

  // -------------------------------------------------------------------------
  // The store backend
  // -------------------------------------------------------------------------

  /** What a write makes of the line: one more operation when it is acknowledged. */
  function Acknowledged(ok: bool, t: Timeline, n: nat, op: (Key, EntryValue)): Timeline
  {
    if ok then Appended(t, Op(n, op.0, op.1)) else t
  }

  lemma OnOutcome(s: State, t: Timeline, op: (Key, EntryValue), admitted: bool, ok: bool, s': State)
    requires On(s, t) && WriteOutcome(s, [op], admitted, ok, s')
    ensures On(s', Acknowledged(ok, t, s.nextSequence, op))
    ensures ok <==> admitted && s.nextSequence < U64_MAX && FitsLog(op)
    ensures s'.nextSequence == if admitted && s.nextSequence < U64_MAX then s.nextSequence + 1 else s.nextSequence
  {
    OnHistory(s, t);
    assert s.nextSequence <= U64_MAX;
    hide On;
    hide FitsLog;
    assert [op][0] == op;
    if ok {
      OnWrite(s, [op], s', t);
    } else if s' != s {
      OnReject(s, s', t);
    }
  }

  class ToroidalBackend {
    const store: ToroidalStore
    /** The operations acknowledged so far, and how far the tables reach. */
    ghost var line: Timeline

    ghost predicate Valid()
      reads this, store, store.wal, store.manifest, store.snapshots
    {
      store.Valid() && On(store.View(), line)
    }

    /** What a map given the same operations holds. */
    ghost function Data(): map<Key, Bytes>
      reads this
    {
      Contents(line.history)
    }

    /** The backend of a store opened on an empty directory. */
    constructor (store: ToroidalStore)
      requires store.Valid() && Fresh(store.View())
      ensures this.store == store && Valid() && line == Empty()
    {
      OnFresh(store.View());
      this.store := store;
      line := Empty();
    }

    method Get(key: Key) returns (r: Option<Bytes>)
      requires Valid()
      ensures r == Find(Data(), key)
    {
      hide On;
      hide Machine.Get;
      hide Machine.GetAt;
      r := store.Get(key);
      CurrentContents(store.View(), line, key);
    }

    /**
     * A put or a delete. It is acknowledged exactly when the store is open, the table admits it,
     * sequences are left and the log can frame it; otherwise nothing is written.
     */
    method Write(op: (Key, EntryValue)) returns (ok: bool)
      requires Valid()
      modifies this, store`active, store.wal
      ensures Valid()
      ensures var admitted := ValidOp(op) && !store.closed && old(store.wal.nextSequence) < U64_MAX;
              && (ok <==> admitted && FitsLog(op))
              && line == Acknowledged(ok, old(line), old(store.wal.nextSequence), op)
              && store.wal.nextSequence == old(store.wal.nextSequence) + if admitted then 1 else 0
    {
      hide On;
      hide WriteOutcome;
      hide FitsLog;
      hide ValidOp;
      ghost var s := store.View();
      ok := Apply(store, op);
      OnOutcome(s, line, op, ValidOp(op) && !store.closed, ok, store.View());
      line := Acknowledged(ok, line, s.nextSequence, op);
    }

    /** A batch of at most one operation. `Limits` says what becomes of larger ones. */
    method Batch(ops: seq<(Key, EntryValue)>) returns (ok: bool)
      requires Valid() && |ops| <= 1
      modifies this, store`active, store.wal
      ensures Valid()
      ensures ops == [] ==> ok && line == old(line) && store.wal.nextSequence == old(store.wal.nextSequence)
      ensures ops != [] ==>
                var admitted := ValidOp(ops[0]) && !store.closed && old(store.wal.nextSequence) < U64_MAX;
                && (ok <==> admitted && FitsLog(ops[0]))
                && line == Acknowledged(ok, old(line), old(store.wal.nextSequence), ops[0])
                && store.wal.nextSequence == old(store.wal.nextSequence) + if admitted then 1 else 0
    {
      hide On;
      hide WriteOutcome;
      hide FitsLog;
      hide ValidOp;
      hide InMemory;
      hide NamesFit;
      hide EntriesOf;
      hide OpsOf;
      hide KindsOf;
      hide PairsOf;
      hide ValidBatch;
      hide Counts;
      ghost var s := store.View();
      NextFits(store.View(), line);
      KindsArePairs(ops);
      ok := store.Batch(KindsOf(ops));
      if ops != [] && ValidBatch(KindsOf(ops)) {
        assert ops == [ops[0]];
        OnOutcome(s, line, ops[0], !store.closed, ok, store.View());
        line := Acknowledged(ok, line, s.nextSequence, ops[0]);
      }
    }

    /** The current scan; an inverted range is refused. */
    method Scan(start: Option<Key>, end: Option<Key>) returns (r: Result<seq<Pair<Bytes>>, StoreError>)
      requires Valid()
      ensures r.Err? <==> Inverted(start, end)
      ensures r.Ok? ==> IsListing(r.value, Data(), start, end)
    {
      hide On;
      hide IsScan;
      hide ReaderLayers;
      hide IsListing;
      if BadRange(start, end) {
        return Err(Storage);
      }
      FlushedIsLow(store.dir, store.records, store.manifest);
      var scanned := store.ScanAt(LATEST, start, end);
      var out := if scanned.Ok? then scanned.value else [];
      ScanIsListing(store.View(), line, out, start, end);
      return Ok(out);
    }

    method Freeze()
      requires Valid()
      modifies this, store`active, store`frozen
      ensures Valid() && line == Frozen(old(line)) && |store.frozen| == old(|store.frozen|) + 1
      ensures store.wal.nextSequence == old(store.wal.nextSequence)
    {
      hide On;
      ghost var s := store.View();
      var t := store.Freeze();
      OnFreeze(s, store.View(), line);
      line := Frozen(line);
    }

    /** One frozen table, the oldest, becomes a segment. */
    method Flush()
      requires Valid() && store.nextSegId < U64_LIMIT
      modifies this, store`files, store`active, store`frozen, store`segments, store`nextSegId, store`records, store.manifest
      ensures Valid() && line == FlushedOne(old(line)) && store.wal.nextSequence == old(store.wal.nextSequence)
      ensures store.nextSegId + |store.frozen| == old(store.nextSegId + |store.frozen|)
    {
      hide On;
      hide Path;
      hide MoveEvents;
      ghost var s := store.View();
      var r := store.Flush();
      OnFlush(s, store.View(), line);
      FlushCounts(s, store.View());
      line := FlushedOne(line);
    }

    /** Flushing the backend is a checkpoint of the store. */
    method Checkpoint()
      requires Valid() && store.nextSegId + |store.frozen| + 1 <= U64_LIMIT
      modifies this, store`files, store`active, store`frozen, store`segments, store`nextSegId, store`records,
               store.manifest, store.wal
      ensures Valid() && line == Checkpointed(old(line)) && store.wal.nextSequence == old(store.wal.nextSequence)
      ensures store.frozen == [] && store.nextSegId == old(store.nextSegId + |store.frozen| + 1)
    {
      hide On;
      hide Path;
      hide CheckpointEvents;
      ghost var s := store.View();
      var n := store.Checkpoint();
      OnCheckpoint(s, store.View(), line);
      SequenceKept(s, n, store.View());
      line := Checkpointed(line);
    }

    /** Compaction, whatever the front segment holds. */
    method Compact()
      requires Valid() && store.nextSegId < U64_LIMIT
      modifies this, store`files, store`active, store`frozen, store`segments, store`nextSegId, store`records, store.manifest
      ensures Valid() && line == Joined(old(line)) && store.wal.nextSequence == old(store.wal.nextSequence)
      ensures store.frozen == old(store.frozen) && store.nextSegId <= old(store.nextSegId) + 1
    {
      hide On;
      hide Path;
      hide CompactEvents;
      hide IsOldest;
      OnHistory(store.View(), line);
      ghost var s, low := store.View(), store.manifest.maxFlushed;
      var n := store.Compact();
      if n >= 2 {
        ghost var keep :| IsOldest(store.snapshots.live, low, keep) && Path(s, CompactEvents(keep), store.View());
        OnCompact(s, keep, store.View(), line);
        line := Joined(line);
      }
    }

    /**
     * A managed snapshot. It is taken at the last operation exactly when a table in memory holds
     * something, some segment declares that operation's sequence, or there is none; otherwise at
     * the last one that a segment declares.
     */
    method Snapshot() returns (h: Handle)
      requires Valid()
      modifies store.snapshots
      ensures Valid() && store.snapshots.live == old(store.snapshots.live) + multiset{h.sequence}
      ensures h.managed && Seen(line) <= |line.history| && h.sequence == UpTo(line.history, Seen(line))
      ensures h.sequence == LastSequence(line.history) <==>
                || line.history == [] || MemoryHolds(store.View()) || Declares(store.segments, LastSequence(line.history))
    {
      hide On;
      hide SnapshotBoundary;
      hide MemoryHolds;
      hide Declares;
      h := store.Snapshot();
      BoundaryIsSeen(store.View(), line);
      TakenAtLastIff(store.View(), line);
    }

    /**
     * A read through a live snapshot is never refused. If the snapshot saw the first `seen`
     * operations and no compaction has merged later ones, it finds what the map held after them.
     */
    method GetAt(h: Handle, key: Key, ghost seen: nat) returns (r: Result<Option<Bytes>, StoreError>)
      requires Valid()
      ensures h.sequence in store.snapshots.live ==> r.Ok?
      ensures h.sequence in store.snapshots.live && line.mark <= seen <= |line.history| && h.sequence == UpTo(line.history, seen) ==>
                r == Ok(Find(Contents(line.history[..seen]), key))
    {
      hide On;
      hide UpTo;
      hide Machine.GetAt;
      r := store.GetAt(h.sequence, key);
      if line.mark <= seen <= |line.history| && h.sequence == UpTo(line.history, seen) {
        SnapshotContents(store.View(), line, seen, key);
      }
    }

    /** The range scan through such a snapshot. */
    method ScanAt(h: Handle, start: Option<Key>, end: Option<Key>, ghost seen: nat)
      returns (r: Result<seq<Pair<Bytes>>, StoreError>)
      requires Valid()
      ensures h.sequence in store.snapshots.live ==> (r.Err? <==> Inverted(start, end))
      ensures && !Inverted(start, end) && h.sequence in store.snapshots.live
              && line.mark <= seen <= |line.history| && h.sequence == UpTo(line.history, seen) ==>
                r.Ok? && IsListing(r.value, Contents(line.history[..seen]), start, end)
    {
      hide On;
      hide UpTo;
      hide IsScan;
      hide ReaderLayers;
      hide IsListing;
      if BadRange(start, end) {
        return Err(Storage);
      }
      r := store.ScanAt(h.sequence, start, end);
      if line.mark <= seen <= |line.history| && h.sequence == UpTo(line.history, seen) && r.Ok? {
        SnapshotListing(store.View(), line, seen, r.value, start, end);
      }
    }
  }

  lemma NextFits(s: State, t: Timeline)
    requires On(s, t)
    ensures s.nextSequence < U64_LIMIT
  {
    OnHistory(s, t);
  }

  lemma KindsArePairs(ops: seq<(Key, EntryValue)>)
    ensures forall i :: 0 <= i < |ops| ==> KindsOf(ops)[i].IsOperation()
    ensures PairsOf(KindsOf(ops)) == ops
    ensures ValidBatch(KindsOf(ops)) <==> forall i :: 0 <= i < |ops| ==> ValidOp(ops[i])
  {
    hide ValidOp;
    forall i | 0 <= i < |ops|
      ensures KindsOf(ops)[i].IsOperation() && PairOf(KindsOf(ops)[i]) == ops[i]
    {
    }
  }

  lemma FlushCounts(s: State, s': State)
    requires if s.frozen == [] then s' == s else Path(s, MoveEvents(1, false), s')
    ensures s'.nextSegId + |s'.frozen| == s.nextSegId + |s.frozen| && s'.nextSequence == s.nextSequence
  {
    hide Path;
    if s.frozen != [] {
      var s1, s2, s3, s4 := MoveSteps(s, 1, false, s');
      var segs := MoveEnds(s, 1, false, s1, s2, s3, s4, s');
      hide FilesOf;
      hide Stack;
    }
  }

  lemma SequenceKept(s: State, n: nat, s': State)
    requires Path(s, CheckpointEvents(n), s')
    ensures s'.nextSequence == s.nextSequence
  {
    hide Path;
    var f, m := CheckpointSteps(s, n, s');
    var s1, s2, s3, s4 := MoveSteps(f, n, true, m);
    hide FilesOf;
    hide Stack;
    hide SegmentsFor;
  }

  lemma TakenAtLastIff(s: State, t: Timeline)
    requires On(s, t)
    ensures SnapshotBoundary(s) == LastSequence(t.history) <==>
              t.history == [] || MemoryHolds(s) || Declares(s.segments, LastSequence(t.history))
  {
    var h := t.history;
    OnReadable(s, t);
    OnHistory(s, t);
    forall i | 0 <= i < |s.segments|
      ensures s.segments[i].maxSeq <= LastSequence(h)
    {
      UpToMonotone(h, s.nextSequence, t.declared[i], |h|);
    }
    hide *;
    BoundaryIsLastIff(s, h, UpTo(h, t.mark), CoverOf(t));
  }

  // -------------------------------------------------------------------------
  // The store refines the map
  // -------------------------------------------------------------------------

  datatype Command =
    | DoWrite(op: (Key, EntryValue))
    | DoBatch(ops: seq<(Key, EntryValue)>)
    | DoGet(key: Key)
    | DoScan(start: Option<Key>, end: Option<Key>)
    | DoFreeze
    | DoFlush
    | DoCheckpoint
    | DoCompact
    | DoSnapshot
    | DoGetAt(shot: nat, key: Key)
    | DoScanAt(shot: nat, start: Option<Key>, end: Option<Key>)

  datatype Reply = Done(ok: bool) | Found(value: Option<Bytes>) | Listed(pairs: seq<Pair<Bytes>>) | Refused

  /** A snapshot as its holder has it: a handle of the store, and the copy of the map taken with it. */
  datatype Shot = Shot(handle: Handle, copy: map<Key, Bytes>)

  /** How many operations such a snapshot sees, of how many there were. */
  datatype Sight = Sight(seen: nat, all: nat)

  /** The line, the next sequence that an append takes, and the snapshots taken. */
  datatype Model = Model(line: Timeline, next: nat, shots: seq<Sight>)

  /** A command that the theorem covers: a batch has at most one operation. */
  predicate Covered(c: Command)
  {
    c.DoBatch? ==> |c.ops| <= 1
  }

  function Wrote(open: bool, m: Model, op: (Key, EntryValue)): Model
  {
    if open && ValidOp(op) && m.next < U64_MAX then
      m.(line := Acknowledged(FitsLog(op), m.line, m.next, op), next := m.next + 1)
    else m
  }

  function After(open: bool, m: Model, c: Command): Model
  {
    match c
    case DoWrite(op) => Wrote(open, m, op)
    case DoBatch(ops) => if ops == [] then m else Wrote(open, m, ops[0])
    case DoFreeze => m.(line := Frozen(m.line))
    case DoFlush => m.(line := FlushedOne(m.line))
    case DoCheckpoint => m.(line := Checkpointed(m.line))
    case DoCompact => m.(line := Joined(m.line))
    case DoSnapshot => m.(shots := m.shots + [Sight(Seen(m.line), |m.line.history|)])
    case _ => m
  }

  function AfterAll(open: bool, m: Model, cs: seq<Command>): Model
  {
    if cs == [] then m else After(open, AfterAll(open, m, cs[..|cs| - 1]), cs[|cs| - 1])
  }

  /** What the map held after the first `n` operations. */
  function MapAt(m: Model, n: nat): map<Key, Bytes>
  {
    Contents(if n <= |m.line.history| then m.line.history[..n] else m.line.history)
  }

  ghost predicate Lists(r: Reply, data: map<Key, Bytes>, start: Option<Key>, end: Option<Key>)
  {
    r.Listed? && IsListing(r.pairs, data, start, end)
  }

  /** No compaction has merged anything that the snapshot does not see. */
  predicate Unmerged(m: Model, i: nat)
  {
    i < |m.shots| && m.line.mark <= m.shots[i].seen
  }

  /** The right answers of the store. */
  ghost predicate Right(open: bool, m: Model, c: Command, r: Reply)
  {
    match c
    case DoWrite(op) => r == Done(open && ValidOp(op) && m.next < U64_MAX && FitsLog(op))
    case DoBatch(ops) => r == Done(ops == [] || (open && ValidOp(ops[0]) && m.next < U64_MAX && FitsLog(ops[0])))
    case DoGet(key) => r == Found(Find(Contents(m.line.history), key))
    case DoScan(start, end) =>
      if Inverted(start, end) then r == Refused else Lists(r, Contents(m.line.history), start, end)
    case DoGetAt(i, key) =>
      if i >= |m.shots| then r == Refused
      else r.Found? && (Unmerged(m, i) ==> r == Found(Find(MapAt(m, m.shots[i].seen), key)))
    case DoScanAt(i, start, end) =>
      if i >= |m.shots| || Inverted(start, end) then r == Refused
      else r.Listed? && (Unmerged(m, i) ==> Lists(r, MapAt(m, m.shots[i].seen), start, end))
    case _ => r == Done(true)
  }

  /** The answers of the map: a snapshot is the map as it was when it was taken. */
  ghost predicate Ideal(open: bool, m: Model, c: Command, r: Reply)
  {
    match c
    case DoGetAt(i, key) =>
      if i >= |m.shots| then r == Refused else r == Found(Find(MapAt(m, m.shots[i].all), key))
    case DoScanAt(i, start, end) =>
      if i >= |m.shots| || Inverted(start, end) then r == Refused else Lists(r, MapAt(m, m.shots[i].all), start, end)
    case _ => Right(open, m, c, r)
  }

  /** A snapshot read on which the store keeps the promise: the snapshot saw everything, and nothing later has been merged. */
  predicate Kept(m: Model, c: Command)
  {
    (c.DoGetAt? || c.DoScanAt?) && c.shot < |m.shots| ==> Unmerged(m, c.shot) && m.shots[c.shot].seen == m.shots[c.shot].all
  }

  /** Both answers are what they should be, and the same where the store keeps the promise. */
  ghost predicate Answered(open: bool, m: Model, c: Command, a: Reply, b: Reply)
  {
    Right(open, m, c, a) && Ideal(open, m, c, b) && (Kept(m, c) ==> a == b)
  }

  ghost predicate Held(shots: seq<Shot>, m: Model, live: multiset<nat>)
  {
    && |shots| == |m.shots|
    && forall i :: 0 <= i < |shots| ==>
         && m.shots[i].seen <= m.shots[i].all <= |m.line.history|
         && shots[i].handle.sequence == UpTo(m.line.history, m.shots[i].seen) && shots[i].handle.sequence in live
         && shots[i].copy == Contents(m.line.history[..m.shots[i].all])
  }

  /** Both backends stand at the same point of the line. */
  ghost predicate Agree(t: ToroidalBackend, m: MemoryBackend, shots: seq<Shot>, model: Model)
    reads t, t.store, t.store.wal, t.store.manifest, t.store.snapshots, m
  {
    && t.Valid() && t.line == model.line && m.data == t.Data() && t.store.wal.nextSequence == model.next
    && Held(shots, model, t.store.snapshots.live)
  }

  lemma HeldAfterWrite(shots: seq<Shot>, m: Model, live: multiset<nat>, o: Op, n: nat)
    requires Held(shots, m, live)
    ensures Held(shots, m.(line := Appended(m.line, o), next := n), live)
  {
    var h := m.line.history;
    forall i | 0 <= i < |shots|
      ensures (h + [o])[..m.shots[i].seen] == h[..m.shots[i].seen] && (h + [o])[..m.shots[i].all] == h[..m.shots[i].all]
    {
    }
  }

  lemma HeldOn(shots: seq<Shot>, m: Model, live: multiset<nat>, m': Model)
    requires Held(shots, m, live) && m'.line.history == m.line.history && m'.shots == m.shots
    ensures Held(shots, m', live)
  {
  }

  lemma HeldOneMore(shots: seq<Shot>, m: Model, live: multiset<nat>, h: Handle, copy: map<Key, Bytes>)
    requires Held(shots, m, live) && Seen(m.line) <= |m.line.history|
    requires h.sequence == UpTo(m.line.history, Seen(m.line)) && copy == Contents(m.line.history)
    ensures Held(shots + [Shot(h, copy)], m.(shots := m.shots + [Sight(Seen(m.line), |m.line.history|)]), live + multiset{h.sequence})
  {
    assert m.line.history[..|m.line.history|] == m.line.history;
    hide UpTo;
    hide Seen;
  }

  /** A put or a delete on both. */
  method WriteBoth(t: ToroidalBackend, m: MemoryBackend, op: (Key, EntryValue), ghost shots: seq<Shot>, ghost model: Model)
    returns (ok: bool)
    requires Agree(t, m, shots, model)
    modifies t, m, t.store`active, t.store.wal
    ensures Agree(t, m, shots, Wrote(!t.store.closed, model, op))
    ensures ok <==> !t.store.closed && ValidOp(op) && model.next < U64_MAX && FitsLog(op)
  {
    hide ToroidalBackend.Valid;
    hide ValidOp;
    hide FitsLog;
    hide Held;
    ghost var h, n := t.line.history, t.store.wal.nextSequence;
    ok := t.Write(op);
    WriteAgrees(h, shots, model, t.store.snapshots.live, op);
    if ok {
      m.Write(op);
    }
  }

  /** A batch of at most one operation on both. */
  method BatchBoth(t: ToroidalBackend, m: MemoryBackend, ops: seq<(Key, EntryValue)>, ghost shots: seq<Shot>, ghost model: Model)
    returns (ok: bool)
    requires Agree(t, m, shots, model) && |ops| <= 1
    modifies t, m, t.store`active, t.store.wal
    ensures Agree(t, m, shots, if ops == [] then model else Wrote(!t.store.closed, model, ops[0]))
    ensures ok <==> ops == [] || (!t.store.closed && ValidOp(ops[0]) && model.next < U64_MAX && FitsLog(ops[0]))
  {
    hide ToroidalBackend.Valid;
    hide ValidOp;
    hide FitsLog;
    hide Held;
    ghost var h, n := t.line.history, t.store.wal.nextSequence;
    ok := t.Batch(ops);
    if ops != [] {
      WriteAgrees(h, shots, model, t.store.snapshots.live, ops[0]);
    }
    if ok {
      BatchOfOne(ops, n, m.data);
      m.Batch(ops);
    }
  }

  lemma BatchOfOne(ops: seq<(Key, EntryValue)>, n: nat, data: map<Key, Bytes>)
    requires |ops| <= 1
    ensures AppliedAll(data, Numbered(ops, n)) == if ops == [] then data else Applied(data, Op(n, ops[0].0, ops[0].1))
  {
    assert Numbered(ops, n)[..0] == [];
  }

  lemma WriteAgrees(h: History, shots: seq<Shot>, m: Model, live: multiset<nat>, op: (Key, EntryValue))
    requires Held(shots, m, live) && m.line.history == h
    ensures Contents(h + [Op(m.next, op.0, op.1)]) == Applied(Contents(h), Op(m.next, op.0, op.1))
    ensures forall open :: Held(shots, Wrote(open, m, op), live)
  {
    AfterOne(h, Op(m.next, op.0, op.1));
    HeldAfterWrite(shots, m, live, Op(m.next, op.0, op.1), m.next + 1);
    HeldOn(shots, m, live, m.(next := m.next + 1));
    hide Held;
    hide ValidOp;
    hide FitsLog;
  }

  /** Freezes, flushes, checkpoints and compactions mean nothing to the map. */
  method Maintain(t: ToroidalBackend, m: MemoryBackend, c: Command, ghost shots: seq<Shot>, ghost model: Model)
    requires Agree(t, m, shots, model) && t.store.nextSegId + |t.store.frozen| < U64_LIMIT
    requires c.DoFreeze? || c.DoFlush? || c.DoCheckpoint? || c.DoCompact?
    modifies t, t.store`files, t.store`active, t.store`frozen, t.store`segments, t.store`nextSegId, t.store`records,
             t.store.manifest, t.store.wal
    ensures Agree(t, m, shots, After(!t.store.closed, model, c))
    ensures t.store.nextSegId + |t.store.frozen| <= old(t.store.nextSegId + |t.store.frozen|) + 1
  {
    hide ToroidalBackend.Valid;
    hide Held;
    SameHistory(model.line);
    HeldOn(shots, model, t.store.snapshots.live, After(!t.store.closed, model, c));
    hide Frozen;
    hide FlushedOne;
    hide Checkpointed;
    hide Joined;
    if c.DoFreeze? {
      t.Freeze();
    } else if c.DoFlush? {
      t.Flush();
    } else if c.DoCheckpoint? {
      t.Checkpoint();
    } else {
      t.Compact();
    }
  }

  lemma SameHistory(t: Timeline)
    ensures Frozen(t).history == FlushedOne(t).history == Checkpointed(t).history == Joined(t).history == t.history
  {
  }

  /** A snapshot of both. */
  method TakeShot(t: ToroidalBackend, m: MemoryBackend, shots: seq<Shot>, ghost model: Model) returns (r: seq<Shot>)
    requires Agree(t, m, shots, model)
    modifies t.store.snapshots
    ensures Agree(t, m, r, After(!t.store.closed, model, DoSnapshot))
  {
    hide ToroidalBackend.Valid;
    hide Held;
    hide UpTo;
    hide Seen;
    hide MemoryHolds;
    hide Declares;
    ghost var live := t.store.snapshots.live;
    var h := t.Snapshot();
    var copy := m.Snapshot();
    HeldOneMore(shots, model, live, h, copy);
    r := shots + [Shot(h, copy)];
  }

  lemma HeldFacts(shots: seq<Shot>, m: Model, live: multiset<nat>, i: nat)
    requires Held(shots, m, live) && i < |shots|
    ensures |shots| == |m.shots| && m.shots[i].seen <= |m.line.history| && m.shots[i].all <= |m.line.history|
    ensures shots[i].handle.sequence == UpTo(m.line.history, m.shots[i].seen) && shots[i].handle.sequence in live
    ensures shots[i].copy == MapAt(m, m.shots[i].all)
  {
    hide UpTo;
  }

  /** A read of one key through a snapshot. */
  method GetShot(t: ToroidalBackend, m: MemoryBackend, shots: seq<Shot>, i: nat, key: Key, ghost model: Model)
    returns (a: Reply, b: Reply)
    requires Agree(t, m, shots, model) && i < |shots|
    ensures |model.shots| == |shots| && a.Found? && b == Found(Find(MapAt(model, model.shots[i].all), key))
    ensures Unmerged(model, i) ==> a == Found(Find(MapAt(model, model.shots[i].seen), key))
  {
    HeldFacts(shots, model, t.store.snapshots.live, i);
    hide ToroidalBackend.Valid;
    hide Held;
    hide UpTo;
    var x := t.GetAt(shots[i].handle, key, model.shots[i].seen);
    a, b := Found(if x.Ok? then x.value else None), Found(Find(shots[i].copy, key));
  }

  /** A range scan through a snapshot. */
  method ScanShot(t: ToroidalBackend, m: MemoryBackend, shots: seq<Shot>, i: nat, start: Option<Key>, end: Option<Key>,
                  ghost model: Model)
    returns (a: Reply, b: Reply)
    requires Agree(t, m, shots, model) && i < |shots| && !Inverted(start, end)
    ensures |model.shots| == |shots| && a.Listed? && Lists(b, MapAt(model, model.shots[i].all), start, end)
    ensures Unmerged(model, i) ==> Lists(a, MapAt(model, model.shots[i].seen), start, end)
  {
    HeldFacts(shots, model, t.store.snapshots.live, i);
    hide ToroidalBackend.Valid;
    hide Held;
    hide UpTo;
    hide IsListing;
    var x := t.ScanAt(shots[i].handle, start, end, model.shots[i].seen);
    var y := ScanMap(shots[i].copy, start, end);
    a, b := Listed(if x.Ok? then x.value else []), Listed(y);
  }

  lemma ListsUnique(a: Reply, b: Reply, data: map<Key, Bytes>, start: Option<Key>, end: Option<Key>)
    requires Lists(a, data, start, end) && Lists(b, data, start, end)
    ensures a == b
  {
    ListingUnique(a.pairs, b.pairs, data, start, end);
  }

  /** The current reads on both. */
  method ReadBoth(t: ToroidalBackend, m: MemoryBackend, c: Command, ghost shots: seq<Shot>, ghost model: Model)
    returns (a: Reply, b: Reply)
    requires Agree(t, m, shots, model) && (c.DoGet? || c.DoScan?)
    ensures a == b && forall open :: Right(open, model, c, a)
  {
    hide ToroidalBackend.Valid;
    hide Held;
    hide IsListing;
    match c {
      case DoGet(key) =>
        var x := t.Get(key);
        var y := m.Get(key);
        a, b := Found(x), Found(y);
      case DoScan(start, end) =>
        var x := t.Scan(start, end);
        if x.Err? {
          a, b := Refused, Refused;
        } else {
          var y := m.Scan(start, end);
          ListingUnique(x.value, y, m.data, start, end);
          a, b := Listed(x.value), Listed(y);
        }
    }
  }

  lemma OneAnswered(m: Model, c: Command, a: Reply, b: Reply)
    requires c.DoGetAt? && c.shot < |m.shots| && a.Found? && b == Found(Find(MapAt(m, m.shots[c.shot].all), c.key))
    requires Unmerged(m, c.shot) ==> a == Found(Find(MapAt(m, m.shots[c.shot].seen), c.key))
    ensures forall open :: Answered(open, m, c, a, b)
  {
    hide MapAt;
  }

  lemma RangeAnswered(m: Model, c: Command, a: Reply, b: Reply)
    requires c.DoScanAt? && c.shot < |m.shots| && !Inverted(c.start, c.end)
    requires a.Listed? && Lists(b, MapAt(m, m.shots[c.shot].all), c.start, c.end)
    requires Unmerged(m, c.shot) ==> Lists(a, MapAt(m, m.shots[c.shot].seen), c.start, c.end)
    ensures forall open :: Answered(open, m, c, a, b)
  {
    hide MapAt;
    hide Inverted;
    if Kept(m, c) {
      ListsUnique(a, b, MapAt(m, m.shots[c.shot].all), c.start, c.end);
    }
    hide Lists;
  }

  lemma NoneAnswered(m: Model, c: Command)
    requires c.DoGetAt? || c.DoScanAt?
    requires c.shot >= |m.shots| || (c.DoScanAt? && Inverted(c.start, c.end))
    ensures forall open :: Answered(open, m, c, Refused, Refused)
  {
    hide MapAt;
    hide Inverted;
    hide Lists;
  }

  /** Reads through the snapshots on both. */
  method ReadShot(t: ToroidalBackend, m: MemoryBackend, c: Command, shots: seq<Shot>, ghost model: Model)
    returns (a: Reply, b: Reply)
    requires Agree(t, m, shots, model) && (c.DoGetAt? || c.DoScanAt?)
    ensures forall open :: Answered(open, model, c, a, b)
  {
    assert |shots| == |model.shots|;
    hide Agree;
    hide Answered;
    hide MapAt;
    hide Lists;
    hide Unmerged;
    hide BadRange;
    hide Inverted;
    if c.shot >= |shots| || (c.DoScanAt? && BadRange(c.start, c.end)) {
      NoneAnswered(model, c);
      a, b := Refused, Refused;
    } else if c.DoGetAt? {
      a, b := GetShot(t, m, shots, c.shot, c.key, model);
      OneAnswered(model, c, a, b);
    } else {
      a, b := ScanShot(t, m, shots, c.shot, c.start, c.end, model);
      RangeAnswered(model, c, a, b);
    }
  }

  /**
   * One command on both backends. The store's answer is right, the map's the ideal one, and both
   * are the same unless a snapshot is read that missed something or that a compaction passed by.
   */
  method Perform(t: ToroidalBackend, m: MemoryBackend, c: Command, shots: seq<Shot>, ghost model: Model)
    returns (a: Reply, b: Reply, shots': seq<Shot>)
    requires Agree(t, m, shots, model) && t.store.nextSegId + |t.store.frozen| < U64_LIMIT && Covered(c)
    modifies t, m, t.store`files, t.store`active, t.store`frozen, t.store`segments, t.store`nextSegId, t.store`records,
             t.store.manifest, t.store.wal, t.store.snapshots
    ensures Agree(t, m, shots', After(!t.store.closed, model, c))
    ensures t.store.nextSegId + |t.store.frozen| <= old(t.store.nextSegId + |t.store.frozen|) + 1
    ensures Answered(!t.store.closed, model, c, a, b)
  {
    hide Agree;
    hide Wrote;
    hide Lists;
    hide FitsLog;
    hide ValidOp;
    shots' := shots;
    match c {
      case DoWrite(op) =>
        var ok := WriteBoth(t, m, op, shots, model);
        a, b := Done(ok), Done(ok);
      case DoBatch(ops) =>
        var ok := BatchBoth(t, m, ops, shots, model);
        a, b := Done(ok), Done(ok);
      case DoSnapshot =>
        shots' := TakeShot(t, m, shots, model);
        a, b := Done(true), Done(true);
      case DoGet(_) => a, b := ReadBoth(t, m, c, shots, model);
      case DoScan(_, _) => a, b := ReadBoth(t, m, c, shots, model);
      case DoGetAt(_, _) => a, b := ReadShot(t, m, c, shots, model);
      case DoScanAt(_, _, _) => a, b := ReadShot(t, m, c, shots, model);
      case _ =>
        Maintain(t, m, c, shots, model);
        a, b := Done(true), Done(true);
    }
  }

  lemma AfterOneMore(open: bool, m: Model, cs: seq<Command>, i: nat)
    requires i < |cs|
    ensures AfterAll(open, m, cs[..i + 1]) == After(open, AfterAll(open, m, cs[..i]), cs[i])
  {
    assert cs[..i + 1][..i] == cs[..i];
  }

  /**
   * Refinement. Whatever the sequence of puts, deletes, batches of one operation, reads, range
   * scans, freezes, flushes, checkpoints, compactions, snapshots and reads through them, every
   * answer of the store is the one the line gives at that point; the in-memory backend, given the
   * same commands, gives the same answers, except where a snapshot missed something or was passed
   * by a compaction.
   */
  method Drive(t: ToroidalBackend, m: MemoryBackend, cs: seq<Command>, ghost model: Model)
    returns (a: seq<Reply>, b: seq<Reply>, shots: seq<Shot>)
    requires Agree(t, m, [], model) && t.store.nextSegId + |t.store.frozen| + |cs| <= U64_LIMIT
    requires forall i :: 0 <= i < |cs| ==> Covered(cs[i])
    modifies t, m, t.store`files, t.store`active, t.store`frozen, t.store`segments, t.store`nextSegId, t.store`records,
             t.store.manifest, t.store.wal, t.store.snapshots
    ensures |a| == |b| == |cs| && Agree(t, m, shots, AfterAll(!t.store.closed, model, cs))
    ensures forall i :: 0 <= i < |cs| ==> Answered(!t.store.closed, AfterAll(!t.store.closed, model, cs[..i]), cs[i], a[i], b[i])
  {
    hide Agree;
    hide After;
    hide AfterAll;
    hide Answered;
    ghost var open := !t.store.closed;
    NothingAfter(open, model, cs);
    a, b, shots := [], [], [];
    for i := 0 to |cs|
      invariant Agree(t, m, shots, AfterAll(open, model, cs[..i])) && |a| == |b| == i
      invariant t.store.nextSegId + |t.store.frozen| + (|cs| - i) <= U64_LIMIT
      invariant forall j :: 0 <= j < i ==> Answered(open, AfterAll(open, model, cs[..j]), cs[j], a[j], b[j])
    {
      AfterOneMore(open, model, cs, i);
      var x, y, next := Perform(t, m, cs[i], shots, AfterAll(open, model, cs[..i]));
      a, b, shots := a + [x], b + [y], next;
    }
    assert cs[..|cs|] == cs;
  }

  lemma NothingAfter(open: bool, m: Model, cs: seq<Command>)
    ensures AfterAll(open, m, cs[..0]) == m
  {
  }
}
