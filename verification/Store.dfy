/**
 * The store: a log, a manifest and segment files on disk, and the tables in memory. Every
 * operation is proved to take the machine along a path of its events.
 */
module Stores {
  import opened Encoding
  import opened Options
  import opened Versions
  import opened Layers
  import opened Compaction
  import opened Machine
  import opened Safety
  import opened Runs
  import opened Jobs
  import opened Effects
  import opened Sorting
  import opened MemTables
  import opened Scans
  import opened Snapshots
  import opened SegmentNames
  import opened StoreView
  import Framing
  import WalCodec
  import WalLog
  import WalFile
  import ManifestFile

  // -------------------------------------------------------------------------
  // Tables in memory
  // -------------------------------------------------------------------------

  /** Chains are not empty and their fronts are 64-bit sequences. */
  ghost predicate Proper(t: Table)
  {
    forall k :: k in t ==> t[k] != [] && t[k][0].sequence <= LATEST
  }

  ghost predicate InMemory(active: Table, frozen: seq<Table>, segments: seq<Seg>)
  {
    && Proper(active)
    && (forall i :: 0 <= i < |frozen| ==> Proper(frozen[i]))
    && (forall i :: 0 <= i < |segments| ==> segments[i].maxSeq <= LATEST && segments[i].id < U64_LIMIT)
  }

  lemma ProperMax(t: Table)
    requires Proper(t)
    ensures NoEmptyChains(t) && FrontMax(t) <= LATEST
  {
  }

  lemma PushProper(t: Table, k: Key, v: VersionedEntry)
    requires Proper(t) && v.sequence <= LATEST
    ensures Proper(Push(t, k, v))
  {
  }

  // -------------------------------------------------------------------------
  // Writes
  // -------------------------------------------------------------------------

  predicate ValidOp(op: (Key, EntryValue))
  {
    if op.1.Value? then ValidPut(op.0, op.1.bytes) else ValidDelete(op.0)
  }

  /** The payload fits a log frame. */
  predicate FitsLog(op: (Key, EntryValue))
  {
    if op.1.Value? then 8 + |op.0| + |op.1.bytes| <= WalCodec.MAX_PAYLOAD_SIZE else 4 + |op.0| <= WalCodec.MAX_PAYLOAD_SIZE
  }

  /** What a write does: nothing when it is not admitted or sequences are exhausted; a rejected append when a
      payload does not fit the log; otherwise one append. */
  ghost predicate WriteOutcome(s: State, ops: seq<(Key, EntryValue)>, admitted: bool, ok: bool, s': State)
  {
    if !admitted || s.nextSequence == U64_MAX then !ok && s' == s
    else if forall i :: 0 <= i < |ops| ==> FitsLog(ops[i]) then ok && WriteStep(s, ops, s')
    else !ok && RejectStep(s, s')
  }

  lemma GroupIsNumbered(ops: seq<(Key, EntryValue)>, first: nat)
    requires first + |ops| <= U64_LIMIT
    ensures Standalone(WalFile.GroupFrames(KindsOf(ops), first))
    ensures OpsOf(WalFile.GroupFrames(KindsOf(ops), first)) == Numbered(ops, first)
    ensures (forall i :: 0 <= i < |ops| ==> WalFile.Appendable(WalFile.GroupFrames(KindsOf(ops), first)[i])) <==>
              forall i :: 0 <= i < |ops| ==> FitsLog(ops[i])
  {
    var fs := WalFile.GroupFrames(KindsOf(ops), first);
    forall i | 0 <= i < |ops|
      ensures fs[i] == WalCodec.WalFrame(first + i, WalCodec.STANDALONE, KindOf(ops[i]))
      ensures WalFile.Appendable(fs[i]) <==> FitsLog(ops[i])
    {
      assert (first + i) % U64_LIMIT == first + i;
      WalCodec.EncodableOperation(first + i, KindOf(ops[i]));
    }
  }

  lemma {:induction false} PushAllProper(t: Table, h: History)
    requires Proper(t) && forall i :: 0 <= i < |h| ==> h[i].sequence <= LATEST
    ensures Proper(PushAll(t, h))
    decreases |h|
  {
    if h != [] {
      PushProper(t, h[0].key, VersionedEntry(h[0].sequence, h[0].value));
      PushAllProper(Push(t, h[0].key, VersionedEntry(h[0].sequence, h[0].value)), h[1..]);
    }
  }

  lemma NumberedBelow(ops: seq<(Key, EntryValue)>, first: nat)
    requires first + |ops| <= U64_LIMIT
    ensures forall i :: 0 <= i < |ops| ==> Numbered(ops, first)[i].sequence <= LATEST
  {
  }

  /** Inserts the operations of one append one after the other. */
  method InsertVersions(t: Table, ops: seq<(Key, EntryValue)>, first: nat) returns (r: Table)
    ensures r == PushAll(t, Numbered(ops, first))
  {
    ghost var h := Numbered(ops, first);
    hide PushAll;
    PushNone(t, h);
    r := t;
    for i := 0 to |ops|
      invariant r == PushAll(t, h[..i])
    {
      PushOne(t, h, i);
      r := Push(r, ops[i].0, VersionedEntry(first + i, ops[i].1));
    }
    assert h[..|ops|] == h;
  }

  lemma PushNone(t: Table, h: History)
    ensures PushAll(t, h[..0]) == t
  {
  }

  lemma {:induction false} PushOne(t: Table, h: History, i: nat)
    requires i < |h|
    ensures PushAll(t, h[..i + 1]) == Push(PushAll(t, h[..i]), h[i].key, VersionedEntry(h[i].sequence, h[i].value))
    decreases i
  {
    var u := Push(t, h[0].key, VersionedEntry(h[0].sequence, h[0].value));
    assert h[..i + 1][1..] == h[1..][..i];
    if i > 0 {
      PushOne(u, h[1..], i - 1);
      assert h[..i][1..] == h[1..][..i - 1];
    }
  }

  lemma MemoryAfter(active: Table, frozen: seq<Table>, segments: seq<Seg>, h: History)
    requires InMemory(active, frozen, segments) && forall i :: 0 <= i < |h| ==> h[i].sequence <= LATEST
    ensures InMemory(PushAll(active, h), frozen, segments)
  {
    PushAllProper(active, h);
  }

  lemma OutcomeOf(s: State, ops: seq<(Key, EntryValue)>, ok: bool, s': State)
    requires ops != []
    requires ok <==> s.nextSequence < U64_MAX && forall i :: 0 <= i < |ops| ==> FitsLog(ops[i])
    requires s.nextSequence <= U64_MAX
    requires s'.nextSequence == if s.nextSequence == U64_MAX then U64_MAX else s.nextSequence + 1
    requires s' == if ok then AfterWrite(s, ops) else s.(nextSequence := s'.nextSequence)
    ensures WriteOutcome(s, ops, true, ok, s')
  {
    hide FitsLog;
    hide AfterWrite;
  }

  /** One operation is in the log under the next sequence and in front of its key's chain in the active table, and a
      read of the key finds it. Nothing else has changed. */
  ghost predicate WroteOne(s: State, key: Key, value: EntryValue, s': State)
  {
    && s'.disk == s.disk.(wal := s.disk.wal + [Op(s.nextSequence, key, value)]) && s'.nextSequence == s.nextSequence + 1
    && s'.active == s.active[key := [VersionedEntry(s.nextSequence, value)] + if key in s.active then s.active[key] else []]
    && s'.frozen == s.frozen && s'.segments == s.segments && s'.nextSegId == s.nextSegId && s'.job == s.job
    && Machine.Get(s', key) == match value case Value(b) => Some(b) case Tombstone => None
  }

  lemma NothingWritten(s: State, ops: seq<(Key, EntryValue)>)
    ensures WriteOutcome(s, ops, false, false, s)
  {
  }

  lemma OneWritten(s: State, op: (Key, EntryValue), admitted: bool, ok: bool, s': State)
    requires WriteOutcome(s, [op], admitted, ok, s') && s.nextSequence <= U64_MAX
    ensures ok <==> admitted && s.nextSequence < U64_MAX && FitsLog(op)
    ensures ok ==> WroteOne(s, op.0, op.1, s')
    ensures !ok ==> s'.disk == s.disk && s'.active == s.active
    ensures s'.nextSequence == s.nextSequence + if admitted && s.nextSequence < U64_MAX then 1 else 0
  {
    assert [op][0] == op;
    hide FitsLog;
    if ok {
      var frames := Numbered([op], s.nextSequence);
      assert frames == [Op(s.nextSequence, op.0, op.1)] && frames[1..] == [];
      assert PushAll(s.active, frames) == Push(s.active, op.0, VersionedEntry(s.nextSequence, op.1));
      StackIndex(s'.frozen + [s'.active], Tables(s'.segments), 0);
    }
  }

  /** The table has taken the operations one after the other, each in front of its key's chain. */
  ghost predicate TakenInOrder(t: Table, ops: seq<(Key, EntryValue)>, first: nat, t': Table)
  {
    exists tables: seq<Table> :: |tables| == |ops| + 1 && tables[0] == t && tables[|ops|] == t' && EachTaken(tables, ops, first)
  }

  ghost predicate EachTaken(tables: seq<Table>, ops: seq<(Key, EntryValue)>, first: nat)
    requires |tables| == |ops| + 1
  {
    forall i :: 0 <= i < |ops| ==>
      tables[i + 1] == tables[i][ops[i].0 := [VersionedEntry(first + i, ops[i].1)]
                                             + if ops[i].0 in tables[i] then tables[i][ops[i].0] else []]
  }

  lemma {:induction false} PushesTake(t: Table, ops: seq<(Key, EntryValue)>, first: nat, n: nat) returns (tables: seq<Table>)
    requires n <= |ops|
    ensures |tables| == n + 1 && tables[0] == t && tables[n] == PushAll(t, Numbered(ops, first)[..n])
    ensures EachTaken(tables, ops[..n], first)
  {
    var h := Numbered(ops, first);
    if n == 0 {
      tables := [t];
      PushNone(t, h);
    } else {
      var front := PushesTake(t, ops, first, n - 1);
      PushOne(t, h, n - 1);
      hide PushAll;
      tables := front + [PushAll(t, h[..n])];
      forall i | 0 <= i < n - 1
        ensures tables[i + 1] == tables[i][ops[..n][i].0 := [VersionedEntry(first + i, ops[..n][i].1)]
                                                            + if ops[..n][i].0 in tables[i] then tables[i][ops[..n][i].0] else []]
      {
        assert ops[..n][i] == ops[..n - 1][i] && front[i + 1] == tables[i + 1] && front[i] == tables[i];
      }
    }
  }

  /** The operations are in the log in order, under consecutive sequences from the counter on, and the active table has
      taken them in that order; the counter has moved on by one. */
  ghost predicate WroteAll(s: State, ops: seq<(Key, EntryValue)>, s': State)
  {
    && |s'.disk.wal| == |s.disk.wal| + |ops| && s'.disk.wal[..|s.disk.wal|] == s.disk.wal
    && (forall i :: 0 <= i < |ops| ==> s'.disk.wal[|s.disk.wal| + i] == Op(s.nextSequence + i, ops[i].0, ops[i].1))
    && s'.nextSequence == s.nextSequence + 1 && s'.frozen == s.frozen && s'.segments == s.segments
    && TakenInOrder(s.active, ops, s.nextSequence, s'.active)
  }

  lemma AllWritten(s: State, ops: seq<(Key, EntryValue)>, admitted: bool, ok: bool, s': State)
    requires WriteOutcome(s, ops, admitted, ok, s') && s.nextSequence <= U64_MAX
    ensures ok <==> admitted && s.nextSequence < U64_MAX && forall i :: 0 <= i < |ops| ==> FitsLog(ops[i])
    ensures ok ==> WroteAll(s, ops, s')
    ensures !ok ==> s'.disk == s.disk && s'.active == s.active
  {
    hide FitsLog;
    if ok {
      var frames := Numbered(ops, s.nextSequence);
      var tables := PushesTake(s.active, ops, s.nextSequence, |ops|);
      assert frames[..|ops|] == frames && ops[..|ops|] == ops;
      hide PushAll;
      hide EachTaken;
      assert TakenInOrder(s.active, ops, s.nextSequence, s'.active);
    }
  }

  /** The operations of a batch request; anything but PUT and DELETE is refused. */
  predicate ValidBatch(kinds: seq<WalCodec.WalFrameKind>)
  {
    forall i :: 0 <= i < |kinds| ==> kinds[i].IsOperation() && ValidOp(PairOf(kinds[i]))
  }

  function PairOf(kind: WalCodec.WalFrameKind): (Key, EntryValue)
    requires kind.IsOperation()
  {
    match kind
    case Put(key, value) => (key, Value(value))
    case Delete(key) => (key, Tombstone)
  }

  function PairsOf(kinds: seq<WalCodec.WalFrameKind>): (ops: seq<(Key, EntryValue)>)
    requires forall i :: 0 <= i < |kinds| ==> kinds[i].IsOperation()
    ensures |ops| == |kinds|
  {
    seq(|kinds|, i requires 0 <= i < |kinds| => PairOf(kinds[i]))
  }

  // -------------------------------------------------------------------------
  // Reads
  // -------------------------------------------------------------------------

  /** The layers of a reader in the order the loops visit them. */
  lemma VisitingOrder(frozen: seq<Table>, active: Table, segments: seq<Seg>)
    ensures var layers := Stack(frozen + [active], Tables(segments));
            && |layers| == 1 + |frozen| + |segments| && layers[0] == active
            && (forall i :: 0 <= i < |frozen| ==> layers[|frozen| - i] == frozen[i])
            && (forall i :: 0 <= i < |segments| ==> layers[1 + |frozen| + i] == segments[i].table)
  {
    var m, ts := frozen + [active], Tables(segments);
    StackIndex(m, ts, 0);
    forall i | 0 <= i < |frozen|
      ensures Stack(m, ts)[|frozen| - i] == frozen[i]
    {
      StackIndex(m, ts, |frozen| - i);
    }
    forall i | 0 <= i < |segments|
      ensures Stack(m, ts)[1 + |frozen| + i] == segments[i].table
    {
      StackIndex(m, ts, 1 + |frozen| + i);
    }
  }

  lemma ReadOn(layers: LayerList, k: Key, s: nat, j: nat)
    requires j < |layers|
    ensures ReadCurrent(layers[j..], k) == if Front(layers[j], k).Some? then Front(layers[j], k) else ReadCurrent(layers[j + 1..], k)
    ensures ReadAt(layers[j..], k, s) == if Visible(layers[j], k, s).Some? then Visible(layers[j], k, s) else ReadAt(layers[j + 1..], k, s)
  {
    assert layers[j..][1..] == layers[j + 1..];
  }

  lemma ReadNothing(layers: LayerList, k: Key, s: nat)
    requires layers == []
    ensures ReadCurrent(layers, k).None? && ReadAt(layers, k, s).None?
  {
  }

  /** Active table, frozen tables newest first, segments newest first: the first that holds the key decides. */
  method FindCurrent(active: Table, frozen: seq<Table>, segments: seq<Seg>, key: Key) returns (r: Option<VersionedEntry>)
    ensures r == ReadCurrent(Stack(frozen + [active], Tables(segments)), key)
  {
    hide ReadCurrent;
    hide Stack;
    ghost var layers: LayerList := Stack(frozen + [active], Tables(segments));
    VisitingOrder(frozen, active, segments);
    assert layers[0..] == layers;
    ReadOn(layers, key, 0, 0);
    r := Front(active, key);
    if r.Some? {
      return;
    }
    var i := |frozen|;
    while i > 0
      invariant 0 <= i <= |frozen| && ReadCurrent(layers, key) == ReadCurrent(layers[1 + |frozen| - i..], key)
    {
      i := i - 1;
      ReadOn(layers, key, 0, |frozen| - i);
      r := Front(frozen[i], key);
      if r.Some? {
        return;
      }
    }
    for j := 0 to |segments|
      invariant ReadCurrent(layers, key) == ReadCurrent(layers[1 + |frozen| + j..], key)
    {
      ReadOn(layers, key, 0, 1 + |frozen| + j);
      r := Front(segments[j].table, key);
      if r.Some? {
        return;
      }
    }
    ReadNothing(layers[1 + |frozen| + |segments|..], key, 0);
    r := None;
  }

  /** The same walk, looking for a version at or below `s`. */
  method FindAt(active: Table, frozen: seq<Table>, segments: seq<Seg>, key: Key, s: nat) returns (r: Option<VersionedEntry>)
    ensures r == ReadAt(Stack(frozen + [active], Tables(segments)), key, s)
  {
    hide ReadAt;
    hide Stack;
    ghost var layers: LayerList := Stack(frozen + [active], Tables(segments));
    VisitingOrder(frozen, active, segments);
    assert layers[0..] == layers;
    ReadOn(layers, key, s, 0);
    r := VisibleIn(active, key, s);
    if r.Some? {
      return;
    }
    var i := |frozen|;
    while i > 0
      invariant 0 <= i <= |frozen| && ReadAt(layers, key, s) == ReadAt(layers[1 + |frozen| - i..], key, s)
    {
      i := i - 1;
      ReadOn(layers, key, s, |frozen| - i);
      r := VisibleIn(frozen[i], key, s);
      if r.Some? {
        return;
      }
    }
    for j := 0 to |segments|
      invariant ReadAt(layers, key, s) == ReadAt(layers[1 + |frozen| + j..], key, s)
    {
      ReadOn(layers, key, s, 1 + |frozen| + j);
      r := VisibleIn(segments[j].table, key, s);
      if r.Some? {
        return;
      }
    }
    ReadNothing(layers[1 + |frozen| + |segments|..], key, s);
    r := None;
  }

  /** One layer of a scan, taken from a list that stands for it. */
  method GatherLayer(seen0: set<Key>, found0: seq<Pair<Bytes>>, xs: seq<MemTables.Version>, s: nat, ghost layers: LayerList,
                     ghost j: nat, ghost r: Range)
    returns (seen: set<Key>, found: seq<Pair<Bytes>>)
    requires j < |layers| && Gathered(seen0, found0, layers[..j], r, s)
    requires SameVisible(Group(xs), layers[j], r, s) && forall x :: x in xs ==> Within(x.0, r)
    ensures Gathered(seen, found, layers[..j + 1], r, s)
  {
    hide Gathered;
    hide SameVisible;
    seen, found := Gather(seen0, found0, xs, s, layers[..j], r);
    GatheredSame(seen, found, layers[..j], Group(xs), layers[j], r, s);
    assert layers[..j] + [layers[j]] == layers[..j + 1];
  }

  /** Active table, frozen tables newest first, segments newest first, then sorted by key. */
  method ScanLayers(active: Table, frozen: seq<Table>, segments: seq<Seg>, r: Range, s: nat) returns (out: seq<Pair<Bytes>>)
    ensures IsScan(out, Stack(frozen + [active], Tables(segments)), r, s)
  {
    hide Stack;
    hide Gathered;
    hide SameVisible;
    hide IsScan;
    hide Between;
    hide InRange;
    ghost var layers: LayerList := Stack(frozen + [active], Tables(segments));
    VisitingOrder(frozen, active, segments);
    StartsEmpty(r, s);
    assert layers[..0] == [];
    var xs := VisibleEntries(active, r.0, r.1, s);
    VisibleListSame(xs, active, r, s);
    var seen, found := GatherLayer({}, [], xs, s, layers, 0, r);
    var i := |frozen|;
    while i > 0
      invariant 0 <= i <= |frozen| && Gathered(seen, found, layers[..1 + |frozen| - i], r, s)
    {
      i := i - 1;
      xs := VisibleEntries(frozen[i], r.0, r.1, s);
      VisibleListSame(xs, frozen[i], r, s);
      seen, found := GatherLayer(seen, found, xs, s, layers, |frozen| - i, r);
    }
    for j := 0 to |segments|
      invariant Gathered(seen, found, layers[..1 + |frozen| + j], r, s)
    {
      xs := SegmentEntries(segments[j].table, r);
      SameAt(Group(xs), segments[j].table, r, s);
      seen, found := GatherLayer(seen, found, xs, s, layers, 1 + |frozen| + j, r);
    }
    assert layers[..|layers|] == layers;
    out := Finish(seen, found, s, layers, r);
  }

  lemma SameAt(t: Table, u: Table, r: Range, s: nat)
    requires SameVisibleAlways(t, u, r)
    ensures SameVisible(t, u, r, s)
  {
  }

  /** `m` is the greatest sequence in front of a chain in memory or declared by a segment, 0 if there is none. */
  ghost predicate GreatestVisible(active: Table, frozen: seq<Table>, segments: seq<Seg>, m: nat)
  {
    && (forall k :: k in active && active[k] != [] ==> active[k][0].sequence <= m)
    && (forall i: int, k: Key :: 0 <= i < |frozen| && k in frozen[i] && frozen[i][k] != [] ==> frozen[i][k][0].sequence <= m)
    && (forall i :: 0 <= i < |segments| ==> segments[i].maxSeq <= m)
    && (|| m == 0 || (exists k :: k in active && active[k] != [] && active[k][0].sequence == m)
        || (exists i: int, k: Key :: 0 <= i < |frozen| && k in frozen[i] && frozen[i][k] != [] && frozen[i][k][0].sequence == m)
        || exists i :: 0 <= i < |segments| && segments[i].maxSeq == m)
  }

  lemma {:induction false} MaxFrontIs(tables: seq<Table>)
    ensures forall i :: 0 <= i < |tables| ==> FrontMax(tables[i]) <= MaxFront(tables)
    ensures MaxFront(tables) == 0 || exists i :: 0 <= i < |tables| && FrontMax(tables[i]) == MaxFront(tables)
  {
    hide FrontMax;
    if tables != [] {
      var n := |tables| - 1;
      MaxFrontIs(tables[..n]);
      if MaxFront(tables) != FrontMax(tables[n]) && MaxFront(tables) != 0 {
        var i :| 0 <= i < n && FrontMax(tables[..n][i]) == MaxFront(tables);
        assert FrontMax(tables[i]) == MaxFront(tables);
      }
    }
  }

  lemma VisibleIsGreatest(active: Table, frozen: seq<Table>, segments: seq<Seg>)
    ensures GreatestVisible(active, frozen, segments, MaxOfBoth(MaxFront(frozen + [active]), Boundary(segments)))
  {
    var tables: seq<Table> := frozen + [active];
    var a, b := MaxFront(tables), Boundary(segments);
    MaxFrontIs(tables);
    BoundaryAbove(segments);
    BoundaryAttained(segments);
    hide MaxFront;
    hide Boundary;
    hide FrontMax;
    assert tables[|frozen|] == active;
    assert forall i :: 0 <= i < |frozen| ==> tables[i] == frozen[i];
    assert FrontMax(active) <= a;
    if a != 0 {
      var i :| 0 <= i < |tables| && FrontMax(tables[i]) == a;
      assert exists k: Key :: k in tables[i] && tables[i][k] != [] && tables[i][k][0].sequence == a;
    }
  }

  /** The highest sequence that readers can see. */
  method VisibleMaximum(active: Table, frozen: seq<Table>, segments: seq<Seg>) returns (m: nat)
    requires InMemory(active, frozen, segments)
    ensures m == MaxOfBoth(MaxFront(frozen + [active]), Boundary(segments)) && GreatestVisible(active, frozen, segments, m)
  {
    hide FrontMax;
    ProperMax(active);
    var first := MaxSequenceOf(active);
    m := if first.Some? then first.value else 0;
    assert frozen[..0] == [];
    for i := 0 to |frozen|
      invariant m == MaxOfBoth(MaxFront(frozen[..i]), FrontMax(active))
    {
      assert frozen[..i + 1][..i] == frozen[..i];
      ProperMax(frozen[i]);
      var next := MaxSequenceOf(frozen[i]);
      if next.Some? && next.value > m {
        m := next.value;
      }
    }
    assert frozen[..|frozen|] == frozen && (frozen + [active])[..|frozen|] == frozen;
    assert segments[..0] == [];
    for i := 0 to |segments|
      invariant m == MaxOfBoth(MaxFront(frozen + [active]), Boundary(segments[..i]))
    {
      assert segments[..i + 1][..i] == segments[..i];
      if segments[i].maxSeq > m {
        m := segments[i].maxSeq;
      }
    }
    assert segments[..|segments|] == segments;
    VisibleIsGreatest(active, frozen, segments);
    hide GreatestVisible;
  }

  ghost function MaxOfBoth(a: nat, b: nat): nat
  {
    if a > b then a else b
  }

  // -------------------------------------------------------------------------
  // Segments
  // -------------------------------------------------------------------------

  /** Writes a table out under a number and a declared maximum: all its versions, each chain sorted. */
  method WriteSegment(t: Table, id: nat, maxSeq: nat) returns (seg: Seg)
    requires NoEmptyChains(t)
    ensures seg.id == id && seg.maxSeq == maxSeq && SortedVersion(seg.table, t)
  {
    var versions := AllVersions(t);
    seg := Seg(id, Group(versions), maxSeq);
  }

  /** A table from memory is written under its greatest sequence. */
  method WriteTable(t: Table, id: nat) returns (seg: Seg)
    requires Proper(t)
    ensures seg.id == id && seg.maxSeq == FrontMax(t) <= LATEST && SortedVersion(seg.table, t)
  {
    ProperMax(t);
    var m := MaxSequenceOf(t);
    seg := WriteSegment(t, id, if m.Some? then m.value else 0);
  }

  /** One segment for each table, numbered in order. */
  method WriteAll(tables: seq<Table>, first: nat) returns (segs: seq<Seg>)
    requires forall i :: 0 <= i < |tables| ==> Proper(tables[i])
    ensures SegmentsFor(tables, first, segs) && forall i :: 0 <= i < |segs| ==> segs[i].maxSeq <= LATEST
  {
    hide SortedVersion;
    hide FrontMax;
    hide Proper;
    segs := [];
    for i := 0 to |tables|
      invariant |segs| == i
      invariant forall j :: 0 <= j < i ==>
                  && segs[j].id == first + j && segs[j].maxSeq == FrontMax(tables[j]) <= LATEST
                  && SortedVersion(segs[j].table, tables[j])
    {
      var seg := WriteTable(tables[i], first + i);
      segs := segs + [seg];
    }
  }

  /** The highest maximum of the segments written. */
  method BoundaryOf(segs: seq<Seg>) returns (b: nat)
    ensures b == Boundary(segs)
  {
    b := 0;
    assert segs[..0] == [];
    for i := 0 to |segs|
      invariant b == Boundary(segs[..i])
    {
      assert segs[..i + 1][..i] == segs[..i];
      if segs[i].maxSeq > b {
        b := segs[i].maxSeq;
      }
    }
    assert segs[..|segs|] == segs;
  }

  /** Publishes each segment in front of the others. */
  method PushNewest(segs: seq<Seg>, below: seq<Seg>) returns (r: seq<Seg>)
    ensures r == Stack(segs, below)
  {
    hide Stack;
    StackNone(segs, below);
    r := below;
    for i := 0 to |segs|
      invariant r == Stack(segs[..i], below)
    {
      StackOne(segs, below, i);
      r := [segs[i]] + r;
    }
    assert segs[..|segs|] == segs;
  }

  lemma StackNone<T>(a: seq<T>, below: seq<T>)
    ensures Stack(a[..0], below) == below
  {
  }

  lemma StackOne<T>(a: seq<T>, below: seq<T>, i: nat)
    requires i < |a|
    ensures Stack(a[..i + 1], below) == [a[i]] + Stack(a[..i], below)
  {
    StackAppend(a[..i], [a[i]], below);
    assert a[..i] + [a[i]] == a[..i + 1];
    assert [a[i]][1..] == [];
  }

  method AddFiles(files: map<nat, Seg>, segs: seq<Seg>) returns (r: map<nat, Seg>)
    ensures r == files + FilesOf(segs)
  {
    hide FilesOf;
    FilesNone(files, segs);
    r := files;
    for i := 0 to |segs|
      invariant r == files + FilesOf(segs[..i])
    {
      FilesOne(files, segs, i);
      r := r[segs[i].id := segs[i]];
    }
    assert segs[..|segs|] == segs;
  }

  lemma FilesNone(files: map<nat, Seg>, segs: seq<Seg>)
    ensures files + FilesOf(segs[..0]) == files
  {
  }

  lemma FilesOne(files: map<nat, Seg>, segs: seq<Seg>, i: nat)
    requires i < |segs|
    ensures files + FilesOf(segs[..i + 1]) == (files + FilesOf(segs[..i]))[segs[i].id := segs[i]]
  {
    assert segs[..i + 1][..i] == segs[..i];
  }

  lemma MemoryMoved(frozen: seq<Table>, n: nat, active: Table, segs: seq<Seg>, segments: seq<Seg>)
    requires InMemory(active, frozen, segments) && n <= |frozen|
    requires forall i :: 0 <= i < |segs| ==> segs[i].maxSeq <= LATEST && segs[i].id < U64_LIMIT
    ensures InMemory(active, frozen[n..], Stack(segs, segments))
  {
    hide Proper;
    forall i | 0 <= i < |Stack(segs, segments)|
      ensures Stack(segs, segments)[i].maxSeq <= LATEST && Stack(segs, segments)[i].id < U64_LIMIT
    {
      StackIndex(segs, segments, i);
    }
  }

  lemma FirstProper(active: Table, frozen: seq<Table>, segments: seq<Seg>)
    requires InMemory(active, frozen, segments) && frozen != []
    ensures Proper(frozen[0])
  {
  }

  lemma MemoryFlushed(active: Table, frozen: seq<Table>, seg: Seg, segments: seq<Seg>)
    requires InMemory(active, frozen, segments) && frozen != [] && seg.maxSeq <= LATEST && seg.id < U64_LIMIT
    ensures InMemory(active, frozen[1..], [seg] + segments)
  {
    hide Proper;
  }

  /** The state after a flush. */
  function Flushed(s: State, seg: Seg): State
    requires s.frozen != []
  {
    s.(disk := s.disk.(manifest := s.disk.manifest + [AddSegment(seg.id, seg.maxSeq)], synced := |s.disk.manifest| + 1,
                       files := s.disk.files[seg.id := seg]),
       frozen := s.frozen[1..], nextSegId := s.nextSegId + 1, segments := [seg] + s.segments)
  }

  lemma FlushPath(s: State, seg: Seg)
    requires s.job == Idle && s.frozen != [] && seg.id == s.nextSegId
    requires seg.maxSeq == FrontMax(s.frozen[0]) && SortedVersion(seg.table, s.frozen[0])
    ensures Path(s, MoveEvents(1, false), Flushed(s, seg))
  {
    hide FrontMax;
    hide SortedVersion;
    hide SegmentsFor;
    hide FilesOf;
    hide Stack;
    hide MoveRecords;
    hide Path;
    OneMoved(seg, s.segments, s.disk.files, s.frozen[0]);
    assert s.frozen[..1] == [s.frozen[0]];
    MovePath(s, 1, false, [seg]);
  }

  lemma BoundaryFits(segs: seq<Seg>)
    requires forall i :: 0 <= i < |segs| ==> segs[i].maxSeq <= LATEST
    ensures Boundary(segs) <= LATEST && forall i :: 0 <= i < |segs| ==> segs[i].maxSeq <= Boundary(segs)
  {
    BoundaryBound(segs, LATEST);
    BoundaryAbove(segs);
  }

  /** The manifest records of a checkpoint. */
  function CheckpointRecords(segs: seq<Seg>): Machine.Manifest
  {
    AddRecords(segs) + [SetWalCheckpoint(Boundary(segs))]
  }

  lemma CheckpointFits(utf8: ManifestFile.Charset, dir: Bytes, segs: seq<Seg>)
    requires NamesFit(utf8, dir)
    requires forall i :: 0 <= i < |segs| ==> segs[i].id < U64_LIMIT && segs[i].maxSeq <= LATEST
    ensures ManifestFile.AllEncodable(utf8, ManifestFile.AddEntries(Adds(dir, segs)))
    ensures ManifestFile.Encodable(utf8, ManifestFile.Checkpoint(Boundary(segs)))
    ensures EntriesOf(dir, CheckpointRecords(segs)) ==
            ManifestFile.AddEntries(Adds(dir, segs)) + [ManifestFile.Checkpoint(Boundary(segs))]
  {
    hide Boundary;
    hide NamesFit;
    BoundaryFits(segs);
    AddsFit(utf8, dir, segs);
    AddsEntries(dir, segs);
    EntriesAppend(dir, AddRecords(segs), [SetWalCheckpoint(Boundary(segs))]);
    OneEntry(dir, SetWalCheckpoint(Boundary(segs)));
  }

  lemma AddsFit(utf8: ManifestFile.Charset, dir: Bytes, segs: seq<Seg>)
    requires NamesFit(utf8, dir)
    requires forall i :: 0 <= i < |segs| ==> segs[i].id < U64_LIMIT && segs[i].maxSeq <= LATEST
    ensures ManifestFile.AllEncodable(utf8, ManifestFile.AddEntries(Adds(dir, segs)))
  {
    hide SegmentPath;
    var es := ManifestFile.AddEntries(Adds(dir, segs));
    forall i | 0 <= i < |es|
      ensures ManifestFile.Encodable(utf8, es[i])
    {
      RecordFits(utf8, dir, AddSegment(segs[i].id, segs[i].maxSeq));
    }
  }

  lemma SegmentsFit(tables: seq<Table>, first: nat, segs: seq<Seg>)
    requires SegmentsFor(tables, first, segs) && first + |tables| <= U64_LIMIT
    ensures |segs| == |tables| && forall i :: 0 <= i < |segs| ==> segs[i].id < U64_LIMIT
  {
  }

  /** The state after a checkpoint. */
  lemma CheckpointedIs(s: State, segs: seq<Seg>)
    ensures CheckpointEnd(s, segs) ==
            s.(disk := Disk(KeepAbove(s.disk.wal, Boundary(segs)), s.disk.manifest + CheckpointRecords(segs),
                            |s.disk.manifest + CheckpointRecords(segs)|, s.disk.files + FilesOf(segs)),
               active := map[], frozen := [], nextSegId := s.nextSegId + |segs|, segments := Stack(segs, s.segments), job := Idle)
  {
    hide Boundary;
    hide FilesOf;
    hide Stack;
    hide KeepAbove;
    var all := s.frozen + [s.active];
    assert all[|all|..] == [];
  }

  lemma MemoryCheckpointed(segs: seq<Seg>, active: Table, frozen: seq<Table>, segments: seq<Seg>)
    requires InMemory(active, frozen, segments)
    requires forall i :: 0 <= i < |segs| ==> segs[i].maxSeq <= LATEST && segs[i].id < U64_LIMIT
    ensures InMemory(map[], [], Stack(segs, segments))
  {
    MemoryMoved([], 0, map[], segs, segments);
  }

  lemma AllProper(active: Table, frozen: seq<Table>, segments: seq<Seg>)
    requires InMemory(active, frozen, segments)
    ensures forall i :: 0 <= i < |frozen + [active]| ==> Proper((frozen + [active])[i])
  {
  }

  lemma OneMoved(seg: Seg, segments: seq<Seg>, files: map<nat, Seg>, t: Table)
    ensures Stack([seg], segments) == [seg] + segments
    ensures files + FilesOf([seg]) == files[seg.id := seg]
    ensures MoveRecords(Moving([t], [seg], false, Written)) == [AddSegment(seg.id, seg.maxSeq)]
    ensures seg.maxSeq == FrontMax(t) && SortedVersion(seg.table, t) ==> SegmentsFor([t], seg.id, [seg])
  {
    assert [seg][1..] == [] && [seg][..0] == [];
    assert FilesOf([seg]) == map[seg.id := seg];
  }

  lemma RecordFits(utf8: ManifestFile.Charset, dir: Bytes, r: ManifestRecord)
    requires NamesFit(utf8, dir) && (r.SetWalCheckpoint? || r.id < U64_LIMIT) && RecordSequence(r) <= LATEST
    ensures ManifestFile.Encodable(utf8, EntryOf(dir, r))
  {
  }

  // -------------------------------------------------------------------------
  // Merging
  // -------------------------------------------------------------------------

  /** The versions of every key in all tables, newest first, one per sequence. */
  method MergeTables(ts: seq<Table>) returns (merged: Table)
    ensures NoEmptyChains(merged) && forall k :: ChainOf(merged, k) == FullChain(ts, k)
  {
    hide InsertAll;
    hide FullChain;
    merged := map[];
    FullNothing(ts);
    for i := 0 to |ts|
      invariant NoEmptyChains(merged) && forall k :: ChainOf(merged, k) == FullChain(ts[..i], k)
    {
      FullOneMore(ts, i);
      merged := MergeTable(merged, ts[i]);
    }
    assert ts[..|ts|] == ts;
  }

  lemma FullNothing(ts: LayerList)
    ensures forall k :: FullChain(ts[..0], k) == []
  {
  }

  lemma FullOneMore(ts: LayerList, i: nat)
    requires i < |ts|
    ensures forall k :: FullChain(ts[..i + 1], k) == InsertAll(FullChain(ts[..i], k), ChainOf(ts[i], k))
  {
    assert ts[..i + 1][..i] == ts[..i];
  }

  /** Adds the versions of one table, key by key. */
  method MergeTable(merged0: Table, t: Table) returns (merged: Table)
    requires NoEmptyChains(merged0)
    ensures NoEmptyChains(merged) && forall k :: ChainOf(merged, k) == InsertAll(ChainOf(merged0, k), ChainOf(t, k))
  {
    hide InsertAll;
    merged := merged0;
    var keys := t.Keys;
    InsertNothing(merged0);
    while keys != {}
      invariant keys <= t.Keys && NoEmptyChains(merged)
      invariant forall k :: ChainOf(merged, k) ==
                  if k in keys then ChainOf(merged0, k) else InsertAll(ChainOf(merged0, k), ChainOf(t, k))
      decreases |keys|
    {
      var key :| key in keys;
      keys := keys - {key};
      var chain := MergeChain(ChainOf(merged, key), t[key]);
      if chain != [] {
        merged := merged[key := chain];
      } else {
        merged := merged - {key};
      }
    }
  }

  lemma InsertNothing(t: Table)
    ensures forall k :: InsertAll(ChainOf(t, k), []) == ChainOf(t, k)
  {
  }

  /** Inserts versions one by one; a sequence that is there already stays as it is. */
  method MergeChain(c: Chain, vs: Chain) returns (r: Chain)
    ensures r == InsertAll(c, vs)
  {
    r := c;
    assert vs[..0] == [];
    for i := 0 to |vs|
      invariant r == InsertAll(c, vs[..i])
    {
      assert vs[..i + 1][..i] == vs[..i];
      r := Compaction.Insert(r, vs[i]);
    }
    assert vs[..|vs|] == vs;
  }

  /** Every chain of `r` is what the retention rule leaves of the key's full chain. */
  ghost predicate Kept(r: Table, keep: nat, ts: LayerList)
  {
    forall k :: k in r ==> FullChain(ts, k) != [] && r[k] == Retain(FullChain(ts, k), keep) && Descending(r[k]) && r[k] != []
  }

  lemma KeptMore(r: Table, keep: nat, ts: LayerList, key: Key, full: Chain)
    requires Kept(r, keep, ts) && full == FullChain(ts, key) != []
    ensures |Retain(full, keep)| == 1 && Kept(r[key := Retain(full, keep)], keep, ts)
  {
    hide FullChain;
    FullChainDescending(ts, key);
    RetainKeepsOne(full, keep);
    hide Retain;
    OneIsDescending(Retain(full, keep));
  }

  lemma ChainIn(merged: Table, ts: LayerList, key: Key)
    requires NoEmptyChains(merged) && key in merged && forall k :: ChainOf(merged, k) == FullChain(ts, k)
    ensures merged[key] == FullChain(ts, key) != []
  {
    hide FullChain;
    assert ChainOf(merged, key) == FullChain(ts, key);
  }

  /** Cuts every chain by the retention rule and inserts what is left into a fresh table. */
  method RetainAll(merged: Table, keep: nat, ghost ts: seq<Table>) returns (r: Table)
    requires NoEmptyChains(merged) && forall k :: ChainOf(merged, k) == FullChain(ts, k)
    ensures r == Merged(ts, keep) && Strict(r)
  {
    hide FullChain;
    hide Retain;
    hide Merged;
    hide Kept;
    hide ChainOf;
    hide NoEmptyChains;
    hide Strict;
    r := map[];
    var keys := merged.Keys;
    KeptNothing(keep, ts);
    while keys != {}
      invariant keys <= merged.Keys && r.Keys == merged.Keys - keys && Kept(r, keep, ts)
      decreases |keys|
    {
      var key :| key in keys;
      keys := keys - {key};
      ChainIn(merged, ts, key);
      KeptMore(r, keep, ts, key, merged[key]);
      r := InsertKept(r, key, Retain(merged[key], keep));
    }
    KeptIsMerged(r, merged, keep, ts);
  }

  lemma KeptNothing(keep: nat, ts: LayerList)
    ensures Kept(map[], keep, ts)
  {
  }

  lemma KeptIsMerged(r: Table, merged: Table, keep: nat, ts: LayerList)
    requires NoEmptyChains(merged) && forall k :: ChainOf(merged, k) == FullChain(ts, k)
    requires r.Keys == merged.Keys && Kept(r, keep, ts)
    ensures r == Merged(ts, keep) && Strict(r)
  {
    hide FullChain;
    hide Retain;
    forall k
      ensures k in Keys(ts) && FullChain(ts, k) != [] <==> k in merged
    {
      FullKeys(ts, k);
      assert ChainOf(merged, k) == FullChain(ts, k);
    }
  }

  /** Inserts the versions kept of one key; the coded rule keeps one. */
  method InsertKept(t: Table, key: Key, chain: Chain) returns (r: Table)
    requires key !in t && |chain| == 1
    ensures r == t[key := chain]
  {
    r := t;
    for i := 0 to |chain|
      invariant r == if i == 0 then t else t[key := chain]
    {
      r := Push(r, key, chain[i]);
      assert [chain[i]] + [] == chain;
    }
  }

  lemma OneIsDescending(c: Chain)
    requires |c| == 1
    ensures Descending(c)
  {
  }

  lemma {:induction false} FullKeys(ts: LayerList, k: Key)
    ensures FullChain(ts, k) != [] ==> k in Keys(ts)
  {
    if ts != [] {
      var front, last := ts[..|ts| - 1], ts[|ts| - 1];
      FullKeys(front, k);
      if k in Keys(front) {
        var t :| t in front && k in t;
        assert t in ts;
      } else if k !in last {
        assert ChainOf(last, k) == [];
      } else {
        assert last in ts;
      }
    }
  }

  lemma MergeFits(utf8: ManifestFile.Charset, dir: Bytes, merged: Seg, olds: seq<Seg>)
    requires NamesFit(utf8, dir) && merged.id < U64_LIMIT && merged.maxSeq <= LATEST
    requires forall i :: 0 <= i < |olds| ==> olds[i].id < U64_LIMIT
    ensures ManifestFile.AllEncodable(utf8, EntriesOf(dir, MergeRecords(merged, olds)))
  {
    hide SegmentPath;
    hide NamesFit;
    var es := EntriesOf(dir, MergeRecords(merged, olds));
    forall i | 0 <= i < |es|
      ensures ManifestFile.Encodable(utf8, es[i])
    {
      RecordFits(utf8, dir, MergeRecords(merged, olds)[i]);
    }
  }

  lemma MemoryCompacted(active: Table, frozen: seq<Table>, segments: seq<Seg>, merged: Seg)
    requires InMemory(active, frozen, segments) && merged.maxSeq <= LATEST && merged.id < U64_LIMIT
    ensures InMemory(active, frozen, [merged])
  {
  }

  // -------------------------------------------------------------------------
  // Opening
  // -------------------------------------------------------------------------

  /** Files as this store writes them: named after their number. */
  ghost predicate WellNamed(files: map<nat, Seg>)
  {
    forall id :: id in files ==> files[id].id == id < U64_LIMIT && files[id].maxSeq <= LATEST
  }

  ghost predicate Loaded(segs: seq<Seg>, files: map<nat, Seg>)
  {
    DistinctIds(segs) && forall i :: 0 <= i < |segs| ==> segs[i].id in files && files[segs[i].id] == segs[i]
  }

  lemma LoadedMore(segs: seq<Seg>, files: map<nat, Seg>, id: nat)
    requires Loaded(segs, files) && WellNamed(files) && id in files && id !in Ids(segs)
    ensures Loaded(segs + [files[id]], files) && Ids(segs + [files[id]]) == Ids(segs) + {id}
  {
    var seg := files[id];
    assert forall s :: s in segs + [seg] <==> s in segs || s == seg;
    forall i | 0 <= i < |segs|
      ensures segs[i].id != id
    {
      assert segs[i] in segs;
    }
  }

  /** Opens every live segment; a missing file is an error. */
  method LoadSegments(dir: Bytes, live: set<Bytes>, files: map<nat, Seg>, ghost ids: set<nat>) returns (r: Option<seq<Seg>>)
    requires live == PathsOf(dir, ids) && WellNamed(files)
    ensures r.Some? <==> ids <= files.Keys
    ensures r.Some? ==> Loaded(r.value, files) && Ids(r.value) == ids
  {
    hide WellNamed;
    hide Loaded;
    hide SegmentPath;
    hide SegmentNumber;
    hide Ids;
    var segs: seq<Seg> := [];
    var paths := live;
    LoadedNone(files);
    while paths != {}
      invariant Loaded(segs, files) && Ids(segs) <= ids && Ids(segs) <= files.Keys
      invariant paths == PathsOf(dir, ids - Ids(segs))
      decreases |paths|
    {
      var path :| path in paths;
      ghost var left := ids - Ids(segs);
      ghost var id :| id in left && SegmentPath(dir, id) == path;
      NumberOfPath(dir, id);
      var number := SegmentNumber(dir, path);
      if number.None? || number.value !in files {
        return None;
      }
      LoadedMore(segs, files, id);
      OnePathLess(dir, left, id);
      segs := segs + [files[number.value]];
      paths := paths - {path};
      assert ids - Ids(segs) == left - {id};
    }
    NoPathsLeft(dir, ids - Ids(segs));
    return Some(segs);
  }

  lemma LoadedNone(files: map<nat, Seg>)
    ensures Loaded([], files) && Ids([]) == {}
  {
  }

  lemma OnePathLess(dir: Bytes, ids: set<nat>, id: nat)
    requires id in ids
    ensures PathsOf(dir, ids) - {SegmentPath(dir, id)} == PathsOf(dir, ids - {id})
  {
    OneRecord(dir, ids, RemoveSegment(id));
  }

  lemma NoPathsLeft(dir: Bytes, ids: set<nat>)
    requires PathsOf(dir, ids) == {}
    ensures ids == {}
  {
    forall id | id in ids
      ensures false
    {
      PathIn(dir, ids, id);
    }
  }

  function ByMaximum(): Order<Seg>
  {
    (a: Seg, b: Seg) => a.maxSeq >= b.maxSeq
  }

  /** Sorted by maximum, greatest first; equal maxima in either order. */
  lemma SortedMembers(segs: seq<Seg>)
    requires DistinctIds(segs)
    ensures var sorted := Sort(ByMaximum(), segs);
            DistinctIds(sorted) && SortedByMax(sorted) && forall s: Seg :: s in sorted <==> s in segs
  {
    var le, sorted := ByMaximum(), Sort(ByMaximum(), segs);
    var key := (s: Seg) => s.id;
    SortSorts(le, segs);
    SortPermutes(le, segs);
    assert DistinctBy(key, segs);
    SortDistinct(le, key, segs);
    hide Sort;
    forall i, j | 0 <= i < j < |sorted|
      ensures sorted[i].id != sorted[j].id && sorted[i].maxSeq >= sorted[j].maxSeq
    {
      assert key(sorted[i]) != key(sorted[j]);
      assert le(sorted[i], sorted[j]);
    }
    forall s: Seg
      ensures s in sorted <==> s in segs
    {
      assert s in sorted <==> s in multiset(sorted);
      assert s in segs <==> s in multiset(segs);
    }
  }

  lemma SortedSegments(segs: seq<Seg>, files: map<nat, Seg>)
    requires Loaded(segs, files)
    ensures var sorted := Sort(ByMaximum(), segs);
            Loaded(sorted, files) && Ids(sorted) == Ids(segs) && SortedByMax(sorted)
  {
    var sorted := Sort(ByMaximum(), segs);
    SortedMembers(segs);
    hide Sort;
    hide SortedByMax;
    forall i | 0 <= i < |sorted|
      ensures sorted[i].id in files && files[sorted[i].id] == sorted[i]
    {
      assert sorted[i] in segs;
    }
  }

  /** `n` is one more than the highest number in use, or 1. */
  ghost predicate NextAfter(segs: seq<Seg>, n: nat)
  {
    && n > 0 && (forall i :: 0 <= i < |segs| ==> segs[i].id < n)
    && (n == 1 || exists i :: 0 <= i < |segs| && segs[i].id == n - 1)
  }

  method NextNumber(segs: seq<Seg>) returns (n: nat)
    ensures NextAfter(segs, n) && forall id :: id in Ids(segs) ==> id < n
  {
    n := 0;
    for i := 0 to |segs|
      invariant forall j :: 0 <= j < i ==> segs[j].id <= n
      invariant n == 0 || exists j :: 0 <= j < i && segs[j].id == n
    {
      if segs[i].id > n {
        n := segs[i].id;
      }
    }
    n := n + 1;
  }

  /** Recovery: the replayed operations into a fresh table. A decoded frame is within the table's limits. */
  method ReplayIntoTable(frames: WalLog.Frames) returns (t: Table)
    requires Standalone(frames)
    ensures t == TableOf(OpsOf(frames))
  {
    hide TableOf;
    t := map[];
    ghost var h := OpsOf(frames);
    TableOfNone(h);
    for i := 0 to |frames|
      invariant t == TableOf(h[..i])
    {
      TableOfOne(h, i);
      var o := OpOf(frames[i]);
      t := Push(t, o.key, VersionedEntry(o.sequence, o.value));
    }
    assert h[..|frames|] == h;
  }

  lemma TableOfNone(h: History)
    ensures TableOf(h[..0]) == map[]
  {
  }

  lemma TableOfOne(h: History, i: nat)
    requires i < |h|
    ensures TableOf(h[..i + 1]) == Push(TableOf(h[..i]), h[i].key, VersionedEntry(h[i].sequence, h[i].value))
  {
    assert h[..i + 1][..i] == h[..i];
  }

  lemma {:induction false} TableOfProper(h: History)
    requires forall i :: 0 <= i < |h| ==> h[i].sequence <= LATEST
    ensures Proper(TableOf(h))
  {
    if h != [] {
      TableOfProper(h[..|h| - 1]);
      PushProper(TableOf(h[..|h| - 1]), h[|h| - 1].key, VersionedEntry(h[|h| - 1].sequence, h[|h| - 1].value));
    }
  }

  lemma {:induction false} FlushedFits(dir: Bytes, m: Machine.Manifest)
    requires forall i :: 0 <= i < |m| ==> ManifestFile.SequenceFits(EntriesOf(dir, m)[i])
    ensures MaxFlushed(m) <= LATEST
  {
    forall i | 0 <= i < |m|
      ensures RecordSequence(m[i]) <= LATEST
    {
      assert ManifestFile.SequenceFits(EntriesOf(dir, m)[i]);
    }
    MaxFlushedBound(m, LATEST);
  }

  /** A flushed maximum that a manifest reports is a sequence of 64 bits. */
  lemma FlushedIsLow(dir: Bytes, records: Machine.Manifest, manifest: ManifestFile.Manifest)
    requires manifest.Valid() && manifest.Entries() == EntriesOf(dir, records)
    ensures manifest.maxFlushed <= LATEST
  {
    hide ManifestFile.EntryDecoder;
    hide MaxFlushed;
    hide LiveIds;
    ManifestFile.EntriesFit(manifest.crc, manifest.utf8, manifest.file);
    FlushedFits(dir, records);
    ReplayRecords(dir, records);
  }

  // -------------------------------------------------------------------------
  // The store
  // -------------------------------------------------------------------------

  class ToroidalStore {
    const dir: Bytes
    const wal: WalFile.Wal
    const manifest: ManifestFile.Manifest
    const snapshots: SnapshotManager
    /** Segment files by number; number `n` stands at `SegmentPath(dir, n)`. */
    var files: map<nat, Seg>
    var active: Table
    /** Oldest first. */
    var frozen: seq<Table>
    /** Newest first. */
    var segments: seq<Seg>
    var nextSegId: nat
    var closed: bool
    /** The manifest records behind the manifest's entries. */
    ghost var records: Machine.Manifest

    /** The disk side is in order. */
    ghost predicate DiskValid()
      reads this, wal, manifest, snapshots
    {
      && wal.Valid() && wal.Clean() && Standalone(wal.Frames())
      && manifest.Valid() && manifest.Entries() == EntriesOf(dir, records)
      && snapshots.Valid()
      && NamesFit(manifest.utf8, dir)
    }

    ghost predicate Valid()
      reads this, wal, manifest, snapshots
    {
      DiskValid() && InMemory(active, frozen, segments)
    }

    /** The machine state that the store is in between operations. */
    ghost function View(): State
      reads this, wal
      requires Standalone(wal.Frames())
    {
      State(Disk(OpsOf(wal.Frames()), records, |records|, files), wal.nextSequence, active, frozen, segments, nextSegId, Idle)
    }

    constructor (dir: Bytes, wal: WalFile.Wal, manifest: ManifestFile.Manifest, files: map<nat, Seg>, active: Table,
                 segments: seq<Seg>, nextSegId: nat, ghost records: Machine.Manifest)
      requires wal.Valid() && wal.Clean() && Standalone(wal.Frames())
      requires manifest.Valid() && manifest.Entries() == EntriesOf(dir, records) && NamesFit(manifest.utf8, dir)
      requires InMemory(active, [], segments)
      ensures Valid() && fresh(snapshots) && !closed
      ensures this.dir == dir && this.wal == wal && this.manifest == manifest
      ensures View() == State(Disk(OpsOf(wal.Frames()), records, |records|, files), wal.nextSequence, active, [], segments, nextSegId, Idle)
    {
      this.dir := dir;
      this.wal := wal;
      this.manifest := manifest;
      this.snapshots := new SnapshotManager();
      this.files := files;
      this.active := active;
      this.frozen := [];
      this.segments := segments;
      this.nextSegId := nextSegId;
      this.closed := false;
      this.records := records;
    }

    method Close()
      requires Valid()
      modifies this`closed
      ensures Valid() && closed && View() == old(View())
    {
      closed := true;
    }

    /** One append, then the versions into the active table, in order. */
    method Append(ops: seq<(Key, EntryValue)>) returns (ok: bool)
      requires Valid() && ops != [] && wal.nextSequence + |ops| <= U64_LIMIT
      modifies this`active, wal
      ensures Valid() && WriteOutcome(old(View()), ops, true, ok, View())
    {
      hide Proper;
      hide InMemory;
      hide FitsLog;
      hide NamesFit;
      hide WriteOutcome;
      hide ManifestFile.ReplayEntries;
      hide Counts;
      hide WalFile.LegalBatch;
      hide PushAll;
      hide Numbered;
      hide KindsOf;
      hide WalFile.GroupFrames;
      hide WalFile.Appendable;
      hide Standalone;
      hide OpsOf;
      hide EntriesOf;
      hide ManifestFile.EntryDecoder;
      hide WalCodec.FrameDecoder;
      hide Framing.EncodeAll;
      hide Framing.Records;
      hide Framing.ValidLength;
      ghost var s, first, before := View(), wal.nextSequence, wal.Frames();
      ghost var frames := WalFile.GroupFrames(KindsOf(ops), first);
      GroupIsNumbered(ops, first);
      NumberedBelow(ops, first);
      var r := wal.AppendManyStandaloneSync(KindsOf(ops));
      ok := r.Ok?;
      if ok {
        OpsAppend(before, frames);
        MemoryAfter(active, frozen, segments, Numbered(ops, first));
        active := InsertVersions(active, ops, r.value);
      }
      OutcomeOf(s, ops, ok, View());
    }

    method Put(key: Key, value: Bytes) returns (ok: bool)
      requires Valid()
      modifies this`active, wal
      ensures Valid() && WriteOutcome(old(View()), [(key, Value(value))], ValidPut(key, value) && !closed, ok, View())
      ensures ok <==> && !closed && |key| <= 0x100_0000 && |value| <= 0x100_0000 && 8 + |key| + |value| <= 0x100_0000
                      && old(wal.nextSequence) < 0xFFFF_FFFF_FFFF_FFFF
      ensures wal.nextSequence == old(wal.nextSequence) +
                if && !closed && |key| <= 0x100_0000 && |value| <= 0x100_0000
                   && old(wal.nextSequence) < 0xFFFF_FFFF_FFFF_FFFF then 1 else 0
      ensures ok ==> WroteOne(old(View()), key, Value(value), View())
      ensures !ok ==> OpsOf(wal.Frames()) == old(OpsOf(wal.Frames())) && active == old(active)
    {
      hide WriteOutcome;
      hide WroteOne;
      hide InMemory;
      hide OpsOf;
      hide WalCodec.FrameDecoder;
      hide ManifestFile.EntryDecoder;
      ghost var s := View();
      if !ValidPut(key, value) || closed {
        NothingWritten(s, [(key, Value(value))]);
        return false;
      }
      ok := Append([(key, Value(value))]);
      OneWritten(s, (key, Value(value)), true, ok, View());
    }

    method Delete(key: Key) returns (ok: bool)
      requires Valid()
      modifies this`active, wal
      ensures Valid() && WriteOutcome(old(View()), [(key, Tombstone)], ValidDelete(key) && !closed, ok, View())
      ensures ok <==> && !closed && |key| <= 0x100_0000 && 4 + |key| <= 0x100_0000
                      && old(wal.nextSequence) < 0xFFFF_FFFF_FFFF_FFFF
      ensures wal.nextSequence == old(wal.nextSequence) +
                if !closed && |key| <= 0x100_0000 && old(wal.nextSequence) < 0xFFFF_FFFF_FFFF_FFFF then 1 else 0
      ensures ok ==> WroteOne(old(View()), key, Tombstone, View())
      ensures !ok ==> OpsOf(wal.Frames()) == old(OpsOf(wal.Frames())) && active == old(active)
    {
      hide WriteOutcome;
      hide WroteOne;
      hide InMemory;
      hide OpsOf;
      hide WalCodec.FrameDecoder;
      hide ManifestFile.EntryDecoder;
      ghost var s := View();
      if !ValidDelete(key) || closed {
        NothingWritten(s, [(key, Tombstone)]);
        return false;
      }
      ok := Append([(key, Tombstone)]);
      OneWritten(s, (key, Tombstone), true, ok, View());
    }

    /** A batch is one append; an empty one succeeds without doing anything. */
    method Batch(kinds: seq<WalCodec.WalFrameKind>) returns (ok: bool)
      requires Valid() && wal.nextSequence + |kinds| <= U64_LIMIT
      modifies this`active, wal
      ensures Valid()
      ensures kinds == [] ==> ok && View() == old(View())
      ensures kinds != [] && ValidBatch(kinds) ==> WriteOutcome(old(View()), PairsOf(kinds), !closed, ok, View())
      ensures kinds != [] && ok ==> ValidBatch(kinds) && WroteAll(old(View()), PairsOf(kinds), View())
      ensures !ok ==> OpsOf(wal.Frames()) == old(OpsOf(wal.Frames())) && active == old(active)
      ensures !ValidBatch(kinds) ==> !ok && View() == old(View())
    {
      hide WriteOutcome;
      hide WroteAll;
      hide InMemory;
      hide OpsOf;
      hide PairsOf;
      hide WalCodec.FrameDecoder;
      hide ManifestFile.EntryDecoder;
      ghost var s := View();
      if kinds == [] {
        return true;
      }
      if !ValidBatch(kinds) || closed {
        if ValidBatch(kinds) {
          NothingWritten(s, PairsOf(kinds));
        }
        return false;
      }
      ok := Append(PairsOf(kinds));
      AllWritten(s, PairsOf(kinds), true, ok, View());
    }

    /** The read without a snapshot. */
    method Get(key: Key) returns (r: Option<Bytes>)
      requires Valid()
      ensures r == Machine.Get(View(), key)
    {
      var entry := FindCurrent(active, frozen, segments, key);
      r := Live(entry);
    }

    method RetentionFloor() returns (floor: nat)
      requires Valid()
      ensures IsOldest(snapshots.live, manifest.maxFlushed, floor)
    {
      var f := snapshots.Floor();
      FlushedIsLow(dir, records, manifest);
      hide ManifestFile.EntryDecoder;
      hide InMemory;
      LowerIsOldest(snapshots.live, manifest.maxFlushed, f);
      floor := Min(manifest.maxFlushed, f);
    }

    /** The snapshot read, refused exactly when the snapshot is below the flushed maximum and every live boundary. */
    method GetAt(snapshot: nat, key: Key) returns (r: Result<Option<Bytes>, StoreError>)
      requires Valid()
      ensures r.Err? <==> snapshot < manifest.maxFlushed && forall s: nat :: s in snapshots.live ==> snapshot < s
      ensures r.Err? ==> r.error.SnapshotExpired? && r.error.requested == snapshot
                         && IsOldest(snapshots.live, manifest.maxFlushed, r.error.oldestAvailable)
      ensures r.Ok? ==> r.value == Machine.GetAt(View(), snapshot, key)
    {
      var floor := RetentionFloor();
      BelowOldest(snapshots.live, manifest.maxFlushed, floor, snapshot);
      if snapshot < floor {
        return Err(SnapshotExpired(snapshot, floor));
      }
      var entry := FindAt(active, frozen, segments, key, snapshot);
      return Ok(Live(entry));
    }

    /** The range scan at a snapshot, refused as the read is. */
    method ScanAt(snapshot: nat, start: Option<Key>, end: Option<Key>) returns (r: Result<seq<Pair<Bytes>>, StoreError>)
      requires Valid()
      ensures r.Err? <==> snapshot < manifest.maxFlushed && forall s: nat :: s in snapshots.live ==> snapshot < s
      ensures r.Err? ==> r.error.SnapshotExpired? && r.error.requested == snapshot
                         && IsOldest(snapshots.live, manifest.maxFlushed, r.error.oldestAvailable)
      ensures r.Ok? ==> IsScan(r.value, ReaderLayers(View()), (start, end), snapshot)
    {
      var floor := RetentionFloor();
      BelowOldest(snapshots.live, manifest.maxFlushed, floor, snapshot);
      if snapshot < floor {
        return Err(SnapshotExpired(snapshot, floor));
      }
      var out := ScanLayers(active, frozen, segments, (start, end), snapshot);
      return Ok(out);
    }

    /** A managed snapshot at the highest sequence that readers can see. */
    method Snapshot() returns (h: Handle)
      requires Valid()
      modifies snapshots
      ensures Valid() && View() == old(View())
      ensures h == Handle(SnapshotBoundary(View()), true) && GreatestVisible(active, frozen, segments, h.sequence)
      ensures snapshots.live == old(snapshots.live) + multiset{h.sequence}
    {
      var m := VisibleMaximum(active, frozen, segments);
      h := snapshots.NewManaged(m);
    }

    /** The active table joins the frozen ones and a new one takes its place. */
    method Freeze() returns (t: Table)
      requires Valid()
      modifies this`active, this`frozen
      ensures Valid() && FreezeStep(old(View()), View()) && t == old(active)
      ensures frozen == old(frozen) + [old(active)] && active == map[]
    {
      t := active;
      frozen := frozen + [active];
      active := map[];
    }

    /** Puts the outcome of a background job in place in memory. */
    method Install(files: map<nat, Seg>, nextSegId: nat, active: Table, frozen: seq<Table>, segments: seq<Seg>)
      requires DiskValid() && InMemory(active, frozen, segments)
      modifies this`files, this`nextSegId, this`active, this`frozen, this`segments
      ensures Valid()
      ensures View() == State(Disk(OpsOf(wal.Frames()), records, |records|, files), wal.nextSequence, active, frozen, segments, nextSegId, Idle)
    {
      hide InMemory;
      hide NamesFit;
      hide ManifestFile.ReplayEntries;
      hide ManifestFile.EntryDecoder;
      hide WalCodec.FrameDecoder;
      hide EntriesOf;
      hide OpsOf;
      this.files, this.nextSegId, this.active, this.frozen, this.segments := files, nextSegId, active, frozen, segments;
    }

    /** Appends the ADD record of a segment, synced. */
    method Register(seg: Seg)
      requires Valid() && seg.id < U64_LIMIT && seg.maxSeq <= LATEST
      modifies manifest, this`records
      ensures manifest.Valid() && manifest.Entries() == EntriesOf(dir, records)
      ensures records == old(records) + [AddSegment(seg.id, seg.maxSeq)]
    {
      hide NamesFit;
      hide Proper;
      hide SegmentPath;
      hide ManifestFile.ReplayEntries;
      hide ManifestFile.EntryDecoder;
      hide EntriesOf;
      hide InMemory;
      RecordFits(manifest.utf8, dir, AddSegment(seg.id, seg.maxSeq));
      EntriesAppend(dir, records, [AddSegment(seg.id, seg.maxSeq)]);
      OneEntry(dir, AddSegment(seg.id, seg.maxSeq));
      var ok := manifest.AddSegment(SegmentPath(dir, seg.id), seg.maxSeq);
      records := records + [AddSegment(seg.id, seg.maxSeq)];
    }

    /** Writes out the oldest frozen table and publishes it as the newest segment. */
    method Flush() returns (r: Option<nat>)
      requires Valid() && nextSegId < U64_LIMIT
      modifies this`files, this`active, this`frozen, this`segments, this`nextSegId, this`records, manifest
      ensures Valid()
      ensures old(frozen) == [] ==> r.None? && View() == old(View())
      ensures old(frozen) != [] ==> r == Some(|old(frozen)[0]|) && Path(old(View()), MoveEvents(1, false), View())
      ensures old(frozen) != [] ==> OldestFlushed(old(View()), View())
    {
      hide OldestFlushed;
      hide Proper;
      hide Path;
      hide NamesFit;
      hide SortedVersion;
      hide FrontMax;
      hide ManifestFile.ReplayEntries;
      hide ManifestFile.EntryDecoder;
      hide WalCodec.FrameDecoder;
      hide EntriesOf;
      hide InMemory;
      hide Standalone;
      if frozen == [] {
        return None;
      }
      ghost var s := View();
      FirstProper(active, frozen, segments);
      var table := frozen[0];
      var seg := WriteTable(table, nextSegId);
      MemoryFlushed(active, frozen, seg, segments);
      FlushPath(s, seg);
      Register(seg);
      Install(files[seg.id := seg], nextSegId + 1, active, frozen[1..], [seg] + segments);
      r := Some(|table|);
      FlushEffect(s, View());
    }

    /** Appends the records of a checkpoint and syncs them. */
    method RegisterAll(segs: seq<Seg>, boundary: nat)
      requires Valid() && boundary == Boundary(segs)
      requires forall i :: 0 <= i < |segs| ==> segs[i].id < U64_LIMIT && segs[i].maxSeq <= LATEST
      modifies manifest, this`records
      ensures manifest.Valid() && manifest.Entries() == EntriesOf(dir, records)
      ensures records == old(records) + CheckpointRecords(segs)
    {
      hide NamesFit;
      hide Proper;
      hide SegmentPath;
      hide Boundary;
      hide ManifestFile.ReplayEntries;
      hide ManifestFile.EntryDecoder;
      hide EntriesOf;
      hide InMemory;
      hide CheckpointRecords;
      CheckpointFits(manifest.utf8, dir, segs);
      EntriesAppend(dir, records, CheckpointRecords(segs));
      BoundaryFits(segs);
      var ok := manifest.AppendBatch(Adds(dir, segs), boundary);
      records := records + CheckpointRecords(segs);
    }

    /** Drops the log's frames at or below the boundary. */
    method TruncateLog(boundary: nat)
      requires Valid()
      modifies wal
      ensures wal.Valid() && wal.Clean() && Standalone(wal.Frames()) && wal.nextSequence == old(wal.nextSequence)
      ensures OpsOf(wal.Frames()) == KeepAbove(old(OpsOf(wal.Frames())), boundary)
    {
      KeptOps(wal.Frames(), boundary);
      wal.TruncateKeepAbove(boundary);
    }

    /** Freezes the active table, writes out every frozen table, and drops their operations from the log. */
    method Checkpoint() returns (n: nat)
      requires Valid() && nextSegId + |frozen| + 1 <= U64_LIMIT
      modifies this`files, this`active, this`frozen, this`segments, this`nextSegId, this`records, manifest, wal
      ensures Valid() && n == |old(frozen)| + 1
      ensures frozen == [] && nextSegId == old(nextSegId) + n
      ensures Path(old(View()), CheckpointEvents(n), View()) && Emptied(old(View()), View())
    {
      hide Emptied;
      hide Proper;
      hide Path;
      hide NamesFit;
      hide SegmentsFor;
      hide Boundary;
      hide Stack;
      hide FilesOf;
      hide KeepAbove;
      hide CheckpointRecords;
      hide CheckpointEnd;
      hide ManifestFile.ReplayEntries;
      hide ManifestFile.EntryDecoder;
      hide WalCodec.FrameDecoder;
      hide EntriesOf;
      hide OpsOf;
      hide InMemory;
      hide Standalone;
      hide Counts;
      hide MoveRecords;
      hide Framing.Records;
      hide Framing.ValidLength;
      ghost var s := View();
      var tables := frozen + [active];
      AllProper(active, frozen, segments);
      var segs := WriteAll(tables, nextSegId);
      SegmentsFit(tables, nextSegId, segs);
      var boundary := BoundaryOf(segs);
      CheckpointPath(s, segs);
      CheckpointedIs(s, segs);
      MemoryCheckpointed(segs, active, frozen, segments);
      var files' := AddFiles(files, segs);
      var segments' := PushNewest(segs, segments);
      RegisterAll(segs, boundary);
      TruncateLog(boundary);
      Install(files', nextSegId + |segs|, map[], [], segments');
      n := |tables|;
      CheckpointEffect(s, n, View());
    }

    /** Appends the ADD record of the merged segment and the REMOVE records of the old ones, synced. */
    method RegisterMerge(merged: Seg, olds: seq<Seg>)
      requires Valid() && merged.id < U64_LIMIT && merged.maxSeq <= LATEST
      requires forall i :: 0 <= i < |olds| ==> olds[i].id < U64_LIMIT
      modifies manifest, this`records
      ensures manifest.Valid() && manifest.Entries() == EntriesOf(dir, records)
      ensures records == old(records) + MergeRecords(merged, olds)
    {
      hide NamesFit;
      hide Proper;
      hide SegmentPath;
      hide ManifestFile.ReplayEntries;
      hide ManifestFile.EntryDecoder;
      hide ManifestFile.RemoveEntries;
      hide EntriesOf;
      hide InMemory;
      hide MergeRecords;
      MergeFits(manifest.utf8, dir, merged, olds);
      MergeEntries(dir, merged, olds);
      EntriesAppend(dir, records, MergeRecords(merged, olds));
      var ok := manifest.AppendCompactionBatch(SegmentPath(dir, merged.id), merged.maxSeq, PathList(dir, olds));
      records := records + MergeRecords(merged, olds);
    }

    /** Merges all segments into one under the retention floor. */
    method Compact() returns (n: nat)
      requires Valid() && nextSegId < U64_LIMIT
      modifies this`files, this`active, this`frozen, this`segments, this`nextSegId, this`records, manifest
      ensures Valid() && n == |old(segments)| && frozen == old(frozen) && nextSegId <= old(nextSegId) + 1
      ensures n < 2 ==> View() == old(View())
      ensures n >= 2 ==>
                exists keep :: IsOldest(snapshots.live, old(manifest.maxFlushed), keep)
                  && Path(old(View()), CompactEvents(keep), View())
      ensures n >= 2 ==> AllMerged(old(View()), View())
    {
      hide AllMerged;
      hide Proper;
      hide Path;
      hide NamesFit;
      hide Merged;
      hide MergeRecords;
      hide CompactEvents;
      hide IsOldest;
      hide ManifestFile.ReplayEntries;
      hide ManifestFile.EntryDecoder;
      hide WalCodec.FrameDecoder;
      hide EntriesOf;
      hide OpsOf;
      hide Standalone;
      n := |segments|;
      if n < 2 {
        return;
      }
      ghost var s := View();
      var keep := RetentionFloor();
      var all := MergeTables(Tables(segments));
      var kept := RetainAll(all, keep, Tables(segments));
      var merged := WriteSegment(kept, nextSegId, segments[0].maxSeq);
      SortedVersionOfStrict(merged.table, kept);
      CompactPath(s, keep);
      MemoryCompacted(active, frozen, segments, merged);
      hide InMemory;
      RegisterMerge(merged, segments);
      Install(files[merged.id := merged] - Ids(segments), nextSegId + 1, active, frozen, [merged]);
      CompactEffect(s, keep, View());
    }
  }

  /** The call for a put or a delete. */
  method Apply(store: ToroidalStore, op: (Key, EntryValue)) returns (ok: bool)
    requires store.Valid()
    modifies store`active, store.wal
    ensures store.Valid() && WriteOutcome(old(store.View()), [op], ValidOp(op) && !store.closed, ok, store.View())
  {
    hide WriteOutcome;
    match op.1 {
      case Value(b) => ok := store.Put(op.0, b);
      case Tombstone => ok := store.Delete(op.0);
    }
  }

  // -------------------------------------------------------------------------
  // Opening a store
  // -------------------------------------------------------------------------

  /** The operations of the log's valid prefix. */
  ghost function LogFrames(crc: Checksum, b: Bytes): StoreView.Frames
  {
    Framing.Records(WalCodec.FrameDecoder(crc), b)
  }

  /** The counter after reopening is the one the machine restores. */
  lemma RestoredIs(fs: StoreView.Frames, d: Disk)
    requires Standalone(fs) && d.wal == OpsOf(fs)
    ensures WalFile.Restart(fs[..WalLog.ScanLength(fs)], MaxFlushed(d.manifest) + 1) == RestoredSequence(d)
  {
    AcceptedOps(fs);
    LastOp(fs[..WalLog.ScanLength(fs)]);
  }

  lemma RecoveredFits(crc: Checksum, b: Bytes)
    requires Standalone(LogFrames(crc, b))
    ensures forall i :: 0 <= i < |LogFrames(crc, b)| ==> OpsOf(LogFrames(crc, b))[i].sequence <= LATEST
  {
    WalFile.SequencesFit(crc, b);
  }

  /** The disk that the files stand for. */
  ghost function DiskOf(fs: StoreView.Frames, records: Machine.Manifest, files: map<nat, Seg>): Disk
    requires Standalone(fs)
  {
    Disk(OpsOf(fs), records, |records|, files)
  }

  lemma OpenedIs(d: Disk, fs: StoreView.Frames, s: State)
    requires Standalone(fs) && d.wal == OpsOf(fs) && d.synced == |d.manifest|
    requires Standalone(fs[..WalLog.ScanLength(fs)])
    requires s.disk == Disk(OpsOf(fs[..WalLog.ScanLength(fs)]), d.manifest, d.synced, d.files)
    requires s.nextSequence == WalFile.Restart(fs[..WalLog.ScanLength(fs)], MaxFlushed(d.manifest) + 1)
    requires s.active == TableOf(OpsOf(fs[..WalLog.ScanLength(fs)])) && s.frozen == [] && s.job == Idle
    requires Loaded(s.segments, d.files) && Ids(s.segments) == LiveIds(d.manifest) && SortedByMax(s.segments)
    requires LiveIds(d.manifest) <= d.files.Keys && forall id :: id in LiveIds(d.manifest) ==> id < s.nextSegId
    ensures Opened(d, s)
  {
    AcceptedOps(fs);
    RestoredIs(fs, d);
    hide WalFile.Restart;
    hide RestoredSequence;
    hide TableOf;
    hide LiveIds;
  }

  /** Opens the log and replays it into a table. */
  method OpenLog(crc: Checksum, b: Bytes, floor: nat) returns (wal: WalFile.Wal, t: Option<Table>)
    requires Standalone(LogFrames(crc, b)) && floor <= U64_MAX
    ensures fresh(wal)
    ensures var fs := LogFrames(crc, b);
            var accepted := fs[..WalLog.ScanLength(fs)];
            && Standalone(accepted)
            && (t.None? <==> WalLog.LastOf(accepted) == Some(U64_MAX))
            && (t.Some? ==> wal.Valid() && wal.Clean() && wal.Frames() == accepted
                            && wal.nextSequence == WalFile.Restart(accepted, floor)
                            && t.value == TableOf(OpsOf(accepted)) && Proper(t.value))
  {
    hide WalFile.Restart;
    hide WalLog.ScanLength;
    hide WalLog.ReplayFrom;
    hide WalLog.FramesConsecutive;
    hide WalCodec.FrameDecoder;
    hide TableOf;
    hide Proper;
    hide OpsOf;
    ghost var fs := LogFrames(crc, b);
    AcceptedOps(fs);
    AcceptedFits(crc, b);
    wal := new WalFile.Wal(crc, b);
    var outcome := wal.OpenWithSequence(floor);
    if outcome.Err? {
      return wal, None;
    }
    StandaloneReplays([], wal.Frames());
    assert [] + wal.Frames() == wal.Frames();
    WalFile.CleanReplays(crc, wal.file);
    var replayed := wal.Replay();
    var table := ReplayIntoTable(replayed.value);
    TableOfProper(OpsOf(wal.Frames()));
    t := Some(table);
  }

  lemma AcceptedFits(crc: Checksum, b: Bytes)
    requires Standalone(LogFrames(crc, b))
    requires Standalone(LogFrames(crc, b)[..WalLog.ScanLength(LogFrames(crc, b))])
    ensures var h := OpsOf(LogFrames(crc, b)[..WalLog.ScanLength(LogFrames(crc, b))]);
            forall i :: 0 <= i < |h| ==> h[i].sequence <= LATEST
  {
    RecoveredFits(crc, b);
    var fs := LogFrames(crc, b);
    var n := WalLog.ScanLength(fs);
    forall i | 0 <= i < n
      ensures OpsOf(fs[..n])[i] == OpsOf(fs)[i]
    {
    }
  }

  /** Opens the manifest and reports the live paths and the flushed maximum. */
  method OpenManifest(dir: Bytes, crc: Checksum, utf8: ManifestFile.Charset, b: Bytes, ghost records: Machine.Manifest)
    returns (manifest: ManifestFile.Manifest)
    requires Framing.Records(ManifestFile.EntryDecoder(crc, utf8), b) == EntriesOf(dir, records)
    ensures fresh(manifest) && manifest.Valid() && manifest.utf8 == utf8 && manifest.Entries() == EntriesOf(dir, records)
    ensures manifest.live == PathsOf(dir, LiveIds(records)) && manifest.maxFlushed == MaxFlushed(records) <= LATEST
  {
    hide ManifestFile.EntryDecoder;
    hide ManifestFile.ReplayEntries;
    hide LiveIds;
    hide MaxFlushed;
    hide EntriesOf;
    ReplayRecords(dir, records);
    ManifestFile.EntriesFit(crc, utf8, b);
    FlushedFits(dir, records);
    manifest := new ManifestFile.Manifest(crc, utf8, b);
  }

  /**
   * Opens a store on the bytes of its log and manifest and its segment files. It fails exactly
   * when sequences are exhausted or a live segment is missing; otherwise the store stands where
   * the machine does after opening that disk.
   */
  method OpenStore(dir: Bytes, crc: Checksum, utf8: ManifestFile.Charset, walBytes: Bytes, manifestBytes: Bytes,
                   files: map<nat, Seg>, ghost records: Machine.Manifest)
    returns (r: Result<ToroidalStore, StoreError>)
    requires NamesFit(utf8, dir) && WellNamed(files) && Standalone(LogFrames(crc, walBytes))
    requires Framing.Records(ManifestFile.EntryDecoder(crc, utf8), manifestBytes) == EntriesOf(dir, records)
    ensures var fs := LogFrames(crc, walBytes);
            r.Ok? <==> && MaxFlushed(records) < U64_MAX && LiveIds(records) <= files.Keys
                       && WalLog.LastOf(fs[..WalLog.ScanLength(fs)]) != Some(U64_MAX)
    ensures r.Ok? ==>
              && fresh(r.value) && fresh(r.value.wal) && fresh(r.value.manifest) && fresh(r.value.snapshots)
              && r.value.Valid() && !r.value.closed && r.value.dir == dir
              && Opened(DiskOf(LogFrames(crc, walBytes), records, files), r.value.View())
              && Reopened(DiskOf(LogFrames(crc, walBytes), records, files), r.value.View())
              && NextAfter(r.value.segments, r.value.nextSegId)
  {
    hide Reopened;
    hide NextAfter;
    hide NamesFit;
    hide Proper;
    hide Loaded;
    hide LiveIds;
    hide MaxFlushed;
    hide Opened;
    hide EntriesOf;
    hide OpsOf;
    hide LogFrames;
    hide WalFile.Restart;
    hide WalLog.ScanLength;
    hide WalCodec.FrameDecoder;
    hide ManifestFile.EntryDecoder;
    hide ManifestFile.ReplayEntries;
    hide TableOf;
    hide InMemory;
    hide WellNamed;
    hide Standalone;
    hide PathsOf;
    hide Ids;
    hide SortedByMax;
    hide Sort;
    hide Counts;
    hide Framing.Records;
    hide Framing.ValidLength;
    ghost var fs := LogFrames(crc, walBytes);
    var manifest := OpenManifest(dir, crc, utf8, manifestBytes, records);
    if manifest.maxFlushed == U64_MAX {
      return Err(Storage);
    }
    var wal, table := OpenLog(crc, walBytes, manifest.maxFlushed + 1);
    if table.None? {
      return Err(Storage);
    }
    var loaded := LoadSegments(dir, manifest.live, files, LiveIds(records));
    if loaded.None? {
      return Err(Storage);
    }
    SortedSegments(loaded.value, files);
    var segments := Sort(ByMaximum(), loaded.value);
    LoadedFits(table.value, segments, files);
    var next := NextNumber(segments);
    var store := new ToroidalStore(dir, wal, manifest, files, table.value, segments, next, records);
    OpenedIs(DiskOf(fs, records, files), fs, store.View());
    OpenEffect(DiskOf(fs, records, files), store.View());
    r := Ok(store);
  }

  lemma LoadedFits(t: Table, segs: seq<Seg>, files: map<nat, Seg>)
    requires Proper(t) && Loaded(segs, files) && WellNamed(files)
    ensures InMemory(t, [], segs)
  {
    hide Proper;
    forall i | 0 <= i < |segs|
      ensures segs[i].maxSeq <= LATEST && segs[i].id < U64_LIMIT
    {
      assert segs[i].id in files;
    }
  }
}
