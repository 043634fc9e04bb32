/**
 * Stores with the run of the machine that they have made, and what opening the bytes of such a
 * store reads after a crash in the middle of anything.
 */
module Reopening {
  import opened Encoding
  import opened Options
  import opened Versions
  import opened Layers
  import opened Machine
  import opened Safety
  import opened Recovery
  import opened Runs
  import opened Jobs
  import opened MemTables
  import opened Snapshots
  import opened SegmentNames
  import opened StoreView
  import opened Stores
  import Framing
  import WalCodec
  import WalLog
  import WalFile
  import ManifestFile

  ghost function Last(r: Run): State
    requires |r.states| > 0
  {
    r.states[|r.states| - 1]
  }

  /** The acknowledged operations of the whole run. */
  ghost function Line(r: Run): History
    requires |r.states| == |r.events| + 1
  {
    HistoryAt(r, |r.events|)
  }

  lemma {:induction false} HistoryExtends(r: Run, r': Run, n: nat)
    requires |r.states| == |r.events| + 1 && |r'.states| == |r'.events| + 1 && n <= |r.events| <= |r'.events|
    requires r.states <= r'.states && r.events <= r'.events
    ensures HistoryAt(r', n) == HistoryAt(r, n)
  {
    if n > 0 {
      HistoryExtends(r, r', n - 1);
      assert r'.states[n - 1] == r.states[n - 1] && r'.events[n - 1] == r.events[n - 1];
    }
  }

  /** One more event at the end of a run. */
  lemma OneEvent(r: Run, e: Event, s: State) returns (r': Run)
    requires ValidRun(r) && Step(Last(r), e, s) && Allowed(Last(r), e)
    ensures ValidRun(r') && Last(r') == s && Line(r') == NextHistory(Last(r), Line(r), e)
  {
    hide Step;
    hide Allowed;
    hide NextHistory;
    RunShape(r);
    OneMoreStep(r, e, s);
    r' := Run(r.states + [s], r.events + [e]);
    hide ValidRun;
    HistoryExtends(r, r', |r.events|);
  }

  // -------------------------------------------------------------------------
  // A store and its run
  // -------------------------------------------------------------------------

  /** Every moment of a run, in the middle of an operation too, ends a run. */
  lemma Moment(r: Run, n: nat) returns (r': Run)
    requires ValidRun(r) && n <= |r.events|
    ensures ValidRun(r') && Last(r') == r.states[n] && Line(r') == HistoryAt(r, n)
  {
    hide Step;
    hide Allowed;
    r' := Run(r.states[..n + 1], r.events[..n]);
    assert ValidRun(r');
    hide ValidRun;
    HistoryExtends(r', r, n);
  }

  /** Background operations add nothing to the history. */
  lemma QuietPath(r: Run, es: seq<Event>, s': State) returns (r': Run)
    requires ValidRun(r) && Path(Last(r), es, s') && forall i :: 0 <= i < |es| ==> Unconditional(es[i])
    ensures ValidRun(r') && Last(r') == s' && Line(r') == Line(r)
  {
    hide ValidRun;
    hide Path;
    hide HistoryAt;
    hide Unconditional;
    hide Allowed;
    RunShape(r);
    AllowedFirst(Last(r), es);
    r' := PathExtends(r, es, s');
    RunShape(r');
    HistoryExtends(r, r', |r.events|);
    QuietTail(r', r.events, es);
  }

  lemma AllowedFirst(s: State, es: seq<Event>)
    requires forall i :: 0 <= i < |es| ==> Unconditional(es[i])
    ensures es != [] ==> Allowed(s, es[0])
  {
  }

  lemma QuietTail(r: Run, before: seq<Event>, es: seq<Event>)
    requires |r.states| == |r.events| + 1 && r.events == before + es && forall i :: 0 <= i < |es| ==> Unconditional(es[i])
    ensures HistoryAt(r, |r.events|) == HistoryAt(r, |before|)
  {
    forall i | |before| <= i < |r.events|
      ensures !r.events[i].Write?
    {
      assert r.events[i] == es[i - |before|];
    }
    SameLine(r, |before|, |r.events|);
  }

  lemma {:induction false} SameLine(r: Run, m: nat, n: nat)
    requires |r.states| == |r.events| + 1 && m <= n <= |r.events| && forall i :: m <= i < n ==> !r.events[i].Write?
    ensures HistoryAt(r, n) == HistoryAt(r, m)
    decreases n
  {
    if m < n {
      SameLine(r, m, n - 1);
    }
  }

  /** What a write adds to the run and to its history. */
  lemma RecordWrite(r: Run, op: (Key, EntryValue), admitted: bool, ok: bool, s': State) returns (r': Run)
    requires ValidRun(r) && Aligned(Last(r)) && WriteOutcome(Last(r), [op], admitted, ok, s')
    ensures ValidRun(r') && Last(r') == s'
    ensures Line(r') == Line(r) + if ok then [Op(Last(r).nextSequence, op.0, op.1)] else []
  {
    RunShape(r);
    hide ValidRun;
    hide FitsLog;
    hide AfterWrite;
    assert [op][0] == op;
    if ok {
      r' := OneEvent(r, Write([op]), s');
      assert Numbered([op], Last(r).nextSequence) == [Op(Last(r).nextSequence, op.0, op.1)];
    } else if s' == Last(r) {
      r' := r;
    } else {
      r' := OneEvent(r, Reject, s');
    }
  }

  lemma MoveIsQuiet(n: nat, checkpoint: bool)
    ensures forall i :: 0 <= i < |MoveEvents(n, checkpoint)| ==> Unconditional(MoveEvents(n, checkpoint)[i])
    ensures forall i :: 0 <= i < |CheckpointEvents(n)| ==> Unconditional(CheckpointEvents(n)[i])
    ensures forall i :: 0 <= i < |CompactEvents(n)| ==> Unconditional(CompactEvents(n)[i])
  {
  }

  lemma RunGet(r: Run, key: Key)
    requires ValidRun(r) && Last(r).job == Idle
    ensures Machine.Get(Last(r), key) == Live(Latest(Line(r), key, LATEST))
  {
    RunShape(r);
    hide ValidRun;
    RunReads(r, |r.events|, key, 0);
  }

  lemma RunGetAt(r: Run, key: Key, snapshot: nat)
    requires ValidRun(r) && Last(r).job == Idle && snapshot >= FloorAt(r, |r.events|)
    ensures Machine.GetAt(Last(r), snapshot, key) == Live(Latest(Line(r), key, snapshot))
  {
    RunShape(r);
    hide ValidRun;
    RunReads(r, |r.events|, key, snapshot);
  }

  lemma OutcomeSays(r: Run, op: (Key, EntryValue), admitted: bool, ok: bool, s': State)
    requires ValidRun(r) && WriteOutcome(Last(r), [op], admitted, ok, s')
    ensures ok <==> admitted && Last(r).nextSequence < U64_MAX && FitsLog(op)
  {
    RunShape(r);
    RunCounter(r);
    hide ValidRun;
    hide FitsLog;
    hide WriteStep;
    hide RejectStep;
    assert [op][0] == op;
  }

  lemma RunCounter(r: Run)
    requires ValidRun(r)
    ensures Last(r).nextSequence <= U64_MAX
  {
    RunShape(r);
    hide ValidRun;
    var g := RunInvariant(r, |r.events|);
    assert HistoryOK(Line(r), Last(r).nextSequence) by {
      LogFacts(Last(r), Line(r), FloorAt(r, |r.events|), g);
    }
    hide Inv;
  }

  class RecordedStore {
    const store: ToroidalStore
    /** Every durable effect so far, event by event. */
    ghost var run: Run

    ghost predicate Valid()
      reads this, store, store.wal, store.manifest, store.snapshots
    {
      store.Valid() && ValidRun(run) && Last(run) == store.View()
    }

    constructor (store: ToroidalStore, ghost run: Run)
      requires store.Valid() && ValidRun(run) && Last(run) == store.View()
      ensures this.store == store && this.run == run && Valid()
    {
      this.store := store;
      this.run := run;
    }

    method Get(key: Key) returns (r: Option<Bytes>)
      requires Valid()
      ensures r == Live(Latest(Line(run), key, LATEST))
    {
      hide ValidRun;
      hide Machine.Get;
      hide HistoryAt;
      r := store.Get(key);
      RunShape(run);
      RunGet(run, key);
    }

    /** A read at or above the watermark of the run, unless its snapshot has expired. */
    method GetAt(snapshot: nat, key: Key) returns (r: Result<Option<Bytes>, StoreError>)
      requires Valid()
      ensures r.Ok? && snapshot >= FloorAt(run, |run.events|) ==> r == Ok(Live(Latest(Line(run), key, snapshot)))
      ensures snapshot in store.snapshots.live ==> r.Ok?
    {
      hide ValidRun;
      hide Machine.GetAt;
      hide HistoryAt;
      hide FloorAt;
      r := store.GetAt(snapshot, key);
      RunShape(run);
      if r.Ok? && snapshot >= FloorAt(run, |run.events|) {
        RunGetAt(run, key, snapshot);
      }
    }

    /** A put or a delete, when no refused append stands behind the log's last frame. */
    method Write(op: (Key, EntryValue)) returns (ok: bool)
      requires Valid() && Aligned(store.View())
      modifies this, store`active, store.wal
      ensures Valid()
      ensures ok <==> ValidOp(op) && !store.closed && old(store.wal.nextSequence) < U64_MAX && FitsLog(op)
      ensures Line(run) == old(Line(run)) + if ok then [Op(old(store.wal.nextSequence), op.0, op.1)] else []
    {
      hide ValidRun;
      hide HistoryAt;
      hide ValidOp;
      hide FitsLog;
      hide WriteOutcome;
      ok := Apply(store, op);
      OutcomeSays(run, op, ValidOp(op) && !store.closed, ok, store.View());
      run := RecordWrite(run, op, ValidOp(op) && !store.closed, ok, store.View());
    }

    method Freeze()
      requires Valid()
      modifies this, store`active, store`frozen
      ensures Valid() && Line(run) == old(Line(run))
    {
      hide ValidRun;
      hide HistoryAt;
      ghost var s := store.View();
      var t := store.Freeze();
      assert Step(s, Event.Freeze, store.View()) && Allowed(s, Event.Freeze);
      run := OneEvent(run, Event.Freeze, store.View());
    }

    method Flush()
      requires Valid() && store.nextSegId < U64_LIMIT
      modifies this, store`files, store`active, store`frozen, store`segments, store`nextSegId, store`records, store.manifest
      ensures Valid() && Line(run) == old(Line(run))
    {
      hide ValidRun;
      hide HistoryAt;
      hide Path;
      hide MoveEvents;
      var r := store.Flush();
      if r.Some? {
        MoveIsQuiet(1, false);
        run := QuietPath(run, MoveEvents(1, false), store.View());
      }
    }

    method Checkpoint()
      requires Valid() && store.nextSegId + |store.frozen| + 1 <= U64_LIMIT
      modifies this, store`files, store`active, store`frozen, store`segments, store`nextSegId, store`records,
               store.manifest, store.wal
      ensures Valid() && Line(run) == old(Line(run))
    {
      hide ValidRun;
      hide HistoryAt;
      hide Path;
      hide CheckpointEvents;
      var n := store.Checkpoint();
      MoveIsQuiet(n, true);
      run := QuietPath(run, CheckpointEvents(n), store.View());
    }

    method Compact()
      requires Valid() && store.nextSegId < U64_LIMIT
      modifies this, store`files, store`active, store`frozen, store`segments, store`nextSegId, store`records, store.manifest
      ensures Valid() && Line(run) == old(Line(run))
    {
      hide ValidRun;
      hide HistoryAt;
      hide Path;
      hide CompactEvents;
      hide IsOldest;
      ghost var s, low := store.View(), store.manifest.maxFlushed;
      var n := store.Compact();
      if n >= 2 {
        ghost var keep :| IsOldest(store.snapshots.live, low, keep) && Path(s, CompactEvents(keep), store.View());
        MoveIsQuiet(keep, false);
        run := QuietPath(run, CompactEvents(keep), store.View());
      }
    }
  }

  // -------------------------------------------------------------------------
  // The bytes that a crash leaves
  // -------------------------------------------------------------------------

  /** A clean log, and manifest bytes whose records an fsync covers, stand for a state; further records may
      have been appended since. */
  ghost predicate Stands(crc: Checksum, utf8: ManifestFile.Charset, dir: Bytes, s: State, log: Bytes, synced: Bytes)
  {
    && Framing.ValidLength(WalCodec.FrameDecoder(crc), log) == |log| && Standalone(LogFrames(crc, log))
    && OpsOf(LogFrames(crc, log)) == s.disk.wal
    && Framing.ValidLength(ManifestFile.EntryDecoder(crc, utf8), synced) == |synced|
    && s.disk.synced <= |s.disk.manifest|
    && Framing.Records(ManifestFile.EntryDecoder(crc, utf8), synced) == EntriesOf(dir, s.disk.manifest[..s.disk.synced])
    && ManifestFile.AllEncodable(utf8, Unsynced(dir, s))
  }

  function Unsynced(dir: Bytes, s: State): seq<ManifestFile.Entry>
  {
    if s.disk.synced <= |s.disk.manifest| then EntriesOf(dir, s.disk.manifest[s.disk.synced..]) else []
  }

  function UnsyncedBytes(crc: Checksum, utf8: ManifestFile.Charset, dir: Bytes, s: State): Bytes
  {
    Framing.EncodeAll(ManifestFile.EntryEncoder(crc, utf8), Unsynced(dir, s))
  }

  /** How many records of the manifest a crash keeps that keeps `m` of the unsynced bytes. */
  function Cut(crc: Checksum, utf8: ManifestFile.Charset, dir: Bytes, s: State, m: nat): nat
  {
    s.disk.synced + Framing.WholeRecords(ManifestFile.EntryEncoder(crc, utf8), Unsynced(dir, s), m)
  }

  function FrameOf(s: State, op: (Key, EntryValue)): WalCodec.WalFrame
  {
    WalCodec.WalFrame(s.nextSequence, WalCodec.STANDALONE, KindOf(op))
  }

  /** The bytes that a write in flight has brought to the log. */
  function Landed(crc: Checksum, s: State, op: Option<(Key, EntryValue)>, n: nat): Bytes
  {
    if op.None? then []
    else
      var frame := WalCodec.EncodeFrame(crc, FrameOf(s, op.value));
      if n <= |frame| then frame[..n] else frame
  }

  /** A write in flight that the store has admitted, all of whose frame has reached the log. */
  predicate Whole(crc: Checksum, s: State, op: Option<(Key, EntryValue)>, n: nat)
  {
    op.Some? && n >= |WalCodec.EncodeFrame(crc, FrameOf(s, op.value))|
  }

  ghost predicate InFlight(s: State, op: Option<(Key, EntryValue)>)
  {
    op.Some? ==> Aligned(s) && s.nextSequence < U64_MAX && FitsLog(op.value)
  }

  function Extra(crc: Checksum, s: State, op: Option<(Key, EntryValue)>, n: nat): History
  {
    if Whole(crc, s, op, n) then [Op(s.nextSequence, op.value.0, op.value.1)] else []
  }

  /** The log as it is found again. */
  lemma TornLogFrames(crc: Checksum, s: State, log: Bytes, op: Option<(Key, EntryValue)>, n: nat)
    requires Framing.ValidLength(WalCodec.FrameDecoder(crc), log) == |log| && Standalone(LogFrames(crc, log))
    requires OpsOf(LogFrames(crc, log)) == s.disk.wal && InFlight(s, op)
    ensures Standalone(LogFrames(crc, log + Landed(crc, s, op, n)))
    ensures OpsOf(LogFrames(crc, log + Landed(crc, s, op, n))) == s.disk.wal + Extra(crc, s, op, n)
  {
    hide WalCodec.FrameDecoder;
    hide WalCodec.EncodeFrame;
    hide Framing.ValidLength;
    hide Framing.Records;
    hide OpsOf;
    hide Standalone;
    hide LogFrames;
    hide FitsLog;
    hide KindOf;
    assert s.disk.wal + [] == s.disk.wal;
    if op.None? {
      assert log + [] == log;
    } else {
      LandedFrames(crc, s, log, op.value, n);
      OpsAndOne(LogFrames(crc, log), s, op.value);
    }
  }

  lemma LandedFrames(crc: Checksum, s: State, log: Bytes, op: (Key, EntryValue), n: nat)
    requires Framing.ValidLength(WalCodec.FrameDecoder(crc), log) == |log| && InFlight(s, Some(op))
    ensures LogFrames(crc, log + Landed(crc, s, Some(op), n)) ==
            LogFrames(crc, log) + if Whole(crc, s, Some(op), n) then [FrameOf(s, op)] else []
    ensures LogFrames(crc, log) + [] == LogFrames(crc, log)
  {
    hide WalCodec.FrameDecoder;
    var f := FrameOf(s, op);
    WalCodec.EncodableOperation(s.nextSequence, KindOf(op));
    hide WalCodec.EncodeFrame;
    hide WalCodec.Encodable;
    var all := WalCodec.EncodeFrame(crc, f);
    var k := if n <= |all| then n else |all|;
    assert all[..|all|] == all;
    WalFile.InFlightFrame(crc, log, f, k);
  }

  lemma OpsAndOne(fs: StoreView.Frames, s: State, op: (Key, EntryValue))
    requires Standalone(fs) && OpsOf(fs) == s.disk.wal
    ensures Standalone(fs + [FrameOf(s, op)])
    ensures OpsOf(fs + [FrameOf(s, op)]) == s.disk.wal + [Op(s.nextSequence, op.0, op.1)]
  {
    assert Standalone([FrameOf(s, op)]);
    OpsAppend(fs, [FrameOf(s, op)]);
    assert OpsOf([FrameOf(s, op)]) == [Op(s.nextSequence, op.0, op.1)];
  }

  /** The manifest as it is found again. */
  lemma TornRecords(crc: Checksum, utf8: ManifestFile.Charset, dir: Bytes, s: State, log: Bytes, synced: Bytes, m: nat)
    requires Stands(crc, utf8, dir, s, log, synced) && m <= |UnsyncedBytes(crc, utf8, dir, s)|
    ensures var cut := Cut(crc, utf8, dir, s, m);
            && s.disk.synced <= cut <= |s.disk.manifest|
            && Framing.Records(ManifestFile.EntryDecoder(crc, utf8), synced + UnsyncedBytes(crc, utf8, dir, s)[..m]) ==
               EntriesOf(dir, s.disk.manifest[..cut])
  {
    hide ManifestFile.EntryDecoder;
    hide LogFrames;
    hide WalCodec.FrameDecoder;
    var es := Unsynced(dir, s);
    ManifestFile.TornEntries(crc, utf8, synced, es, m);
    hide ManifestFile.EntryEncoder;
    var k := Framing.WholeRecords(ManifestFile.EntryEncoder(crc, utf8), es, m);
    CutEntries(dir, s.disk.manifest, s.disk.synced, k);
  }

  lemma CutEntries(dir: Bytes, m: Machine.Manifest, synced: nat, k: nat)
    requires synced + k <= |m|
    ensures EntriesOf(dir, m[..synced]) + EntriesOf(dir, m[synced..])[..k] == EntriesOf(dir, m[..synced + k])
  {
    hide SegmentPath;
  }

  /** The run with the landed write, if its whole frame landed. */
  lemma LandedRun(crc: Checksum, r: Run, op: Option<(Key, EntryValue)>, n: nat) returns (r1: Run)
    requires ValidRun(r) && InFlight(Last(r), op)
    ensures ValidRun(r1) && Line(r1) == Line(r) + Extra(crc, Last(r), op, n)
    ensures Last(r1).disk == Last(r).disk.(wal := Last(r).disk.wal + Extra(crc, Last(r), op, n))
    ensures forall cut :: Allowed(Last(r), Crash(cut)) ==> Allowed(Last(r1), Crash(cut))
  {
    RunShape(r);
    hide ValidRun;
    hide FitsLog;
    hide HistoryAt;
    hide MergeSafe;
    hide WalCodec.EncodeFrame;
    if Whole(crc, Last(r), op, n) {
      r1 := OneWrite(r, op.value);
    } else {
      r1 := r;
      assert Line(r) + [] == Line(r) && Last(r).disk.wal + [] == Last(r).disk.wal;
    }
  }

  lemma OneWrite(r: Run, op: (Key, EntryValue)) returns (r1: Run)
    requires ValidRun(r) && Aligned(Last(r)) && Last(r).nextSequence < U64_MAX
    ensures ValidRun(r1) && Line(r1) == Line(r) + [Op(Last(r).nextSequence, op.0, op.1)]
    ensures Last(r1).disk == Last(r).disk.(wal := Last(r).disk.wal + [Op(Last(r).nextSequence, op.0, op.1)])
    ensures Last(r1).segments == Last(r).segments && Last(r1).job == Last(r).job
  {
    RunShape(r);
    hide ValidRun;
    hide HistoryAt;
    hide PushAll;
    assert Numbered([op], Last(r).nextSequence) == [Op(Last(r).nextSequence, op.0, op.1)];
    r1 := OneEvent(r, Write([op]), AfterWrite(Last(r), [op]));
  }

  /** What a crash leaves of a run can be opened. */
  lemma CanOpen(r: Run, cut: nat, d: Disk)
    requires ValidRun(r) && CrashImage(Last(r).disk, cut, d)
    ensures MaxFlushed(d.manifest) < U64_MAX && LiveIds(d.manifest) <= d.files.Keys
    ensures forall i :: 0 <= i < |d.wal| ==> d.wal[i].sequence < U64_MAX
  {
    RunShape(r);
    hide ValidRun;
    ManifestClosure(r, |r.events|, cut, d);
    var g := RunInvariant(r, |r.events|);
    RunParts(Last(r), Line(r), FloorAt(r, |r.events|), g);
    hide Inv;
    hide LiveIds;
    MaxFlushedBound(d.manifest, LastSequence(Line(r)));
  }

  lemma RunParts(s: State, h: History, floor: nat, g: Cover)
    requires Inv(s, h, floor, g)
    ensures forall i :: 0 <= i < |s.disk.manifest| ==> RecordSequence(s.disk.manifest[i]) <= LastSequence(h)
    ensures LastSequence(h) < U64_MAX && forall i :: 0 <= i < |s.disk.wal| ==> s.disk.wal[i].sequence < U64_MAX
  {
    hide SegmentsOK;
    hide MemoryOK;
    hide JobOK;
    hide Sortable;
    hide FilesOK;
  }

  lemma LastBelowTop(fs: StoreView.Frames, n: nat)
    requires Standalone(fs) && n <= |fs| && forall i :: 0 <= i < |fs| ==> OpsOf(fs)[i].sequence < U64_MAX
    ensures WalLog.LastOf(fs[..n]) != Some(U64_MAX)
  {
    if n > 0 {
      assert OpsOf(fs)[n - 1].sequence == fs[n - 1].sequence;
    }
  }

  /** After a crash and an opening the run goes on, and reads are those of its history. */
  lemma OpenedRun(r: Run, cut: nat, d: Disk, s': State) returns (r': Run)
    requires ValidRun(r) && CrashImage(Last(r).disk, cut, d) && Opened(d, s') && Allowed(Last(r), Crash(cut))
    ensures ValidRun(r') && Last(r') == s' && Line(r') == Line(r)
  {
    RunShape(r);
    hide ValidRun;
    hide CrashImage;
    hide Opened;
    hide Allowed;
    hide HistoryAt;
    r' := OneEvent(r, Crash(cut), s');
  }

  lemma StandsFor(crc: Checksum, utf8: ManifestFile.Charset, dir: Bytes, s: State, log: Bytes, synced: Bytes)
    requires Stands(crc, utf8, dir, s, log, synced)
    ensures Framing.ValidLength(WalCodec.FrameDecoder(crc), log) == |log| && Standalone(LogFrames(crc, log))
    ensures OpsOf(LogFrames(crc, log)) == s.disk.wal
  {
    hide Framing.Records;
    hide Framing.ValidLength;
    hide WalCodec.FrameDecoder;
    hide ManifestFile.EntryDecoder;
  }

  /** The disk that is found is an image of the one left. */
  lemma Found(r: Run, fs: StoreView.Frames, records: Machine.Manifest, cut: nat, files: map<nat, Seg>) returns (d: Disk)
    requires |r.states| > 0 && Standalone(fs) && OpsOf(fs) == Last(r).disk.wal
    requires Last(r).disk.synced <= cut <= |Last(r).disk.manifest| && records == Last(r).disk.manifest[..cut]
    requires forall id :: id in LiveIds(records) && id in Last(r).disk.files ==> id in files && files[id] == Last(r).disk.files[id]
    ensures d == DiskOf(fs, records, files) && d.wal == OpsOf(fs) && d.manifest == records && d.files == files
    ensures CrashImage(Last(r).disk, cut, d)
  {
    hide LiveIds;
    d := DiskOf(fs, records, files);
  }

  /**
   * Crash and reopening, from the bytes. The store stopped at any point of any run, in the middle
   * of any background job, with or without a write in flight. Whatever prefix of the write's
   * frame reached the log, and whatever prefix of the unsynced manifest bytes reached the
   * manifest, opening succeeds, and every read returns the last acknowledged operation; the
   * write in flight counts exactly when its whole frame is there.
   */
  method Reopen(dir: Bytes, crc: Checksum, utf8: ManifestFile.Charset, logBytes: Bytes, manifestBytes: Bytes, files: map<nat, Seg>,
                ghost r: Run, ghost log: Bytes, ghost synced: Bytes, ghost op: Option<(Key, EntryValue)>, ghost n: nat, ghost m: nat)
    returns (again: RecordedStore)
    requires ValidRun(r) && Stands(crc, utf8, dir, Last(r), log, synced) && InFlight(Last(r), op)
    requires logBytes == log + Landed(crc, Last(r), op, n)
    requires m <= |UnsyncedBytes(crc, utf8, dir, Last(r))|
    requires manifestBytes == synced + UnsyncedBytes(crc, utf8, dir, Last(r))[..m]
    requires NamesFit(utf8, dir) && WellNamed(files)
    requires var d := Last(r).disk;
             forall id :: id in LiveIds(d.manifest[..Cut(crc, utf8, dir, Last(r), m)]) && id in d.files ==>
               id in files && files[id] == d.files[id]
    requires Allowed(Last(r), Crash(Cut(crc, utf8, dir, Last(r), m)))
    ensures fresh(again) && fresh(again.store) && again.Valid() && !again.store.closed
    ensures Line(again.run) == Line(r) + Extra(crc, Last(r), op, n)
    ensures forall key :: Machine.Get(again.store.View(), key) == Live(Latest(Line(r) + Extra(crc, Last(r), op, n), key, LATEST))
  {
    ghost var s, cut, fs := Last(r), Cut(crc, utf8, dir, Last(r), m), LogFrames(crc, logBytes);
    StandsFor(crc, utf8, dir, s, log, synced);
    hide *;
    TornLogFrames(crc, s, log, op, n);
    TornRecords(crc, utf8, dir, s, log, synced, m);
    ghost var r1 := LandedRun(crc, r, op, n);
    ghost var records := s.disk.manifest[..cut];
    ghost var d := Found(r1, fs, records, cut, files);
    CanOpen(r1, cut, d);
    LastBelowTop(fs, WalLog.ScanLength(fs));
    var r0 := OpenStore(dir, crc, utf8, logBytes, manifestBytes, files, records);
    ghost var r2 := OpenedRun(r1, cut, d, r0.value.View());
    again := new RecordedStore(r0.value, r2);
    forall key
      ensures Machine.Get(again.store.View(), key) == Live(Latest(Line(r) + Extra(crc, s, op, n), key, LATEST))
    {
      RunGet(r2, key);
    }
  }
}
