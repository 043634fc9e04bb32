/**
 * How the files of a store stand for the disk of the machine: log frames for operations,
 * manifest entries for manifest records.
 */
module StoreView {
  import opened Encoding
  import opened Options
  import opened Versions
  import opened Machine
  import opened Safety
  import opened SegmentNames
  import Framing
  import WalCodec
  import WalLog
  import ManifestFile

  type Frames = WalLog.Frames

  // -------------------------------------------------------------------------
  // The log
  // -------------------------------------------------------------------------

  /** A log without batches, as this store writes it. */
  ghost predicate Standalone(fs: Frames)
  {
    forall i :: 0 <= i < |fs| ==> fs[i].kind.IsOperation() && fs[i].batchId == WalCodec.STANDALONE
  }

  function OpOf(f: WalCodec.WalFrame): Op
    requires f.kind.IsOperation()
  {
    match f.kind
    case Put(key, value) => Op(f.sequence, key, Value(value))
    case Delete(key) => Op(f.sequence, key, Tombstone)
  }

  function OpsOf(fs: Frames): (h: History)
    requires Standalone(fs)
    ensures |h| == |fs|
  {
    seq(|fs|, i requires 0 <= i < |fs| => OpOf(fs[i]))
  }

  function KindOf(op: (Key, EntryValue)): WalCodec.WalFrameKind
  {
    match op.1
    case Value(v) => WalCodec.Put(op.0, v)
    case Tombstone => WalCodec.Delete(op.0)
  }

  function KindsOf(ops: seq<(Key, EntryValue)>): (kinds: seq<WalCodec.WalFrameKind>)
    ensures |kinds| == |ops|
  {
    seq(|ops|, i requires 0 <= i < |ops| => KindOf(ops[i]))
  }

  /** Replaying a log without batches returns all of it. */
  lemma {:induction false} StandaloneReplays(committed: Frames, fs: Frames)
    requires Standalone(fs)
    ensures WalLog.ReplayFrom(WalLog.ReplayState(committed, None), fs) == Ok(WalLog.ReplayState(committed + fs, None))
    decreases |fs|
  {
    if fs == [] {
      assert committed + fs == committed;
    } else {
      StandaloneReplays(committed + [fs[0]], fs[1..]);
      assert committed + [fs[0]] + fs[1..] == committed + fs;
    }
  }

  lemma {:induction false} AcceptedOps(fs: Frames)
    requires Standalone(fs)
    ensures WalLog.ScanLength(fs) == AcceptedLength(OpsOf(fs))
    ensures Standalone(fs[..WalLog.ScanLength(fs)])
    ensures OpsOf(fs[..WalLog.ScanLength(fs)]) == Accepted(OpsOf(fs))
  {
    if |fs| > 1 {
      AcceptedOps(fs[1..]);
      assert OpsOf(fs)[1..] == OpsOf(fs[1..]);
    }
  }

  /** Without batches truncation keeps exactly the frames above the boundary. */
  lemma KeptOps(fs: Frames, boundary: nat)
    requires Standalone(fs)
    ensures Standalone(WalLog.KeepFrames(fs, boundary))
    ensures OpsOf(WalLog.KeepFrames(fs, boundary)) == KeepAbove(OpsOf(fs), boundary)
  {
    assert WalLog.KeptBatches(fs, boundary) == {};
    SelectedOps(fs, boundary);
  }

  lemma {:induction false} SelectedOps(fs: Frames, boundary: nat)
    requires Standalone(fs)
    ensures Standalone(WalLog.Select(fs, boundary, {}))
    ensures OpsOf(WalLog.Select(fs, boundary, {})) == KeepAbove(OpsOf(fs), boundary)
  {
    if fs != [] {
      SelectedOps(fs[1..], boundary);
      assert OpsOf(fs)[1..] == OpsOf(fs[1..]);
      var rest := WalLog.Select(fs[1..], boundary, {});
      assert OpsOf([fs[0]] + rest) == [OpOf(fs[0])] + OpsOf(rest);
    }
  }

  lemma OpsAppend(a: Frames, b: Frames)
    requires Standalone(a) && Standalone(b)
    ensures Standalone(a + b) && OpsOf(a + b) == OpsOf(a) + OpsOf(b)
  {
  }

  lemma LastOp(fs: Frames)
    requires Standalone(fs)
    ensures LastSequence(OpsOf(fs)) == if fs == [] then 0 else fs[|fs| - 1].sequence
  {
  }

  // -------------------------------------------------------------------------
  // The manifest
  // -------------------------------------------------------------------------

  function EntryOf(dir: Bytes, r: ManifestRecord): ManifestFile.Entry
  {
    match r
    case AddSegment(id, n) => ManifestFile.Add(SegmentPath(dir, id), n)
    case RemoveSegment(id) => ManifestFile.Remove(SegmentPath(dir, id))
    case SetWalCheckpoint(n) => ManifestFile.Checkpoint(n)
  }

  function EntriesOf(dir: Bytes, m: Manifest): (es: seq<ManifestFile.Entry>)
    ensures |es| == |m|
  {
    seq(|m|, i requires 0 <= i < |m| => EntryOf(dir, m[i]))
  }

  function PathsOf(dir: Bytes, ids: set<nat>): set<Bytes>
  {
    set id | id in ids :: SegmentPath(dir, id)
  }

  lemma PathIn(dir: Bytes, ids: set<nat>, id: nat)
    ensures SegmentPath(dir, id) in PathsOf(dir, ids) <==> id in ids
  {
    if SegmentPath(dir, id) in PathsOf(dir, ids) && id !in ids {
      var other :| other in ids && SegmentPath(dir, other) == SegmentPath(dir, id);
      PathsDiffer(dir, other, id);
    }
  }

  /** Replaying the file restores the live segments and the flushed maximum of the records. */
  lemma {:induction false} ReplayRecords(dir: Bytes, m: Manifest)
    ensures ManifestFile.ReplayEntries(EntriesOf(dir, m)) ==
            ManifestFile.Replayed(PathsOf(dir, LiveIds(m)), MaxFlushed(m))
  {
    if m == [] {
      assert PathsOf(dir, {}) == {};
    } else {
      var front, last := m[..|m| - 1], m[|m| - 1];
      ReplayRecords(dir, front);
      assert EntriesOf(dir, m) == EntriesOf(dir, front) + [EntryOf(dir, last)];
      ManifestFile.ReplayOneMore(EntriesOf(dir, front), EntryOf(dir, last));
      OneRecord(dir, LiveIds(front), last);
    }
  }

  lemma OneRecord(dir: Bytes, live: set<nat>, r: ManifestRecord)
    ensures r.AddSegment? ==> PathsOf(dir, live) + {SegmentPath(dir, r.id)} == PathsOf(dir, live + {r.id})
    ensures r.RemoveSegment? ==> PathsOf(dir, live) - {SegmentPath(dir, r.id)} == PathsOf(dir, live - {r.id})
  {
    hide SegmentPath;
    if r.RemoveSegment? {
      forall path
        ensures path in PathsOf(dir, live) - {SegmentPath(dir, r.id)} <==> path in PathsOf(dir, live - {r.id})
      {
        if path in PathsOf(dir, live) {
          var id :| id in live && SegmentPath(dir, id) == path;
          PathIn(dir, live - {r.id}, id);
          if path == SegmentPath(dir, r.id) {
            PathIn(dir, live - {r.id}, r.id);
          }
        }
      }
    }
  }

  lemma EntriesAppend(dir: Bytes, a: Manifest, b: Manifest)
    ensures EntriesOf(dir, a + b) == EntriesOf(dir, a) + EntriesOf(dir, b)
  {
  }

  function Adds(dir: Bytes, segs: seq<Seg>): (adds: seq<(Bytes, nat)>)
    ensures |adds| == |segs|
  {
    seq(|segs|, i requires 0 <= i < |segs| => (SegmentPath(dir, segs[i].id), segs[i].maxSeq))
  }

  function PathList(dir: Bytes, segs: seq<Seg>): (paths: seq<Bytes>)
    ensures |paths| == |segs|
  {
    seq(|segs|, i requires 0 <= i < |segs| => SegmentPath(dir, segs[i].id))
  }

  lemma AddsEntries(dir: Bytes, segs: seq<Seg>)
    ensures ManifestFile.AddEntries(Adds(dir, segs)) == EntriesOf(dir, AddRecords(segs))
  {
  }

  lemma MergeEntries(dir: Bytes, merged: Seg, olds: seq<Seg>)
    ensures [ManifestFile.Add(SegmentPath(dir, merged.id), merged.maxSeq)] + ManifestFile.RemoveEntries(PathList(dir, olds)) ==
            EntriesOf(dir, MergeRecords(merged, olds))
  {
    hide SegmentPath;
    EntriesAppend(dir, [AddSegment(merged.id, merged.maxSeq)], RemoveRecords(olds));
    RemovesEntries(dir, olds);
    OneEntry(dir, AddSegment(merged.id, merged.maxSeq));
  }

  lemma OneEntry(dir: Bytes, r: ManifestRecord)
    ensures EntriesOf(dir, [r]) == [EntryOf(dir, r)]
  {
  }

  lemma RemovesEntries(dir: Bytes, segs: seq<Seg>)
    ensures ManifestFile.RemoveEntries(PathList(dir, segs)) == EntriesOf(dir, RemoveRecords(segs))
  {
  }

  /** Every segment path fits a manifest record. */
  ghost predicate NamesFit(utf8: ManifestFile.Charset, dir: Bytes)
  {
    forall n: nat {:trigger SegmentPath(dir, n)} :: n < U64_LIMIT ==> utf8(SegmentPath(dir, n)) && |SegmentPath(dir, n)| < U16_LIMIT
  }
}
