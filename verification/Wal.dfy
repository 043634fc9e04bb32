/** The write-ahead log: a file of frames and the counter its sequences come from. */
module WalFile {
  import opened Encoding
  import opened Options
  import opened Framing
  import opened WalCodec
  import opened WalLog

  // -------------------------------------------------------------------------
  // Specification
  // -------------------------------------------------------------------------

  /** Consecutive frames, with the counter just past the last. */
  ghost predicate Aligned(fs: Frames, next: nat)
  {
    FramesConsecutive(fs) && (fs != [] ==> next == fs[|fs| - 1].sequence + 1)
  }

  /** The frames of one group append: the i-th operation at `first + i`, wrapping at 64 bits. */
  function GroupFrames(kinds: seq<WalFrameKind>, first: nat): (fs: Frames)
    ensures |fs| == |kinds|
  {
    seq(|kinds|, i requires 0 <= i < |kinds| => WalFrame((first + i) % U64_LIMIT, STANDALONE, kinds[i]))
  }

  /** The counter after reopening: above the log and not below the floor. */
  function Restart(accepted: Frames, floor: nat): nat
  {
    var next := if accepted == [] then 0 else accepted[|accepted| - 1].sequence + 1;
    if next < floor then floor else next
  }

  /** The id of a batch: the first sequence it takes, never the reserved one. */
  function BatchName(next: nat): nat
  {
    if next == STANDALONE then 1 else next
  }

  predicate LegalBatch(ops: seq<WalFrameKind>)
  {
    ops != [] && forall i :: 0 <= i < |ops| ==> ops[i].IsOperation()
  }

  predicate Storable(f: WalFrame)
  {
    f.sequence < U64_MAX && Encodable(f)
  }

  predicate Appendable(f: WalFrame)
  {
    f.kind.IsOperation() && Encodable(f)
  }

  /**
   * The counter moves on by one whatever the size of the group: the log and the counter stay
   * aligned exactly when the group is a single operation.
   */
  lemma GroupAlignedIff(fs: Frames, kinds: seq<WalFrameKind>, first: nat)
    requires Aligned(fs, first) && kinds != [] && first + |kinds| <= U64_LIMIT
    ensures Aligned(fs + GroupFrames(kinds, first), first + 1) <==> |kinds| == 1
  {
    var all := fs + GroupFrames(kinds, first);
    assert forall i :: 0 <= i < |kinds| ==> GroupFrames(kinds, first)[i].sequence == first + i;
    assert all[|all| - 1].sequence == first + |kinds| - 1;
  }

  /** How many frames of a batch reach the file: up to the first whose sequence cannot be taken or that
      cannot be built. */
  function Written(fs: Frames): (n: nat)
    ensures n <= |fs|
  {
    if fs == [] || !Storable(fs[0]) then 0 else 1 + Written(fs[1..])
  }

  lemma {:induction false} WrittenIs(fs: Frames, n: nat)
    requires n <= |fs| && (forall i :: 0 <= i < n ==> Storable(fs[i])) && (n < |fs| ==> !Storable(fs[n]))
    ensures Written(fs) == n
  {
    if n > 0 {
      WrittenIs(fs[1..], n - 1);
    }
  }

  lemma {:induction false} SequencesFit(crc: Checksum, b: Bytes)
    ensures forall i :: 0 <= i < |Records(FrameDecoder(crc), b)| ==>
              Encodable(Records(FrameDecoder(crc), b)[i])
    decreases |b|
  {
    var dec := FrameDecoder(crc);
    match ReadNextFrame(crc, b)
    case Frame(f, n) =>
      DecodedIsEncodable(crc, b[..n]);
      hide ReadNextFrame;
      hide Encodable;
      if 0 < n <= |b| {
        SequencesFit(crc, b[n..]);
      }
    case _ =>
  }

  /** A clean file that replays as frames replays as bytes. */
  lemma CleanReplays(crc: Checksum, b: Bytes)
    requires ValidLength(FrameDecoder(crc), b) == |b|
    ensures ReplayBytes(crc, b) == WalLog.Replay(Records(FrameDecoder(crc), b))
  {
    hide WalLog.Replay;
    hide FrameDecoder;
    assert b[|b|..] == [];
    assert ReadNextFrame(crc, []).Eof?;
  }

  lemma Decodes(crc: Checksum, b: Bytes)
    ensures FrameDecoder(crc)(b) ==
            var r := ReadNextFrame(crc, b); if r.Frame? then Some((r.frame, r.length)) else None
  {
  }

  lemma NextFits(crc: Checksum, b: Bytes, done: Frames, rest: Frames)
    requires Records(FrameDecoder(crc), b) == done + rest && rest != []
    ensures rest[0].sequence <= U64_MAX
  {
    SequencesFit(crc, b);
    assert (done + rest)[|done|] == rest[0];
  }

  lemma {:induction false} AcceptedConsecutive(fs: Frames)
    ensures FramesConsecutive(fs[..ScanLength(fs)])
    ensures fs != [] ==> ScanLength(fs) > 0
  {
    if |fs| > 1 && fs[1].sequence == fs[0].sequence + 1 {
      AcceptedConsecutive(fs[1..]);
      var n := ScanLength(fs);
      forall i | 0 < i < n
        ensures fs[i].sequence == fs[i - 1].sequence + 1
      {
        if i > 1 {
          assert fs[1..][..n - 1][i - 1] == fs[i] && fs[1..][..n - 1][i - 2] == fs[i - 1];
        }
      }
    }
  }

  lemma LastFits(crc: Checksum, b: Bytes, n: nat)
    requires n <= |Records(FrameDecoder(crc), b)|
    ensures var last := LastOf(Records(FrameDecoder(crc), b)[..n]); last.Some? ==> last.value <= U64_MAX
  {
    SequencesFit(crc, b);
  }

  lemma {:induction false} AlignedAbove(fs: Frames, next: nat)
    requires Aligned(fs, next)
    ensures forall i :: 0 <= i < |fs| ==> fs[i].sequence < next
  {
    if fs != [] {
      var g := fs[..|fs| - 1];
      if g != [] {
        assert g[|g| - 1] == fs[|fs| - 2];
        AlignedAbove(g, next - 1);
        assert forall i :: 0 <= i < |g| ==> g[i] == fs[i];
      }
    }
  }

  lemma EncodeNone(enc: WalFrame -> Bytes, fs: Frames)
    ensures EncodeAll(enc, fs[..0]) == []
  {
  }

  /** Frames appended to a clean file are read after those it holds. */
  lemma AppendedFrames(crc: Checksum, file: Bytes, fs: Frames)
    requires forall i :: 0 <= i < |fs| ==> Encodable(fs[i])
    ensures var dec, b := FrameDecoder(crc), EncodeAll(FrameEncoder(crc), fs);
            ValidLength(dec, file) == |file| ==>
              Records(dec, file + b) == Records(dec, file) + fs && ValidLength(dec, file + b) == |file + b|
  {
    var dec, enc := FrameDecoder(crc), FrameEncoder(crc);
    FramesDelimit(crc);
    FramesReadBack(crc, fs);
    RecordsOfEncoding(dec, enc, fs);
    if ValidLength(dec, file) == |file| {
      RecordsExtend(dec, file, EncodeAll(enc, fs));
    }
  }

  /**
   * A crash during the append of one frame leaves the log as it was or with the whole frame,
   * whichever byte-prefix of the frame reached the file.
   */
  lemma InFlightFrame(crc: Checksum, file: Bytes, f: WalFrame, n: nat)
    requires ValidLength(FrameDecoder(crc), file) == |file|
    requires Encodable(f) && n <= |EncodeFrame(crc, f)|
    ensures Records(FrameDecoder(crc), file + EncodeFrame(crc, f)[..n]) ==
            Records(FrameDecoder(crc), file) + if n == |EncodeFrame(crc, f)| then [f] else []
  {
    FramesDelimit(crc);
    FrameReadsBack(crc, f);
    hide FrameDecoder;
    hide SelfDelimiting;
    hide ReadsBack;
    hide EncodeFrame;
    TornOne(FrameDecoder(crc), FrameEncoder(crc), file, f, n);
  }

  lemma WrittenPrefix(crc: Checksum, file: Bytes, fs: Frames, n: nat)
    requires n <= |fs| && forall i :: 0 <= i < n ==> Storable(fs[i])
    ensures var dec, b := FrameDecoder(crc), EncodeAll(FrameEncoder(crc), fs[..n]);
            ValidLength(dec, file) == |file| ==>
              Records(dec, file + b) == Records(dec, file) + fs[..n] && ValidLength(dec, file + b) == |file + b|
  {
    AppendedFrames(crc, file, fs[..n]);
  }

  /** A batch is its BEGIN frame and the rest. */
  lemma BatchFrames(ops: seq<WalFrameKind>, id: nat)
    ensures var fs, begin, rest := UnitFrames(Batch(ops), id), WalFrame(id, id, Begin(id)), OpFrames(ops + [Commit(id)], id + 1, id);
            && fs == [begin] + rest && |rest| == |ops| + 1
            && Written(fs) == (if Storable(begin) then 1 + Written(rest) else 0)
            && Written(fs) <= |fs|
  {
    var fs, begin, rest := UnitFrames(Batch(ops), id), WalFrame(id, id, Begin(id)), OpFrames(ops + [Commit(id)], id + 1, id);
    assert fs == [begin] + rest;
    WrittenStorable(fs);
  }

  lemma BeginAndSome(crc: Checksum, file: Bytes, begin: WalFrame, rest: Frames, n: nat)
    requires n <= |rest|
    ensures var enc, fs := FrameEncoder(crc), [begin] + rest;
            file + EncodeAll(enc, fs[..n + 1]) == file + EncodeFrame(crc, begin) + EncodeAll(enc, rest[..n])
  {
    var enc, fs := FrameEncoder(crc), [begin] + rest;
    assert fs[..n + 1] == [begin] + rest[..n];
    assert ([begin] + rest[..n])[1..] == rest[..n];
    Reassociate(file, EncodeFrame(crc, begin), EncodeAll(enc, rest[..n]));
  }

  /** What is written of a list of frames is read back behind a clean file. */
  lemma WrittenReadBack(crc: Checksum, file: Bytes, fs: Frames)
    ensures var dec := FrameDecoder(crc);
            && Written(fs) <= |fs|
            && file + EncodeAll(FrameEncoder(crc), fs[..0]) == file
            && Records(dec, file) + fs[..0] == Records(dec, file)
            && (ValidLength(dec, file) == |file| ==>
                 var b := file + EncodeAll(FrameEncoder(crc), fs[..Written(fs)]);
                 Records(dec, b) == Records(dec, file) + fs[..Written(fs)] && ValidLength(dec, b) == |b|)
  {
    WrittenStorable(fs);
    WrittenPrefix(crc, file, fs, Written(fs));
  }

  lemma {:induction false} WrittenStorable(fs: Frames)
    ensures Written(fs) <= |fs| && forall i :: 0 <= i < Written(fs) ==> Storable(fs[i])
  {
    if fs != [] && Storable(fs[0]) {
      WrittenStorable(fs[1..]);
      assert forall i :: 0 < i < Written(fs) ==> fs[i] == fs[1..][i - 1];
    }
  }

  /** A frame either takes the replay one step on, or spoils it for good. */
  lemma ReplayNext(done: Frames, st: ReplayState, f: WalFrame, rest: Frames)
    requires ReplayFrom(REPLAY_START, done) == Ok(st)
    ensures ReplayFrame(st, f).Ok? ==> ReplayFrom(REPLAY_START, done + [f]) == ReplayFrame(st, f)
    ensures ReplayFrame(st, f).Err? ==> ReplayFrom(REPLAY_START, done + [f] + rest) == Err(Storage)
  {
    ReplayOne(st, f);
    ReplayThen(REPLAY_START, done, st, [f]);
    ReplayAppend(REPLAY_START, done + [f], rest);
  }

  /** One frame of the file: replaying goes on behind it, or the whole file does not replay. */
  lemma ReplayRead(crc: Checksum, b: Bytes, at: nat, done: Frames, st: ReplayState, f: WalFrame, n: nat)
    requires Cursor(FrameDecoder(crc), b, at, done) && FrameDecoder(crc)(b[at..]) == Some((f, n))
    requires ReplayFrom(REPLAY_START, done) == Ok(st)
    ensures 0 < n && at + n <= |b| && Cursor(FrameDecoder(crc), b, at + n, done + [f])
    ensures ReplayFrame(st, f).Ok? ==> ReplayFrom(REPLAY_START, done + [f]) == ReplayFrame(st, f)
    ensures ReplayFrame(st, f).Err? ==> ReplayBytes(crc, b) == Err(Storage)
  {
    FramesDelimit(crc);
    hide ReadNextFrame;
    hide FrameDecoder;
    hide Cursor;
    hide SelfDelimiting;
    hide ReplayFrame;
    hide ReplayFrom;
    hide Records;
    hide ValidLength;
    CursorStep(FrameDecoder(crc), b, at, done, f, n);
    ReplayNext(done, st, f, Records(FrameDecoder(crc), b[at + n..]));
  }

  lemma ReplayNothing(crc: Checksum, b: Bytes)
    ensures Cursor(FrameDecoder(crc), b, 0, []) && ReplayFrom(REPLAY_START, []) == Ok(REPLAY_START)
  {
    CursorStart(FrameDecoder(crc), b);
  }

  lemma ReplayRest(crc: Checksum, b: Bytes, at: nat, done: Frames, st: ReplayState)
    requires Cursor(FrameDecoder(crc), b, at, done) && FrameDecoder(crc)(b[at..]).None?
    requires ReplayFrom(REPLAY_START, done) == Ok(st)
    ensures ReplayBytes(crc, b) == if ReadNextFrame(crc, b[at..]).Corrupt? then Err(Storage) else Ok(st.committed)
  {
    FramesDelimit(crc);
    hide ReadNextFrame;
    hide FrameDecoder;
    hide SelfDelimiting;
    CursorEnd(FrameDecoder(crc), b, at, done);
  }

  lemma ScanNothing(crc: Checksum, b: Bytes)
    ensures Cursor(FrameDecoder(crc), b, 0, []) && FramesConsecutive([]) && LastOf([]) == None
  {
    CursorStart(FrameDecoder(crc), b);
  }

  /** One frame of the file: the cursor moves behind it, and so does the scan if it follows on. */
  lemma ScanReads(crc: Checksum, b: Bytes, at: nat, done: Frames, f: WalFrame, n: nat)
    requires Cursor(FrameDecoder(crc), b, at, done) && FramesConsecutive(done)
    requires ReadNextFrame(crc, b[at..]) == FrameRead.Frame(f, n)
    ensures 0 < n && at + n <= |b| && Cursor(FrameDecoder(crc), b, at + n, done + [f])
    ensures Records(FrameDecoder(crc), b) == done + ([f] + Records(FrameDecoder(crc), b[at + n..]))
    ensures f.sequence <= U64_MAX
    ensures FollowsOn(LastOf(done), f.sequence) ==> FramesConsecutive(done + [f]) && LastOf(done + [f]) == Some(f.sequence)
  {
    hide ReadNextFrame;
    hide SelfDelimiting;
    hide Records;
    hide ValidLength;
    FramesDelimit(crc);
    Decodes(crc, b[at..]);
    var dec := FrameDecoder(crc);
    hide FrameDecoder;
    CursorStep(dec, b, at, done, f, n);
    var rest := [f] + Records(dec, b[at + n..]);
    Reassociate(done, [f], Records(dec, b[at + n..]));
    NextFits(crc, b, done, rest);
  }

  /** The scan ends at a cursor behind which there is no frame, or one that does not follow on. */
  lemma ScanHalts(crc: Checksum, b: Bytes, at: nat, done: Frames)
    requires Cursor(FrameDecoder(crc), b, at, done) && FramesConsecutive(done)
    requires var next := ReadNextFrame(crc, b[at..]);
             next.Frame? ==> !FollowsOn(LastOf(done), next.frame.sequence)
    ensures var fs, next := Records(FrameDecoder(crc), b), ReadNextFrame(crc, b[at..]);
            && ScanLength(fs) == |done| <= |fs| && fs[..|done|] == done && (next.Frame? ==> |done| < |fs|)
    ensures Records(FrameDecoder(crc), b[..at]) == done && ValidLength(FrameDecoder(crc), b[..at]) == at
  {
    hide ReadNextFrame;
    hide SelfDelimiting;
    hide Records;
    hide ValidLength;
    hide ScanLength;
    hide FramesConsecutive;
    hide LastOf;
    FramesDelimit(crc);
    var dec, next := FrameDecoder(crc), ReadNextFrame(crc, b[at..]);
    Decodes(crc, b[at..]);
    if next.Frame? {
      ScanReads(crc, b, at, done, next.frame, next.length);
      ScanStops(done, [next.frame] + Records(dec, b[at + next.length..]));
    } else {
      CursorEnd(dec, b, at, done);
      ScanStops(done, []);
      assert done + [] == done;
    }
  }

  lemma AllEncodable(fs: Frames)
    requires forall i :: 0 <= i < |fs| ==> Appendable(fs[i])
    ensures forall i :: 0 <= i < |fs| ==> Encodable(fs[i])
  {
  }

  /** The buffer of a group append, or nothing if one operation cannot be framed. */
  method EncodeGroup(crc: Checksum, kinds: seq<WalFrameKind>, first: nat) returns (r: Option<Bytes>)
    ensures var frames := GroupFrames(kinds, first);
            r == if forall i :: 0 <= i < |frames| ==> Appendable(frames[i]) then Some(EncodeAll(FrameEncoder(crc), frames))
                 else None
  {
    ghost var frames := GroupFrames(kinds, first);
    ghost var enc := FrameEncoder(crc);
    var buffer: Bytes := [];
    EncodeNone(enc, frames);
    hide EncodeAll;
    hide EncodeFrame;
    hide Encodable;
    for i := 0 to |kinds|
      invariant forall j :: 0 <= j < i ==> Appendable(frames[j])
      invariant buffer == EncodeAll(enc, frames[..i])
    {
      var frame := WalFrame((first + i) % U64_LIMIT, STANDALONE, kinds[i]);
      assert frame == frames[i];
      if !Appendable(frame) {
        return None;
      }
      EncodeSnoc(enc, frames, i);
      buffer := buffer + EncodeFrame(crc, frame);
    }
    assert frames[..|kinds|] == frames;
    return Some(buffer);
  }

  lemma {:induction false} SelectedFrom(fs: Frames, boundary: nat, kept: set<nat>)
    requires forall i :: 0 <= i < |fs| ==> Encodable(fs[i])
    ensures forall i :: 0 <= i < |Select(fs, boundary, kept)| ==> Encodable(Select(fs, boundary, kept)[i])
  {
    if fs != [] {
      SelectedFrom(fs[1..], boundary, kept);
    }
  }

  /** What truncation writes back reads as the frames it kept. */
  lemma KeptRewritten(crc: Checksum, file: Bytes, boundary: nat, keep: Frames, frames: Frames)
    requires frames == Records(FrameDecoder(crc), file) && keep == KeepFrames(frames, boundary)
    ensures var b := EncodeAll(FrameEncoder(crc), keep);
            Records(FrameDecoder(crc), b) == keep && ValidLength(FrameDecoder(crc), b) == |b|
  {
    SequencesFit(crc, file);
    hide Encodable;
    hide ReadNextFrame;
    SelectedFrom(frames, boundary, KeptBatches(frames, boundary));
    FramesDelimit(crc);
    FramesReadBack(crc, keep);
    RecordsOfEncoding(FrameDecoder(crc), FrameEncoder(crc), keep);
  }

  /** The frames that truncation keeps: first the batches, then the frames, as two passes. */
  method FramesAbove(frames: Frames, boundary: nat) returns (keep: Frames)
    ensures keep == KeepFrames(frames, boundary)
  {
    var kept: set<nat> := {};
    for i := 0 to |frames|
      invariant kept == KeptBatches(frames[..i], boundary)
    {
      KeptBatchesSplit(frames[..i], [frames[i]], boundary);
      assert frames[..i] + [frames[i]] == frames[..i + 1];
      if frames[i].sequence > boundary && frames[i].batchId != STANDALONE {
        kept := kept + {frames[i].batchId};
      }
    }
    assert frames[..|frames|] == frames;
    hide KeptBatches;
    keep := [];
    for i := 0 to |frames|
      invariant keep == Select(frames[..i], boundary, kept)
    {
      SelectAppend(frames[..i], [frames[i]], boundary, kept);
      assert frames[..i] + [frames[i]] == frames[..i + 1] && [frames[i]][1..] == [];
      if frames[i].sequence > boundary || frames[i].batchId in kept {
        keep := keep + [frames[i]];
      }
    }
  }

  method EncodeFrames(crc: Checksum, frames: Frames) returns (b: Bytes)
    ensures b == EncodeAll(FrameEncoder(crc), frames)
  {
    hide EncodeAll;
    hide EncodeFrame;
    ghost var enc := FrameEncoder(crc);
    EncodeNone(enc, frames);
    b := [];
    for i := 0 to |frames|
      invariant b == EncodeAll(enc, frames[..i])
    {
      EncodeSnoc(enc, frames, i);
      b := b + EncodeFrame(crc, frames[i]);
    }
    assert frames[..|frames|] == frames;
  }

  // -------------------------------------------------------------------------
  // The log
  // -------------------------------------------------------------------------

  class Wal {
    const crc: Checksum
    var file: Bytes
    var nextSequence: nat

    constructor (crc: Checksum, contents: Bytes)
      ensures this.crc == crc && file == contents && nextSequence == 0
    {
      this.crc := crc;
      file := contents;
      nextSequence := 0;
    }

    ghost predicate Valid()
      reads this
    {
      nextSequence <= U64_MAX
    }

    /** Every byte of the file belongs to a whole valid frame. */
    ghost predicate Clean()
      reads this
    {
      ValidLength(FrameDecoder(crc), file) == |file|
    }

    ghost function Frames(): Frames
      reads this
    {
      Records(FrameDecoder(crc), file)
    }

    /** The end of the prefix of consecutive frames, and the last sequence in it. */
    method ScanValidPrefix() returns (r: Result<(nat, Option<nat>), StoreError>)
      ensures var fs := Frames();
              var n := ScanLength(fs);
              match r
              case Ok((end, last)) =>
                && end <= |file| && Records(FrameDecoder(crc), file[..end]) == fs[..n]
                && ValidLength(FrameDecoder(crc), file[..end]) == end
                && last == LastOf(fs[..n])
              case Err(_) => n < |fs| && LastOf(fs[..n]) == Some(U64_MAX)
    {
      hide FrameDecoder;
      hide ReadNextFrame;
      hide Cursor;
      hide Records;
      hide ScanLength;
      hide FramesConsecutive;
      hide LastOf;
      ghost var dec := FrameDecoder(crc);
      ScanNothing(crc, file);
      var offset := 0;
      var previous: Option<nat> := None;
      ghost var done: Frames := [];
      while true
        invariant offset <= |file| && Cursor(dec, file, offset, done)
        invariant FramesConsecutive(done) && previous == LastOf(done)
        decreases |file| - offset
      {
        var next := ReadNextFrame(crc, file[offset..]);
        if !next.Frame? {
          ScanHalts(crc, file, offset, done);
          break;
        }
        ScanReads(crc, file, offset, done, next.frame, next.length);
        if previous.Some? {
          if previous.value == U64_MAX {
            ScanHalts(crc, file, offset, done);
            return Err(Storage);
          }
          if next.frame.sequence != previous.value + 1 {
            ScanHalts(crc, file, offset, done);
            break;
          }
        }
        previous := Some(next.frame.sequence);
        offset := offset + next.length;
        done := done + [next.frame];
      }
      return Ok((offset, previous));
    }

    /** Keeps the valid consecutive prefix and restarts the counter just past it. */
    method Open() returns (r: Result<(), StoreError>)
      modifies this`file, this`nextSequence
      ensures var fs := old(Frames());
              var accepted := fs[..ScanLength(fs)];
              && (r.Err? <==> LastOf(accepted) == Some(U64_MAX))
              && (r.Ok? ==> Clean() && Frames() == accepted && Aligned(accepted, nextSequence)
                            && nextSequence == (if accepted == [] then 0 else accepted[|accepted| - 1].sequence + 1))
      ensures |file| <= |old(file)| && file == old(file)[..|file|]
      ensures r.Ok? ==> Valid()
    {
      var scan := ScanValidPrefix();
      if scan.Err? {
        assert file == file[..|file|];
        return Err(Storage);
      }
      var (end, last) := scan.value;
      AcceptedConsecutive(Frames());
      LastFits(crc, file, ScanLength(Frames()));
      assert end == |file| ==> file[..end] == file;
      if end < |file| {
        file := file[..end];
      }
      if last.Some? && last.value == U64_MAX {
        return Err(Storage);
      }
      nextSequence := if last.Some? then last.value + 1 else 0;
      return Ok(());
    }

    /** Opening with a floor under the counter, for a log that a checkpoint has emptied. */
    method OpenWithSequence(floor: nat) returns (r: Result<(), StoreError>)
      requires floor <= U64_MAX
      modifies this`file, this`nextSequence
      ensures var fs := old(Frames());
              var accepted := fs[..ScanLength(fs)];
              && (r.Err? <==> LastOf(accepted) == Some(U64_MAX))
              && (r.Ok? ==> Clean() && Frames() == accepted && FramesConsecutive(accepted)
                            && nextSequence == Restart(accepted, floor)
                            && (forall i :: 0 <= i < |accepted| ==> accepted[i].sequence < nextSequence))
      ensures r.Ok? ==> Valid()
    {
      r := Open();
      if r.Ok? {
        AlignedAbove(Frames(), nextSequence);
        if nextSequence < floor {
          nextSequence := floor;
        }
      }
    }

    /** Hands out one sequence. */
    method NextSequenceLocked() returns (r: Result<nat, StoreError>)
      requires Valid()
      modifies this`nextSequence
      ensures Valid()
      ensures r == if old(nextSequence) == U64_MAX then Err(Storage) else Ok(old(nextSequence))
      ensures nextSequence == if old(nextSequence) == U64_MAX then U64_MAX else old(nextSequence) + 1
    {
      if nextSequence == U64_MAX {
        return Err(Storage);
      }
      nextSequence := nextSequence + 1;
      return Ok(nextSequence - 1);
    }

    /**
     * One group of standalone operations: one write, one fsync. Nothing reaches the file unless
     * every operation can be framed, but the sequence is gone either way.
     */
    method AppendManyStandaloneSync(kinds: seq<WalFrameKind>) returns (r: Result<nat, StoreError>)
      requires Valid()
      modifies this`file, this`nextSequence
      ensures Valid()
      ensures var frames := GroupFrames(kinds, old(nextSequence));
              && (r.Ok? <==> kinds != [] && old(nextSequence) < U64_MAX && forall i :: 0 <= i < |frames| ==> Appendable(frames[i]))
              && (r.Err? ==> file == old(file))
              && (r.Ok? ==> r.value == old(nextSequence) && file == old(file) + EncodeAll(FrameEncoder(crc), frames))
              && (r.Ok? && old(Clean()) ==> Clean() && Frames() == old(Frames()) + frames)
      ensures nextSequence == if kinds == [] || old(nextSequence) == U64_MAX then old(nextSequence) else old(nextSequence) + 1
    {
      if kinds == [] {
        return Err(Storage);
      }
      var taken := NextSequenceLocked();
      if taken.Err? {
        return Err(Storage);
      }
      var first := taken.value;
      ghost var frames := GroupFrames(kinds, first);
      var buffer := EncodeGroup(crc, kinds, first);
      if buffer.None? {
        return Err(Storage);
      }
      hide GroupFrames;
      hide Appendable;
      hide Encodable;
      hide EncodeAll;
      hide Records;
      hide ValidLength;
      hide FrameDecoder;
      hide FrameEncoder;
      AllEncodable(frames);
      AppendedFrames(crc, file, frames);
      file := file + buffer.value;
      return Ok(first);
    }

    /** Builds and writes one frame. */
    method WriteFrame(frame: WalFrame) returns (ok: bool)
      modifies this`file
      ensures ok <==> Encodable(frame)
      ensures file == if ok then old(file) + EncodeFrame(crc, frame) else old(file)
    {
      ok := Encodable(frame);
      if ok {
        file := file + EncodeFrame(crc, frame);
      }
    }

    /** Takes the next sequence and writes one frame of a batch under it. */
    method WriteInBatch(batchId: nat, kind: WalFrameKind) returns (ok: bool)
      requires Valid()
      modifies this`file, this`nextSequence
      ensures Valid()
      ensures var frame := WalFrame(old(nextSequence), batchId, kind);
              && (ok <==> Storable(frame))
              && file == (if ok then old(file) + EncodeFrame(crc, frame) else old(file))
      ensures nextSequence == if old(nextSequence) == U64_MAX then U64_MAX else old(nextSequence) + 1
      ensures ok ==> nextSequence == old(nextSequence) + 1
    {
      var taken := NextSequenceLocked();
      if taken.Err? {
        return false;
      }
      ok := WriteFrame(WalFrame(taken.value, batchId, kind));
    }

    /** The sequence that names a batch; the reserved id 0 is passed over. */
    method TakeBatchName() returns (r: Result<nat, StoreError>)
      requires Valid()
      modifies this`nextSequence
      ensures Valid()
      ensures r == if old(nextSequence) == U64_MAX then Err(Storage) else Ok(BatchName(old(nextSequence)))
      ensures r.Ok? ==> nextSequence == r.value + 1
    {
      var named := STANDALONE;
      while named == STANDALONE
        invariant Valid()
        invariant named == STANDALONE ==> nextSequence == old(nextSequence) || (old(nextSequence) == 0 && nextSequence == 1)
        invariant named != STANDALONE ==> named == BatchName(old(nextSequence)) && nextSequence == named + 1
        decreases if named != STANDALONE then 0 else if nextSequence == 0 then 2 else 1
      {
        var taken := NextSequenceLocked();
        if taken.Err? {
          return Err(Storage);
        }
        named := taken.value;
      }
      return Ok(named);
    }

    /** Writes frames of one batch until one cannot be stored, and returns how many there are. */
    method WriteFollowing(batchId: nat, kinds: seq<WalFrameKind>) returns (n: nat)
      requires Valid()
      modifies this`file, this`nextSequence
      ensures Valid()
      ensures var frames := OpFrames(kinds, old(nextSequence), batchId);
              && n == Written(frames) <= |frames|
              && file == old(file) + EncodeAll(FrameEncoder(crc), frames[..n])
              && (n == |kinds| ==> nextSequence == old(nextSequence) + n)
    {
      hide EncodeFrame;
      hide EncodeAll;
      hide Storable;
      hide Written;
      ghost var enc := FrameEncoder(crc);
      ghost var frames := OpFrames(kinds, nextSequence, batchId);
      EncodeNone(enc, frames);
      assert file + [] == file;
      n := 0;
      while n < |kinds|
        invariant 0 <= n <= |kinds| && Valid() && nextSequence == old(nextSequence) + n
        invariant forall j :: 0 <= j < n ==> Storable(frames[j])
        invariant file == old(file) + EncodeAll(enc, frames[..n])
      {
        EncodeSnoc(enc, frames, n);
        Reassociate(old(file), EncodeAll(enc, frames[..n]), enc(frames[n]));
        var ok := WriteInBatch(batchId, kinds[n]);
        if !ok {
          break;
        }
        n := n + 1;
      }
      WrittenIs(frames, n);
    }

    /**
     * BEGIN, then the operations and COMMIT, each under its own sequence, then one fsync. A frame
     * that cannot be stored stops the append, but the frames before it are in the file.
     */
    method AppendBatch(ops: seq<WalFrameKind>) returns (r: Result<nat, StoreError>)
      requires Valid()
      modifies this`file, this`nextSequence
      ensures Valid()
      ensures var id := BatchName(old(nextSequence));
              var frames := UnitFrames(Batch(ops), id);
              var n := if LegalBatch(ops) then Written(frames) else 0;
              && n <= |frames|
              && (r.Ok? <==> LegalBatch(ops) && n == |frames|)
              && (r.Ok? ==> r.value == id && nextSequence == id + |frames|)
              && file == old(file) + EncodeAll(FrameEncoder(crc), frames[..n])
              && (old(Clean()) ==> Clean() && Frames() == old(Frames()) + frames[..n])
      ensures !LegalBatch(ops) ==> nextSequence == old(nextSequence)
    {
      hide UnitFrames;
      hide EncodeFrame;
      hide EncodeAll;
      hide Encodable;
      hide Records;
      hide ValidLength;
      hide FrameDecoder;
      hide FrameEncoder;
      hide Written;
      hide OpFrames;
      ghost var id := BatchName(nextSequence);
      ghost var begin, rest := WalFrame(id, id, Begin(id)), OpFrames(ops + [Commit(id)], id + 1, id);
      BatchFrames(ops, id);
      WrittenReadBack(crc, file, UnitFrames(Batch(ops), id));
      if !LegalBatch(ops) {
        return Err(Storage);
      }
      var taken := TakeBatchName();
      if taken.Err? {
        return Err(Storage);
      }
      var named := taken.value;
      var ok := WriteFrame(WalFrame(named, named, Begin(named)));
      if !ok {
        return Err(Storage);
      }
      var n := WriteFollowing(named, ops + [Commit(named)]);
      BeginAndSome(crc, old(file), begin, rest, n);
      return if n == |ops| + 1 then Ok(named) else Err(Storage);
    }

    /** The committed operations of the file, or an error if it does not replay. */
    method Replay() returns (r: Result<WalLog.Frames, StoreError>)
      ensures r == ReplayBytes(crc, file)
    {
      hide ReadNextFrame;
      hide FrameDecoder;
      hide Records;
      hide ValidLength;
      hide ReplayFrom;
      hide ReplayFrame;
      hide Cursor;
      hide ReplayBytes;
      ghost var dec := FrameDecoder(crc);
      ReplayNothing(crc, file);
      var offset := 0;
      var st := REPLAY_START;
      ghost var done: Frames := [];
      while true
        invariant offset <= |file| && Cursor(dec, file, offset, done)
        invariant ReplayFrom(REPLAY_START, done) == Ok(st)
        decreases |file| - offset
      {
        var next := ReadNextFrame(crc, file[offset..]);
        Decodes(crc, file[offset..]);
        if next.Frame? {
          ReplayRead(crc, file, offset, done, st, next.frame, next.length);
          var step := ReplayFrame(st, next.frame);
          if step.Err? {
            return Err(Storage);
          }
          st := step.value;
          offset := offset + next.length;
          done := done + [next.frame];
        } else {
          ReplayRest(crc, file, offset, done, st);
          return if next.Corrupt? then Err(Storage) else Ok(st.committed);
        }
      }
    }

    /** The frames of the valid prefix, in order. */
    method ReadFrames() returns (frames: WalLog.Frames)
      ensures frames == Frames()
    {
      hide ReadNextFrame;
      hide FrameDecoder;
      hide Records;
      hide ValidLength;
      hide Cursor;
      ghost var dec := FrameDecoder(crc);
      ReplayNothing(crc, file);
      var offset := 0;
      frames := [];
      while true
        invariant offset <= |file| && Cursor(dec, file, offset, frames)
        decreases |file| - offset
      {
        var next := ReadNextFrame(crc, file[offset..]);
        Decodes(crc, file[offset..]);
        FramesDelimit(crc);
        hide SelfDelimiting;
        if !next.Frame? {
          CursorEnd(dec, file, offset, frames);
          break;
        }
        CursorStep(dec, file, offset, frames, next.frame, next.length);
        frames := frames + [next.frame];
        offset := offset + next.length;
      }
    }

    /**
     * Keeps the frames above the boundary and every batch that has one of them, in order, and
     * leaves the counter alone.
     */
    method TruncateKeepAbove(boundary: nat)
      modifies this`file
      ensures file == EncodeAll(FrameEncoder(crc), KeepFrames(old(Frames()), boundary))
      ensures Clean() && Frames() == KeepFrames(old(Frames()), boundary)
    {
      var frames := ReadFrames();
      var keep := FramesAbove(frames, boundary);
      KeptRewritten(crc, file, boundary, keep, frames);
      hide EncodeAll;
      hide EncodeFrame;
      hide FrameEncoder;
      hide FrameDecoder;
      hide Records;
      hide KeepFrames;
      var rewritten := EncodeFrames(crc, keep);
      file := rewritten;
    }
  }
}
