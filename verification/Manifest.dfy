/**
 * The manifest: an append-only file of records, each
 *
 *   magic:u32 | type:u8 | path length:u16 | path | sequence:u64 (not for REMOVE) | crc:u32
 *
 * and the live set and highest flushed sequence that replaying it restores.
 */
module ManifestFile {
  import opened Encoding
  import opened Options
  import opened Framing

  const MAGIC: nat := 0x4D46_0001
  const TYPE_ADD: byte := 1
  const TYPE_REMOVE: byte := 2
  const TYPE_WAL_CHECKPOINT: byte := 3
  const HEADER_SIZE: nat := 7
  const CRC_SIZE: nat := 4

  type Path = Bytes

  /** Which byte strings are UTF-8; nothing is used of it except that it is a predicate. */
  type Charset = Bytes -> bool

  datatype Entry =
    | Add(path: Path, maxSequence: nat)
    | Remove(path: Path)
    | Checkpoint(sequence: nat)

  // -------------------------------------------------------------------------
  // Codec
  // -------------------------------------------------------------------------

  function TypeOf(e: Entry): byte
  {
    match e
    case Add(_, _) => TYPE_ADD
    case Remove(_) => TYPE_REMOVE
    case Checkpoint(_) => TYPE_WAL_CHECKPOINT
  }

  function PathOf(e: Entry): Path
  {
    if e.Checkpoint? then [] else e.path
  }

  function Extra(e: Entry): Bytes
  {
    match e
    case Add(_, n) => LE(n, 8)
    case Remove(_) => []
    case Checkpoint(n) => LE(n, 8)
  }

  /** Sequences are 64-bit; the record is refused when the path is not UTF-8 or too long. */
  predicate Encodable(utf8: Charset, e: Entry)
  {
    && (e.Add? ==> e.maxSequence < U64_LIMIT) && (e.Checkpoint? ==> e.sequence < U64_LIMIT)
    && (!e.Checkpoint? ==> utf8(e.path)) && |PathOf(e)| < U16_LIMIT
  }

  function Payload(e: Entry): Bytes
    requires |PathOf(e)| < U16_LIMIT
  {
    LE(MAGIC, 4) + [TypeOf(e)] + LE(|PathOf(e)|, 2) + PathOf(e) + Extra(e)
  }

  function EncodeEntry(crc: Checksum, utf8: Charset, e: Entry): Bytes
  {
    if !Encodable(utf8, e) then [] else Payload(e) + LE(crc(Payload(e)), 4)
  }

  function RecordLength(data: Bytes): nat
    requires |data| >= HEADER_SIZE
  {
    HEADER_SIZE + Field(data, 5, 2) + (if data[4] == TYPE_REMOVE then 0 else 8) + CRC_SIZE
  }

  function DecodeEntry(crc: Checksum, utf8: Charset, data: Bytes): Option<(Entry, nat)>
  {
    if |data| < HEADER_SIZE + CRC_SIZE then None
    else if Field(data, 0, 4) != MAGIC then None
    else if data[4] != TYPE_ADD && data[4] != TYPE_REMOVE && data[4] != TYPE_WAL_CHECKPOINT then None
    else
      var total := RecordLength(data);
      if |data| < total then None
      else if Field(data, total - CRC_SIZE, 4) != crc(data[..total - CRC_SIZE]) then None
      else
        var end := HEADER_SIZE + Field(data, 5, 2);
        var path := if utf8(data[HEADER_SIZE..end]) then data[HEADER_SIZE..end] else [];
        var entry :=
          if data[4] == TYPE_ADD then Add(path, Field(data, end, 8))
          else if data[4] == TYPE_REMOVE then Remove(path)
          else Checkpoint(Field(data, end, 8));
        Some((entry, total))
  }

  function EntryDecoder(crc: Checksum, utf8: Charset): Decoder<Entry>
  {
    (data: Bytes) => DecodeEntry(crc, utf8, data)
  }

  function EntryEncoder(crc: Checksum, utf8: Charset): Entry -> Bytes
  {
    (e: Entry) => EncodeEntry(crc, utf8, e)
  }

  lemma Slices(magic: Bytes, kind: byte, len: Bytes, path: Path, extra: Bytes, tail: Bytes)
    requires |magic| == 4 && |len| == 2
    ensures var p := magic + [kind] + len + path + extra;
            var data, end := p + tail, HEADER_SIZE + |path|;
            && |p| == end + |extra|
            && data[0..4] == magic && data[4] == kind && data[5..7] == len
            && data[HEADER_SIZE..end] == path && data[end..|p|] == extra
            && data[..|p|] == p && data[|p|..] == tail
  {
  }

  lemma PayloadFields(e: Entry, tail: Bytes)
    requires |PathOf(e)| < U16_LIMIT
    ensures var p, end, data := Payload(e), HEADER_SIZE + |PathOf(e)|, Payload(e) + tail;
            && |p| == end + |Extra(e)|
            && Field(data, 0, 4) == MAGIC && data[4] == TypeOf(e) && Field(data, 5, 2) == |PathOf(e)|
            && data[HEADER_SIZE..end] == PathOf(e) && data[end..|p|] == Extra(e)
            && data[..|p|] == p && data[|p|..] == tail
  {
    PowValues();
    LeRoundTrip(MAGIC, 4);
    LeRoundTrip(|PathOf(e)|, 2);
    hide LE;
    hide FromLE;
    hide Pow256;
    hide PathOf;
    hide Extra;
    hide TypeOf;
    Slices(LE(MAGIC, 4), TypeOf(e), LE(|PathOf(e)|, 2), PathOf(e), Extra(e), tail);
  }

  lemma ExtraValue(e: Entry, utf8: Charset)
    requires Encodable(utf8, e)
    ensures |Extra(e)| == if e.Remove? then 0 else 8
    ensures e.Add? ==> FromLE(Extra(e)) == e.maxSequence
    ensures e.Checkpoint? ==> FromLE(Extra(e)) == e.sequence
  {
    PowValues();
    if e.Add? {
      LeRoundTrip(e.maxSequence, 8);
    } else if e.Checkpoint? {
      LeRoundTrip(e.sequence, 8);
    }
  }

  lemma StoredChecksum(p: Bytes, checksum: u32, y: Bytes)
    ensures Field(p + (LE(checksum, 4) + y), |p|, 4) == checksum
    ensures p + LE(checksum, 4) + y == p + (LE(checksum, 4) + y)
  {
    PowValues();
    LeRoundTrip(checksum, 4);
    hide LE;
    hide FromLE;
    hide Pow256;
    assert (p + (LE(checksum, 4) + y))[|p|..|p| + 4] == LE(checksum, 4);
  }

  lemma PathFits(utf8: Charset, e: Entry)
    requires Encodable(utf8, e)
    ensures |PathOf(e)| < U16_LIMIT && (e.Checkpoint? ==> PathOf(e) == []) && (!e.Checkpoint? ==> PathOf(e) == e.path && utf8(e.path))
  {
  }

  lemma EntryRoundTrip(crc: Checksum, utf8: Charset, e: Entry, y: Bytes)
    requires Encodable(utf8, e)
    ensures DecodeEntry(crc, utf8, EncodeEntry(crc, utf8, e) + y) == Some((e, |EncodeEntry(crc, utf8, e)|))
  {
    hide LE;
    hide Payload;
    hide FromLE;
    hide Extra;
    hide PathOf;
    var p := Payload(e);
    var tail := LE(crc(p), 4) + y;
    PathFits(utf8, e);
    PayloadFields(e, tail);
    ExtraValue(e, utf8);
    StoredChecksum(p, crc(p), y);
    var data, end := p + tail, HEADER_SIZE + |PathOf(e)|;
    assert EncodeEntry(crc, utf8, e) + y == data;
    assert RecordLength(data) == |p| + 4;
    if !e.Remove? {
      assert Field(data, end, 8) == FromLE(Extra(e));
    }
  }

  /** The first `n` bytes are a record of the given type, path and sequence; a REMOVE has none. */
  ghost predicate RecordAt(crc: Checksum, data: Bytes, n: nat, kind: nat, path: Bytes, sequence: nat)
  {
    && (kind == 1 || kind == 2 || kind == 3)
    && n == 7 + |path| + (if kind == 2 then 0 else 8) + 4 && n <= |data|
    && Field(data, 0, 4) == 0x4D46_0001 && ByteAt(data, 4) == kind && Field(data, 5, 2) == |path|
    && data[7..7 + |path|] == path && (kind != 2 ==> Field(data, 7 + |path|, 8) == sequence)
    && Field(data, n - 4, 4) == crc(data[..n - 4])
  }

  /** What such a record says. A path that is not UTF-8 is read as empty. */
  ghost predicate Says(utf8: Charset, e: Entry, kind: nat, path: Bytes, sequence: nat)
  {
    var name := if utf8(path) then path else [];
    match e
    case Add(p, m) => kind == 1 && p == name && m == sequence
    case Remove(p) => kind == 2 && p == name
    case Checkpoint(m) => kind == 3 && m == sequence
  }

  ghost predicate Reads(crc: Checksum, utf8: Charset, data: Bytes, e: Entry, n: nat)
  {
    exists kind: nat, path, sequence: nat :: RecordAt(crc, data, n, kind, path, sequence) && Says(utf8, e, kind, path, sequence)
  }

  /** The bytes decode to a record exactly when one stands there. */
  lemma EntryReadsIff(crc: Checksum, utf8: Charset, data: Bytes, e: Entry, n: nat)
    ensures DecodeEntry(crc, utf8, data) == Some((e, n)) <==> Reads(crc, utf8, data, e, n)
  {
    hide FromLE;
    if DecodeEntry(crc, utf8, data) == Some((e, n)) {
      var end := 7 + Field(data, 5, 2);
      var sequence := if data[4] == TYPE_REMOVE then 0 else Field(data, end, 8);
      assert RecordAt(crc, data, n, ByteAt(data, 4), data[7..end], sequence);
      assert Says(utf8, e, ByteAt(data, 4), data[7..end], sequence);
    }
    if Reads(crc, utf8, data, e, n) {
      var kind: nat, path, sequence: nat :| RecordAt(crc, data, n, kind, path, sequence) && Says(utf8, e, kind, path, sequence);
      assert RecordLength(data) == n;
    }
  }

  /** Where everything stands in the bytes of a record. A checkpoint has no path. */
  lemma EntryLayout(crc: Checksum, utf8: Charset, e: Entry)
    requires Encodable(utf8, e)
    ensures Reads(crc, utf8, EncodeEntry(crc, utf8, e), e, |EncodeEntry(crc, utf8, e)|)
    ensures |EncodeEntry(crc, utf8, e)| == match e
                                           case Add(path, _) => 19 + |path|
                                           case Remove(path) => 11 + |path|
                                           case Checkpoint(_) => 19
  {
    var b := EncodeEntry(crc, utf8, e);
    EntryRoundTrip(crc, utf8, e, []);
    assert b + [] == b;
    hide LE;
    EntryReadsIff(crc, utf8, b, e, |b|);
  }

  lemma EntryReadsBack(crc: Checksum, utf8: Charset, e: Entry)
    requires Encodable(utf8, e)
    ensures ReadsBack(EntryDecoder(crc, utf8), EntryEncoder(crc, utf8), e)
  {
    forall y: Bytes
      ensures DecodeEntry(crc, utf8, EncodeEntry(crc, utf8, e) + y) == Some((e, |EncodeEntry(crc, utf8, e)|))
    {
      EntryRoundTrip(crc, utf8, e, y);
    }
  }

  /** Two byte strings that agree up to the end of the first record decode to the same record. */
  lemma DecodeLocal(crc: Checksum, utf8: Charset, x: Bytes, z: Bytes)
    requires DecodeEntry(crc, utf8, x).Some?
    requires DecodeEntry(crc, utf8, x).value.1 <= |x| ==>
               |z| >= DecodeEntry(crc, utf8, x).value.1
               && z[..DecodeEntry(crc, utf8, x).value.1] == x[..DecodeEntry(crc, utf8, x).value.1]
    ensures 0 < DecodeEntry(crc, utf8, x).value.1 <= |x|
    ensures DecodeEntry(crc, utf8, z) == DecodeEntry(crc, utf8, x)
  {
    hide FromLE;
    var n := DecodeEntry(crc, utf8, x).value.1;
    var end := HEADER_SIZE + Field(x, 5, 2);
    SameSlice(x, z, n, 0, 4);
    SameSlice(x, z, n, 4, 5);
    SameSlice(x, z, n, 5, 7);
    SameSlice(x, z, n, HEADER_SIZE, end);
    SameSlice(x, z, n, end, if end + 8 <= n then end + 8 else end);
    SameSlice(x, z, n, n - CRC_SIZE, n);
    SameSlice(x, z, n, 0, n - CRC_SIZE);
    assert x[4] == x[4..5][0] && z[4] == z[4..5][0];
  }

  lemma SameSlice(x: Bytes, z: Bytes, n: nat, a: nat, b: nat)
    requires n <= |x| && n <= |z| && z[..n] == x[..n] && a <= b <= n
    ensures x[a..b] == z[a..b]
  {
    assert x[a..b] == x[..n][a..b] && z[a..b] == z[..n][a..b];
  }

  lemma EntriesDelimit(crc: Checksum, utf8: Charset)
    ensures SelfDelimiting(EntryDecoder(crc, utf8))
  {
    hide DecodeEntry;
    forall x: Bytes | DecodeEntry(crc, utf8, x).Some?
      ensures 0 < DecodeEntry(crc, utf8, x).value.1 <= |x|
    {
      DecodeLocal(crc, utf8, x, x);
    }
    forall x: Bytes, n: nat | DecodeEntry(crc, utf8, x).Some? && n == DecodeEntry(crc, utf8, x).value.1 && n <= |x|
      ensures DecodeEntry(crc, utf8, x[..n]) == DecodeEntry(crc, utf8, x)
    {
      DecodeLocal(crc, utf8, x, x[..n]);
    }
    forall x: Bytes, y: Bytes | DecodeEntry(crc, utf8, x).Some?
      ensures DecodeEntry(crc, utf8, x + y) == DecodeEntry(crc, utf8, x)
    {
      assert forall n :: 0 <= n <= |x| ==> (x + y)[..n] == x[..n];
      DecodeLocal(crc, utf8, x, x + y);
    }
  }

  // -------------------------------------------------------------------------
  // Replay
  // -------------------------------------------------------------------------

  datatype Replayed = Replayed(live: set<Path>, maxFlushed: nat)

  function Max(a: nat, b: nat): nat
  {
    if a > b then a else b
  }

  function Apply(st: Replayed, e: Entry): Replayed
  {
    match e
    case Add(path, n) => Replayed(st.live + {path}, Max(st.maxFlushed, n))
    case Remove(path) => Replayed(st.live - {path}, st.maxFlushed)
    case Checkpoint(n) => Replayed(st.live, Max(st.maxFlushed, n))
  }

  function ReplayEntries(es: seq<Entry>): Replayed
  {
    if es == [] then Replayed({}, 0) else Apply(ReplayEntries(es[..|es| - 1]), es[|es| - 1])
  }

  lemma ReplayOneMore(es: seq<Entry>, e: Entry)
    ensures ReplayEntries(es + [e]) == Apply(ReplayEntries(es), e)
  {
    assert (es + [e])[..|es|] == es;
  }

  lemma AppendedEntry(crc: Checksum, utf8: Charset, file: Bytes, e: Entry)
    requires ValidLength(EntryDecoder(crc, utf8), file) == |file| && Encodable(utf8, e)
    ensures var dec, b := EntryDecoder(crc, utf8), file + EncodeEntry(crc, utf8, e);
            Records(dec, b) == Records(dec, file) + [e] && ValidLength(dec, b) == |b|
  {
    var dec, enc := EntryDecoder(crc, utf8), EntryEncoder(crc, utf8);
    EntriesDelimit(crc, utf8);
    EntryReadsBack(crc, utf8, e);
    assert ReadsBack(dec, enc, [e][0]);
    RecordsOfEncoding(dec, enc, [e]);
    hide SelfDelimiting;
    hide EncodeEntry;
    hide DecodeEntry;
    assert [e][1..] == [] && EncodeAll(enc, [e]) == enc(e) + [] == enc(e);
    EntriesDelimit(crc, utf8);
    RecordsExtend(dec, file, enc(e));
  }

  predicate SequenceFits(e: Entry)
  {
    (e.Add? ==> e.maxSequence < U64_LIMIT) && (e.Checkpoint? ==> e.sequence < U64_LIMIT)
  }

  /** Sequences read from the file are 64-bit. */
  lemma {:induction false} EntriesFit(crc: Checksum, utf8: Charset, b: Bytes)
    ensures forall i :: 0 <= i < |Records(EntryDecoder(crc, utf8), b)| ==> SequenceFits(Records(EntryDecoder(crc, utf8), b)[i])
    decreases |b|
  {
    match DecodeEntry(crc, utf8, b)
    case None =>
    case Some((e, n)) =>
      EntryFits(crc, utf8, b);
      hide DecodeEntry;
      if 0 < n <= |b| {
        EntriesFit(crc, utf8, b[n..]);
      }
  }

  lemma EntryFits(crc: Checksum, utf8: Charset, b: Bytes)
    requires DecodeEntry(crc, utf8, b).Some?
    ensures SequenceFits(DecodeEntry(crc, utf8, b).value.0)
  {
    PowValues();
    var end := HEADER_SIZE + Field(b, 5, 2);
    if end + 8 <= |b| {
      FromLeBound(b[end..end + 8]);
    }
    hide FromLE;
    hide Pow256;
  }

  lemma NothingEncoded(enc: Entry -> Bytes, es: seq<Entry>)
    ensures EncodeAll(enc, es[..0]) == []
  {
  }

  lemma NotEncoded(crc: Checksum, utf8: Charset, e: Entry)
    requires !Encodable(utf8, e)
    ensures EncodeEntry(crc, utf8, e) == []
  {
  }

  lemma ValidEntries(crc: Checksum, utf8: Charset, b: Bytes)
    ensures var dec := EntryDecoder(crc, utf8);
            var v := b[..ValidLength(dec, b)];
            Records(dec, v) == Records(dec, b) && ValidLength(dec, v) == |v|
  {
    EntriesDelimit(crc, utf8);
    hide DecodeEntry;
    ValidPrefixIsValid(EntryDecoder(crc, utf8), b);
  }

  lemma EntriesStart(crc: Checksum, utf8: Charset, b: Bytes)
    ensures Cursor(EntryDecoder(crc, utf8), b, 0, []) && ReplayEntries([]) == Replayed({}, 0)
  {
    CursorStart(EntryDecoder(crc, utf8), b);
  }

  lemma EntryStep(crc: Checksum, utf8: Charset, b: Bytes, at: nat, done: seq<Entry>, e: Entry, n: nat)
    requires Cursor(EntryDecoder(crc, utf8), b, at, done) && at <= |b| && DecodeEntry(crc, utf8, b[at..]) == Some((e, n))
    ensures 0 < n && at + n <= |b| && Cursor(EntryDecoder(crc, utf8), b, at + n, done + [e])
    ensures ReplayEntries(done + [e]) == Apply(ReplayEntries(done), e)
  {
    EntriesDelimit(crc, utf8);
    hide DecodeEntry;
    hide SelfDelimiting;
    CursorStep(EntryDecoder(crc, utf8), b, at, done, e, n);
    ReplayOneMore(done, e);
  }

  lemma EntryEnd(crc: Checksum, utf8: Charset, b: Bytes, at: nat, done: seq<Entry>)
    requires Cursor(EntryDecoder(crc, utf8), b, at, done) && at <= |b| && DecodeEntry(crc, utf8, b[at..]).None?
    ensures Records(EntryDecoder(crc, utf8), b) == done && ValidLength(EntryDecoder(crc, utf8), b) == at
  {
    EntriesDelimit(crc, utf8);
    hide DecodeEntry;
    hide SelfDelimiting;
    CursorEnd(EntryDecoder(crc, utf8), b, at, done);
  }

  /** However many bytes of the records appended since the last sync reach the file, the whole ones among them
      are read after those that were there. */
  lemma TornEntries(crc: Checksum, utf8: Charset, file: Bytes, es: seq<Entry>, n: nat)
    requires ValidLength(EntryDecoder(crc, utf8), file) == |file|
    requires AllEncodable(utf8, es) && n <= |EncodeAll(EntryEncoder(crc, utf8), es)|
    ensures var dec, enc := EntryDecoder(crc, utf8), EntryEncoder(crc, utf8);
            Records(dec, file + EncodeAll(enc, es)[..n]) == Records(dec, file) + es[..WholeRecords(enc, es, n)]
  {
    EntriesDelimit(crc, utf8);
    forall i | 0 <= i < |es|
      ensures ReadsBack(EntryDecoder(crc, utf8), EntryEncoder(crc, utf8), es[i])
    {
      EntryReadsBack(crc, utf8, es[i]);
    }
    TornAppend(EntryDecoder(crc, utf8), EntryEncoder(crc, utf8), file, es, n);
  }

  /**
   * Torn writes: replaying such a file gives a state that the writer passed through, record by
   * record.
   */
  lemma TornManifest(crc: Checksum, utf8: Charset, file: Bytes, es: seq<Entry>, n: nat)
    requires ValidLength(EntryDecoder(crc, utf8), file) == |file|
    requires AllEncodable(utf8, es) && n <= |EncodeAll(EntryEncoder(crc, utf8), es)|
    ensures var dec, enc := EntryDecoder(crc, utf8), EntryEncoder(crc, utf8);
            ReplayEntries(Records(dec, file + EncodeAll(enc, es)[..n])) ==
            ReplayEntries(Records(dec, file) + es[..WholeRecords(enc, es, n)])
  {
    hide *;
    TornEntries(crc, utf8, file, es, n);
  }

  predicate AllEncodable(utf8: Charset, es: seq<Entry>)
  {
    forall i :: 0 <= i < |es| ==> Encodable(utf8, es[i])
  }

  function AddEntries(adds: seq<(Path, nat)>): (es: seq<Entry>)
    ensures |es| == |adds|
  {
    seq(|adds|, i requires 0 <= i < |adds| => Add(adds[i].0, adds[i].1))
  }

  function RemoveEntries(paths: seq<Path>): (es: seq<Entry>)
    ensures |es| == |paths|
  {
    seq(|paths|, i requires 0 <= i < |paths| => Remove(paths[i]))
  }

  /** How many records stand before the first that cannot be encoded. */
  function Leading(utf8: Charset, es: seq<Entry>): (n: nat)
    ensures n <= |es|
  {
    if es == [] || !Encodable(utf8, es[0]) then 0 else 1 + Leading(utf8, es[1..])
  }

  lemma {:induction false} LeadingIs(utf8: Charset, es: seq<Entry>, n: nat)
    requires n <= |es| && (forall j :: 0 <= j < n ==> Encodable(utf8, es[j])) && (n < |es| ==> !Encodable(utf8, es[n]))
    ensures Leading(utf8, es) == n
  {
    hide Encodable;
    if n > 0 {
      LeadingIs(utf8, es[1..], n - 1);
    }
  }

  lemma LeadingAll(utf8: Charset, es: seq<Entry>)
    ensures es[..|es|] == es && (AllEncodable(utf8, es) ==> Leading(utf8, es) == |es|)
  {
    if AllEncodable(utf8, es) {
      LeadingIs(utf8, es, |es|);
    }
  }

  /** Adds bound the restored maximum by the greatest of them, and only by that. */
  lemma {:induction false} AddsBound(before: seq<Entry>, adds: seq<(Path, nat)>, i: nat, m: nat)
    requires i <= |adds|
    ensures ReplayEntries(before + AddEntries(adds)[..i]).maxFlushed <= m <==>
              ReplayEntries(before).maxFlushed <= m && forall j :: 0 <= j < i ==> adds[j].1 <= m
  {
    if i == 0 {
      assert before + AddEntries(adds)[..0] == before;
    } else {
      AddsBound(before, adds, i - 1, m);
      Snoc(before, AddEntries(adds), i - 1);
      ReplayOneMore(before + AddEntries(adds)[..i - 1], AddEntries(adds)[i - 1]);
      OneMoreBound(adds, i, m);
      hide *;
    }
  }

  lemma OneMoreBound(adds: seq<(Path, nat)>, i: nat, m: nat)
    requires 0 < i <= |adds|
    ensures forall st :: Apply(st, AddEntries(adds)[i - 1]).maxFlushed <= m <==> st.maxFlushed <= m && adds[i - 1].1 <= m
    ensures (forall j :: 0 <= j < i ==> adds[j].1 <= m) <==> (forall j :: 0 <= j < i - 1 ==> adds[j].1 <= m) && adds[i - 1].1 <= m
  {
  }

  lemma AddsGrow(before: seq<Entry>, adds: seq<(Path, nat)>, i: nat)
    requires i <= |adds|
    ensures ReplayEntries(before).maxFlushed <= ReplayEntries(before + AddEntries(adds)[..i]).maxFlushed
  {
    AddsBound(before, adds, i, ReplayEntries(before + AddEntries(adds)[..i]).maxFlushed);
  }

  // -------------------------------------------------------------------------
  // The manifest
  // -------------------------------------------------------------------------

  class Manifest {
    const crc: Checksum
    const utf8: Charset
    var file: Bytes
    var live: set<Path>
    var maxFlushed: nat

    ghost function Entries(): seq<Entry>
      reads this
    {
      Records(EntryDecoder(crc, utf8), file)
    }

    ghost predicate Clean()
      reads this
    {
      ValidLength(EntryDecoder(crc, utf8), file) == |file|
    }

    /** The state in memory is what replaying the file restores. */
    ghost predicate Valid()
      reads this
    {
      Clean() && Replayed(live, maxFlushed) == ReplayEntries(Entries())
    }

    /** Opening replays the valid records and cuts off the rest. */
    constructor (crc: Checksum, utf8: Charset, contents: Bytes)
      ensures this.crc == crc && this.utf8 == utf8
      ensures Valid() && Entries() == Records(EntryDecoder(crc, utf8), contents)
      ensures file == contents[..ValidLength(EntryDecoder(crc, utf8), contents)]
    {
      hide EntryDecoder;
      hide Records;
      hide ValidLength;
      hide ReplayEntries;
      this.crc := crc;
      this.utf8 := utf8;
      file := contents;
      live := {};
      maxFlushed := 0;
      new;
      ValidEntries(crc, utf8, contents);
      var valid := Replay();
      assert contents[..|contents|] == contents;
      if valid < |file| {
        file := file[..valid];
      }
    }

    method Replay() returns (valid: nat)
      requires live == {} && maxFlushed == 0
      modifies this`live, this`maxFlushed
      ensures valid == ValidLength(EntryDecoder(crc, utf8), file)
      ensures Replayed(live, maxFlushed) == ReplayEntries(Entries())
    {
      hide Cursor;
      hide DecodeEntry;
      hide Records;
      hide ValidLength;
      hide ReplayEntries;
      hide EntryDecoder;
      ghost var dec := EntryDecoder(crc, utf8);
      EntriesStart(crc, utf8, file);
      var off := 0;
      ghost var done: seq<Entry> := [];
      while true
        invariant off <= |file| && Cursor(dec, file, off, done)
        invariant Replayed(live, maxFlushed) == ReplayEntries(done)
        decreases |file| - off
      {
        var next := DecodeEntry(crc, utf8, file[off..]);
        if next.None? {
          EntryEnd(crc, utf8, file, off, done);
          break;
        }
        var (entry, length) := next.value;
        EntryStep(crc, utf8, file, off, done, entry, length);
        match entry {
          case Add(path, n) =>
            live := live + {path};
            if n > maxFlushed {
              maxFlushed := n;
            }
          case Remove(path) =>
            live := live - {path};
          case Checkpoint(n) =>
            if n > maxFlushed {
              maxFlushed := n;
            }
        }
        off := off + length;
        done := done + [entry];
      }
      valid := off;
    }

    /** Appends one record; nothing if it cannot be encoded. */
    method AppendNosync(e: Entry) returns (ok: bool)
      requires Clean()
      modifies this`file
      ensures ok <==> Encodable(utf8, e)
      ensures Clean() && Entries() == if ok then old(Entries()) + [e] else old(Entries())
      ensures file == if ok then old(file) + EncodeEntry(crc, utf8, e) else old(file)
    {
      hide EncodeEntry;
      hide DecodeEntry;
      ok := Encodable(utf8, e);
      if ok {
        AppendedEntry(crc, utf8, file, e);
        file := file + EncodeEntry(crc, utf8, e);
      }
    }

    method AddSegment(path: Path, maxSequence: nat) returns (ok: bool)
      requires Valid()
      modifies this
      ensures Valid() && (ok <==> Encodable(utf8, Add(path, maxSequence)))
      ensures Entries() == old(Entries()) + (if ok then [Add(path, maxSequence)] else [])
      ensures file == old(file) + EncodeEntry(crc, utf8, Add(path, maxSequence))
    {
      hide EncodeEntry;
      hide EntryDecoder;
      hide Encodable;
      ok := AppendNosync(Add(path, maxSequence));
      if !ok {
        NotEncoded(crc, utf8, Add(path, maxSequence));
      } else {
        ReplayOneMore(old(Entries()), Add(path, maxSequence));
        live := live + {path};
        if maxSequence > maxFlushed {
          maxFlushed := maxSequence;
        }
      }
    }

    /** Appends records that can all be encoded. */
    method AppendAll(es: seq<Entry>)
      requires Clean() && AllEncodable(utf8, es)
      modifies this`file
      ensures Clean() && Entries() == old(Entries()) + es
      ensures file == old(file) + EncodeAll(EntryEncoder(crc, utf8), es)
    {
      hide Encodable;
      hide EncodeEntry;
      hide EntryDecoder;
      hide EncodeAll;
      hide Records;
      hide ValidLength;
      ghost var before, bytes, enc := Entries(), file, EntryEncoder(crc, utf8);
      NothingEncoded(enc, es);
      assert before + es[..0] == before && bytes + [] == bytes;
      for i := 0 to |es|
        invariant Clean() && Entries() == before + es[..i] && file == bytes + EncodeAll(enc, es[..i])
      {
        Snoc(before, es, i);
        EncodeSnoc(enc, es, i);
        Reassociate(bytes, EncodeAll(enc, es[..i]), enc(es[i]));
        var written := AppendNosync(es[i]);
      }
      assert es[..|es|] == es;
    }

    /**
     * ADD of the merged segment, then REMOVE of every old one, written together. Nothing is
     * written unless every record can be encoded.
     */
    method AppendCompactionBatch(path: Path, maxSequence: nat, removes: seq<Path>) returns (ok: bool)
      requires Valid()
      modifies this
      ensures Valid()
      ensures var records := [Add(path, maxSequence)] + RemoveEntries(removes);
              && (ok <==> AllEncodable(utf8, records))
              && Entries() == old(Entries()) + (if ok then records else [])
              && file == old(file) + (if ok then EncodeAll(EntryEncoder(crc, utf8), records) else [])
    {
      hide AllEncodable;
      hide EntryDecoder;
      hide ReplayEntries;
      hide Records;
      hide ValidLength;
      var records := [Add(path, maxSequence)] + RemoveEntries(removes);
      ok := AllEncodable(utf8, records);
      if !ok {
        return;
      }
      ghost var before := Entries();
      AppendAll(records);
      ReplayOneMore(before, Add(path, maxSequence));
      live := live + {path};
      if maxSequence > maxFlushed {
        maxFlushed := maxSequence;
      }
      RemoveLive(before + [Add(path, maxSequence)], removes);
      Reassociate(before, [Add(path, maxSequence)], RemoveEntries(removes));
    }

    method RemoveLive(ghost before: seq<Entry>, removes: seq<Path>)
      requires Replayed(live, maxFlushed) == ReplayEntries(before)
      modifies this`live
      ensures Replayed(live, maxFlushed) == ReplayEntries(before + RemoveEntries(removes))
    {
      hide ReplayEntries;
      ghost var records := RemoveEntries(removes);
      assert before + records[..0] == before;
      for i := 0 to |removes|
        invariant Replayed(live, maxFlushed) == ReplayEntries(before + records[..i])
      {
        Snoc(before, records, i);
        ReplayOneMore(before + records[..i], records[i]);
        live := live - {removes[i]};
      }
      assert records[..|removes|] == records;
    }

    /** Appends and lists segments one by one; the maximum in memory is not raised. */
    method AppendAdds(adds: seq<(Path, nat)>) returns (ok: bool)
      requires Clean() && live == ReplayEntries(Entries()).live
      modifies this`file, this`live
      ensures ok <==> AllEncodable(utf8, AddEntries(adds))
      ensures Entries() == old(Entries()) + AddEntries(adds)[..Leading(utf8, AddEntries(adds))]
      ensures Clean() && live == ReplayEntries(Entries()).live
    {
      hide Encodable;
      hide EncodeEntry;
      hide EntryDecoder;
      hide ReplayEntries;
      hide Records;
      hide ValidLength;
      ghost var entries := AddEntries(adds);
      ghost var before := Entries();
      assert before + entries[..0] == before;
      for i := 0 to |adds|
        invariant Clean() && Entries() == before + entries[..i]
        invariant forall j :: 0 <= j < i ==> Encodable(utf8, entries[j])
        invariant live == ReplayEntries(Entries()).live
      {
        ReplayOneMore(Entries(), entries[i]);
        Snoc(before, entries, i);
        var written := AppendNosync(Add(adds[i].0, adds[i].1));
        if !written {
          LeadingIs(utf8, entries, i);
          return false;
        }
        live := live + {adds[i].0};
      }
      LeadingIs(utf8, entries, |adds|);
      return true;
    }

    /**
     * ADD of every segment of a checkpoint, then the checkpoint record. The maximum in memory is
     * raised by the checkpoint alone, so memory agrees with the file exactly when that covers
     * every segment. A record that cannot be encoded stops the append behind those before it.
     */
    method AppendBatch(adds: seq<(Path, nat)>, checkpoint: nat) returns (ok: bool)
      requires Valid()
      modifies this
      ensures ok <==> AllEncodable(utf8, AddEntries(adds)) && Encodable(utf8, Checkpoint(checkpoint))
      ensures Entries() == old(Entries()) + (if ok then AddEntries(adds) + [Checkpoint(checkpoint)]
                                             else AddEntries(adds)[..Leading(utf8, AddEntries(adds))])
      ensures maxFlushed == if ok then Max(old(maxFlushed), checkpoint) else old(maxFlushed)
      ensures ok ==> (Valid() <==> forall i :: 0 <= i < |adds| ==> adds[i].1 <= Max(old(maxFlushed), checkpoint))
      ensures Clean() && live == ReplayEntries(Entries()).live
    {
      hide Encodable;
      hide EncodeEntry;
      hide EntryDecoder;
      hide ReplayEntries;
      hide Records;
      hide ValidLength;
      hide AddEntries;
      ghost var before, entries := Entries(), AddEntries(adds);
      AddsBound(before, adds, |adds|, Max(maxFlushed, checkpoint));
      AddsGrow(before, adds, |adds|);
      assert entries[..|adds|] == entries;
      ok := AppendAdds(adds);
      LeadingAll(utf8, entries);
      if !ok {
        return;
      }
      Reassociate(before, entries, [Checkpoint(checkpoint)]);
      ReplayOneMore(Entries(), Checkpoint(checkpoint));
      ok := AppendNosync(Checkpoint(checkpoint));
      if ok && checkpoint > maxFlushed {
        maxFlushed := checkpoint;
      }
    }
  }

  lemma Snoc<T>(a: seq<T>, b: seq<T>, i: nat)
    requires i < |b|
    ensures a + b[..i + 1] == a + b[..i] + [b[i]]
  {
  }
}
