/**
 * The write-ahead log's frames as bytes.
 *
 *   len:u32 | magic:u32 | version:u16 | sequence:u64 | batch:u64 | kind:u8 | payload | crc:u32
 *
 * All integers are little-endian, `len` covers the whole frame, and the checksum everything
 * between `len` and itself.
 */
module WalCodec {
  import opened Encoding
  import opened Options
  import opened Framing

  const MAGIC: nat := 0x544F_524F
  const VERSION: nat := 1
  const KIND_BEGIN: byte := 1
  const KIND_PUT: byte := 2
  const KIND_DELETE: byte := 3
  const KIND_COMMIT: byte := 4
  const HEADER_SIZE: nat := 27
  const CRC_SIZE: nat := 4
  const MIN_FRAME_SIZE: nat := 31
  const MAX_PAYLOAD_SIZE: nat := 0x100_0000
  const MAX_FRAME_SIZE: nat := 0x100_001F
  const MAX_KEY_SIZE: nat := 0x100_0000
  const MAX_VALUE_SIZE: nat := 0x100_0000
  /** The batch id of operations outside any batch. */
  const STANDALONE: nat := 0

  datatype WalFrameKind =
    | Begin(batchId: nat)
    | Put(key: Key, value: Bytes)
    | Delete(key: Key)
    | Commit(batchId: nat)
  {
    predicate IsOperation()
    {
      Put? || Delete?
    }

    function KindByte(): byte
    {
      match this
      case Begin(_) => KIND_BEGIN
      case Put(_, _) => KIND_PUT
      case Delete(_) => KIND_DELETE
      case Commit(_) => KIND_COMMIT
    }
  }

  datatype WalFrame = WalFrame(sequence: nat, batchId: nat, kind: WalFrameKind)

  // -------------------------------------------------------------------------
  // Payload
  // -------------------------------------------------------------------------

  function EncodePayload(kind: WalFrameKind): Result<Bytes, StoreError>
  {
    match kind
    case Begin(_) => Ok([])
    case Commit(_) => Ok([])
    case Put(key, value) =>
      if |key| > MAX_KEY_SIZE || |value| > MAX_VALUE_SIZE || 8 + |key| + |value| > MAX_PAYLOAD_SIZE then Err(Storage)
      else Ok(LE(|key|, 4) + LE(|value|, 4) + key + value)
    case Delete(key) =>
      if |key| > MAX_KEY_SIZE || 4 + |key| > MAX_PAYLOAD_SIZE then Err(Storage)
      else Ok(LE(|key|, 4) + key)
  }

  function DecodePayload(kind: byte, batchId: nat, payload: Bytes): Result<WalFrameKind, StoreError>
  {
    if kind == KIND_BEGIN then
      if payload == [] then Ok(Begin(batchId)) else Err(Storage)
    else if kind == KIND_COMMIT then
      if payload == [] then Ok(Commit(batchId)) else Err(Storage)
    else if kind == KIND_PUT then
      if |payload| < 8 then Err(Storage)
      else
        var keyLen, valueLen := Field(payload, 0, 4), Field(payload, 4, 4);
        if keyLen > MAX_KEY_SIZE || valueLen > MAX_VALUE_SIZE || 8 + keyLen + valueLen != |payload| then Err(Storage)
        else Ok(Put(payload[8..8 + keyLen], payload[8 + keyLen..]))
    else if kind == KIND_DELETE then
      if |payload| < 4 then Err(Storage)
      else
        var keyLen := Field(payload, 0, 4);
        if keyLen > MAX_KEY_SIZE || 4 + keyLen != |payload| then Err(Storage)
        else Ok(Delete(payload[4..]))
    else Err(Storage)
  }

  lemma PutPayloadRoundTrip(key: Key, value: Bytes)
    requires 8 + |key| + |value| <= MAX_PAYLOAD_SIZE
    ensures DecodePayload(KIND_PUT, 0, EncodePayload(Put(key, value)).value) == Ok(Put(key, value))
  {
    PowValues();
    LeRoundTrip(|key|, 4);
    LeRoundTrip(|value|, 4);
    hide LE;
    hide FromLE;
    hide Pow256;
    var p := LE(|key|, 4) + LE(|value|, 4) + key + value;
    assert p[0..4] == LE(|key|, 4) && p[4..8] == LE(|value|, 4);
    assert p[8..8 + |key|] == key && p[8 + |key|..] == value;
  }

  lemma DeletePayloadRoundTrip(key: Key)
    requires 4 + |key| <= MAX_PAYLOAD_SIZE
    ensures DecodePayload(KIND_DELETE, 0, EncodePayload(Delete(key)).value) == Ok(Delete(key))
  {
    PowValues();
    LeRoundTrip(|key|, 4);
    hide LE;
    hide FromLE;
    hide Pow256;
    var p := LE(|key|, 4) + key;
    assert p[0..4] == LE(|key|, 4) && p[4..] == key;
  }

  // -------------------------------------------------------------------------
  // Frames
  // -------------------------------------------------------------------------

  /** BEGIN and COMMIT carry a non-zero batch id, the one in the header. */
  predicate BatchIdFits(kind: WalFrameKind, batchId: nat)
  {
    (kind.Begin? || kind.Commit?) ==> kind.batchId != STANDALONE && kind.batchId == batchId
  }

  predicate Encodable(f: WalFrame)
  {
    f.sequence < U64_LIMIT && f.batchId < U64_LIMIT && BatchIdFits(f.kind, f.batchId) && EncodePayload(f.kind).Ok?
  }

  lemma PayloadRoundTrip(f: WalFrame)
    requires Encodable(f)
    ensures |EncodePayload(f.kind).value| <= MAX_PAYLOAD_SIZE
    ensures DecodePayload(f.kind.KindByte(), f.batchId, EncodePayload(f.kind).value) == Ok(f.kind)
  {
    match f.kind
    case Begin(_) =>
    case Commit(_) =>
    case Put(key, value) => PutPayloadRoundTrip(key, value);
    case Delete(key) => DeletePayloadRoundTrip(key);
  }

  /** Everything the checksum covers. */
  function Body(sequence: nat, batchId: nat, kind: byte, payload: Bytes): (b: Bytes)
    ensures |b| == 23 + |payload|
  {
    LE(MAGIC, 4) + LE(VERSION, 2) + LE(sequence, 8) + LE(batchId, 8) + [kind] + payload
  }

  /** The bytes of a frame; nothing for a frame that the log refuses to build. */
  function EncodeFrame(crc: Checksum, f: WalFrame): Bytes
  {
    if !Encodable(f) then []
    else
      var body := Body(f.sequence, f.batchId, f.kind.KindByte(), EncodePayload(f.kind).value);
      LE(|body| + 8, 4) + body + LE(crc(body), 4)
  }

  /** Decoding the bytes of one frame. */
  function DecodeFrame(crc: Checksum, data: Bytes): Option<WalFrame>
  {
    if |data| < MIN_FRAME_SIZE || |data| > MAX_FRAME_SIZE then None
    else if Field(data, 0, 4) != |data| then None
    else if Field(data, 4, 4) != MAGIC then None
    else if Field(data, 8, 2) != VERSION then None
    else
      var end := |data| - CRC_SIZE;
      var batchId := Field(data, 18, 8);
      if Field(data, end, 4) != crc(data[4..end]) then None
      else
        var kind := DecodePayload(data[26], batchId, data[HEADER_SIZE..end]);
        if kind.Ok? && BatchIdFits(kind.value, batchId) then Some(WalFrame(Field(data, 10, 8), batchId, kind.value)) else None
  }

  /** What stands at the cursor: nothing more, a frame cut short, a damaged one, or a frame. */
  datatype FrameRead = Eof | Truncated | Corrupt | Frame(frame: WalFrame, length: nat)

  function ReadNextFrame(crc: Checksum, data: Bytes): FrameRead
  {
    if |data| < 4 then Eof
    else
      var len := Field(data, 0, 4);
      if len < MIN_FRAME_SIZE || len > MAX_FRAME_SIZE then Corrupt
      else if |data| < len then Truncated
      else
        match DecodeFrame(crc, data[..len])
        case Some(f) => Frame(f, len)
        case None => Corrupt
  }

  function FrameDecoder(crc: Checksum): Decoder<WalFrame>
  {
    (data: Bytes) =>
      match ReadNextFrame(crc, data)
      case Frame(f, n) => Some((f, n))
      case _ => None
  }

  function FrameEncoder(crc: Checksum): WalFrame -> Bytes
  {
    (f: WalFrame) => EncodeFrame(crc, f)
  }

  lemma BodyFields(sequence: nat, batchId: nat, kind: byte, payload: Bytes)
    requires sequence < U64_LIMIT && batchId < U64_LIMIT
    ensures var b := Body(sequence, batchId, kind, payload);
            && Field(b, 0, 4) == MAGIC && Field(b, 4, 2) == VERSION
            && Field(b, 6, 8) == sequence && Field(b, 14, 8) == batchId
            && b[22] == kind && b[23..] == payload
  {
    PowValues();
    LeRoundTrip(MAGIC, 4);
    LeRoundTrip(VERSION, 2);
    LeRoundTrip(sequence, 8);
    LeRoundTrip(batchId, 8);
    hide LE;
    hide FromLE;
    hide Pow256;
    var b := Body(sequence, batchId, kind, payload);
    BodySlices(LE(MAGIC, 4), LE(VERSION, 2), LE(sequence, 8), LE(batchId, 8), kind, payload);
    hide Body;
  }

  lemma BodySlices(magic: Bytes, version: Bytes, sequence: Bytes, batchId: Bytes, kind: byte, payload: Bytes)
    requires |magic| == 4 && |version| == 2 && |sequence| == 8 && |batchId| == 8
    ensures var b := magic + version + sequence + batchId + [kind] + payload;
            && b[0..4] == magic && b[4..6] == version && b[6..14] == sequence && b[14..22] == batchId
            && b[22] == kind && b[23..] == payload
  {
    var b := magic + version + sequence + batchId + [kind] + payload;
    assert b[0..4] == magic;
    assert b[4..6] == version;
    assert b[6..14] == sequence;
    assert b[14..22] == batchId;
  }

  lemma ShiftedField(a: Bytes, b: Bytes, c: Bytes, at: nat, w: nat)
    requires at + w <= |b|
    ensures |a| + at + w <= |a + b + c|
    ensures Field(a + b + c, |a| + at, w) == Field(b, at, w)
  {
    assert (a + b + c)[|a| + at..|a| + at + w] == b[at..at + w];
  }

  /** The fields of a body framed by its length and its checksum. */
  lemma FrameFields(b: Bytes, checksum: u32)
    requires 23 <= |b| <= MAX_PAYLOAD_SIZE + 23
    ensures var e := LE(|b| + 8, 4) + b + LE(checksum, 4);
            && |e| == |b| + 8 && Field(e, 0, 4) == |e| && Field(e, |e| - 4, 4) == checksum && e[4..|e| - 4] == b
            && Field(e, 4, 4) == Field(b, 0, 4) && Field(e, 8, 2) == Field(b, 4, 2)
            && Field(e, 10, 8) == Field(b, 6, 8) && Field(e, 18, 8) == Field(b, 14, 8)
            && e[26] == b[22] && e[27..|e| - 4] == b[23..]
  {
    PowValues();
    LeRoundTrip(|b| + 8, 4);
    LeRoundTrip(checksum, 4);
    hide LE;
    hide FromLE;
    hide Pow256;
    var a, c := LE(|b| + 8, 4), LE(checksum, 4);
    var e := a + b + c;
    assert e[0..4] == a;
    assert e[|e| - 4..|e| - 4 + 4] == c;
    ShiftedField(a, b, c, 0, 4);
    ShiftedField(a, b, c, 4, 2);
    ShiftedField(a, b, c, 6, 8);
    ShiftedField(a, b, c, 14, 8);
  }

  lemma FrameRoundTrip(crc: Checksum, f: WalFrame)
    requires Encodable(f)
    ensures MIN_FRAME_SIZE <= |EncodeFrame(crc, f)| <= MAX_FRAME_SIZE
    ensures Field(EncodeFrame(crc, f), 0, 4) == |EncodeFrame(crc, f)|
    ensures DecodeFrame(crc, EncodeFrame(crc, f)) == Some(f)
  {
    PayloadRoundTrip(f);
    hide LE;
    hide Field;
    hide DecodePayload;
    hide EncodePayload;
    hide Body;
    var kind, payload := f.kind.KindByte(), EncodePayload(f.kind).value;
    var b := Body(f.sequence, f.batchId, kind, payload);
    BodyFields(f.sequence, f.batchId, kind, payload);
    FrameFields(b, crc(b));
  }

  // -------------------------------------------------------------------------
  // The layout, byte by byte
  // -------------------------------------------------------------------------

  /** The bytes are a frame of the given kind byte and payload. */
  ghost predicate FrameAt(crc: Checksum, e: Bytes, sequence: nat, batchId: nat, kind: nat, payload: Bytes)
  {
    && |e| == 31 + |payload|
    && Field(e, 0, 4) == |e| && Field(e, 4, 4) == 0x544F_524F && Field(e, 8, 2) == 1
    && Field(e, 10, 8) == sequence && Field(e, 18, 8) == batchId && ByteAt(e, 26) == kind
    && e[27..|e| - 4] == payload && Field(e, |e| - 4, 4) == crc(e[4..|e| - 4])
  }

  ghost predicate PutPayload(p: Bytes, key: Key, value: Bytes)
  {
    && |p| == 8 + |key| + |value| && Field(p, 0, 4) == |key| && Field(p, 4, 4) == |value|
    && p[8..8 + |key|] == key && p[8 + |key|..] == value
  }

  ghost predicate DeletePayload(p: Bytes, key: Key)
  {
    |p| == 4 + |key| && Field(p, 0, 4) == |key| && p[4..] == key
  }

  /** The payload of each kind, and the byte that stands for it. */
  ghost predicate PayloadAt(kind: WalFrameKind, b: nat, p: Bytes)
  {
    match kind
    case Begin(_) => b == 1 && p == []
    case Put(key, value) => b == 2 && PutPayload(p, key, value)
    case Delete(key) => b == 3 && DeletePayload(p, key)
    case Commit(_) => b == 4 && p == []
  }

  lemma PayloadLayout(kind: WalFrameKind)
    requires EncodePayload(kind).Ok?
    ensures PayloadAt(kind, kind.KindByte(), EncodePayload(kind).value)
  {
    match kind
    case Put(key, value) =>
      PowValues();
      LeRoundTrip(|key|, 4);
      LeRoundTrip(|value|, 4);
      hide LE;
      hide FromLE;
      hide Pow256;
      var p := LE(|key|, 4) + LE(|value|, 4) + key + value;
      assert p[0..4] == LE(|key|, 4) && p[4..8] == LE(|value|, 4);
      assert p[8..8 + |key|] == key && p[8 + |key|..] == value;
    case Delete(key) =>
      PowValues();
      LeRoundTrip(|key|, 4);
      hide LE;
      hide FromLE;
      hide Pow256;
      var p := LE(|key|, 4) + key;
      assert p[0..4] == LE(|key|, 4) && p[4..] == key;
    case Begin(_) =>
    case Commit(_) =>
  }

  /** Where everything stands in the bytes of a frame. */
  lemma FrameLayout(crc: Checksum, f: WalFrame)
    requires Encodable(f)
    ensures exists b: nat, p ::
              FrameAt(crc, EncodeFrame(crc, f), f.sequence, f.batchId, b, p) && PayloadAt(f.kind, b, p)
  {
    PayloadRoundTrip(f);
    PayloadLayout(f.kind);
    hide LE;
    hide Field;
    hide DecodePayload;
    hide EncodePayload;
    hide PayloadAt;
    hide Body;
    var kind, payload := f.kind.KindByte(), EncodePayload(f.kind).value;
    var b := Body(f.sequence, f.batchId, kind, payload);
    BodyFields(f.sequence, f.batchId, kind, payload);
    FrameFields(b, crc(b));
    var e := EncodeFrame(crc, f);
    assert e[26] == kind;
    assert FrameAt(crc, e, f.sequence, f.batchId, kind, payload);
  }

  /** A field that says a number is the number written. */
  lemma FieldIsLe(data: Bytes, at: nat, w: nat)
    requires at + w <= |data|
    ensures data[at..at + w] == LE(Field(data, at, w), w)
  {
    LeOfFromLe(data[at..at + w]);
  }

  lemma PayloadIsEncoding(kind: byte, batchId: nat, payload: Bytes)
    requires DecodePayload(kind, batchId, payload).Ok? && |payload| <= MAX_PAYLOAD_SIZE
    ensures var k := DecodePayload(kind, batchId, payload).value;
            k.KindByte() == kind && EncodePayload(k) == Ok(payload)
  {
    hide LE;
    hide FromLE;
    if kind == KIND_PUT {
      var keyLen := Field(payload, 0, 4);
      FieldIsLe(payload, 0, 4);
      FieldIsLe(payload, 4, 4);
      assert payload == payload[0..4] + payload[4..8] + payload[8..8 + keyLen] + payload[8 + keyLen..];
    } else if kind == KIND_DELETE {
      FieldIsLe(payload, 0, 4);
      assert payload == payload[0..4] + payload[4..];
    }
  }

  /** Cut at its fields, a long enough sequence of bytes is its fields. */
  lemma CutAtFields(data: Bytes)
    requires |data| >= MIN_FRAME_SIZE
    ensures var end := |data| - 4;
            && data == data[0..4] + data[4..end] + data[end..]
            && data[4..end] == data[4..8] + data[8..10] + data[10..18] + data[18..26] + [data[26]] + data[27..end]
  {
  }

  /** The decoder accepts the encodings of frames and nothing else. */
  lemma DecodesIff(crc: Checksum, data: Bytes, f: WalFrame)
    ensures DecodeFrame(crc, data) == Some(f) <==> Encodable(f) && data == EncodeFrame(crc, f)
  {
    if Encodable(f) {
      FrameRoundTrip(crc, f);
    }
    if DecodeFrame(crc, data) == Some(f) {
      DecodedIsEncoding(crc, data);
    }
  }

  lemma DecodedIsEncoding(crc: Checksum, data: Bytes)
    requires DecodeFrame(crc, data).Some?
    ensures Encodable(DecodeFrame(crc, data).value) && EncodeFrame(crc, DecodeFrame(crc, data).value) == data
  {
    DecodedIsEncodable(crc, data);
    CutAtFields(data);
    FieldsAreLe(data);
    PayloadIsEncoding(data[26], Field(data, 18, 8), data[27..|data| - 4]);
    hide LE;
    hide FromLE;
    hide Field;
    hide DecodePayload;
    hide EncodePayload;
    var end := |data| - 4;
    var f := DecodeFrame(crc, data).value;
    assert data[4..end] == Body(f.sequence, f.batchId, f.kind.KindByte(), data[27..end]);
  }

  lemma FieldsAreLe(data: Bytes)
    requires |data| >= MIN_FRAME_SIZE
    ensures var end := |data| - 4;
            && data[0..4] == LE(Field(data, 0, 4), 4) && data[4..8] == LE(Field(data, 4, 4), 4)
            && data[8..10] == LE(Field(data, 8, 2), 2) && data[10..18] == LE(Field(data, 10, 8), 8)
            && data[18..26] == LE(Field(data, 18, 8), 8) && data[end..] == LE(Field(data, end, 4), 4)
  {
    hide LE;
    hide Field;
    var end := |data| - 4;
    assert data[end..] == data[end..end + 4];
    FieldIsLe(data, 0, 4);
    FieldIsLe(data, 4, 4);
    FieldIsLe(data, 8, 2);
    FieldIsLe(data, 10, 8);
    FieldIsLe(data, 18, 8);
    FieldIsLe(data, end, 4);
  }

  /**
   * What the reader makes of the bytes at the cursor: fewer than four are the end; a length
   * outside 31 to 16777247 is damage; fewer bytes than the length says are a frame cut short;
   * otherwise they are a frame exactly when they start with the encoding of one, and damage if not.
   */
  lemma ReadsIff(crc: Checksum, data: Bytes)
    ensures ReadNextFrame(crc, data).Eof? <==> |data| < 4
    ensures ReadNextFrame(crc, data).Truncated? <==>
              |data| >= 4 && 31 <= Field(data, 0, 4) <= 0x100_001F && |data| < Field(data, 0, 4)
    ensures forall f :: (exists n: nat :: ReadNextFrame(crc, data) == Frame(f, n)) <==> Encodable(f) && EncodeFrame(crc, f) <= data
    ensures forall f, n: nat :: ReadNextFrame(crc, data) == Frame(f, n) ==> n == |EncodeFrame(crc, f)|
  {
    hide Encodable;
    hide EncodeFrame;
    hide DecodeFrame;
    hide FromLE;
    forall f
      ensures (exists n: nat :: ReadNextFrame(crc, data) == Frame(f, n)) <==> Encodable(f) && EncodeFrame(crc, f) <= data
      ensures forall n: nat :: ReadNextFrame(crc, data) == Frame(f, n) ==> n == |EncodeFrame(crc, f)|
    {
      ReadsFrameIff(crc, data, f);
    }
  }

  lemma ReadsFrameIff(crc: Checksum, data: Bytes, f: WalFrame)
    ensures (exists n: nat :: ReadNextFrame(crc, data) == Frame(f, n)) <==> Encodable(f) && EncodeFrame(crc, f) <= data
    ensures forall n: nat :: ReadNextFrame(crc, data) == Frame(f, n) ==> n == |EncodeFrame(crc, f)|
  {
    hide Encodable;
    hide EncodeFrame;
    hide DecodeFrame;
    hide FromLE;
    if n: nat :| ReadNextFrame(crc, data) == Frame(f, n) {
      DecodesIff(crc, data[..n], f);
    }
    if Encodable(f) && EncodeFrame(crc, f) <= data {
      var e := EncodeFrame(crc, f);
      FrameRoundTrip(crc, f);
      assert data[..|e|] == e && data[0..4] == e[0..4];
      assert ReadNextFrame(crc, data) == Frame(f, |e|);
    }
  }

  /** Whatever follows a frame, it reads back as the frame written. */
  lemma FrameReadsBack(crc: Checksum, f: WalFrame)
    requires Encodable(f)
    ensures ReadsBack(FrameDecoder(crc), FrameEncoder(crc), f)
  {
    FrameRoundTrip(crc, f);
    var e := EncodeFrame(crc, f);
    forall y: Bytes
      ensures ReadNextFrame(crc, e + y) == Frame(f, |e|)
    {
      assert (e + y)[0..4] == e[0..4];
      assert (e + y)[..|e|] == e;
    }
  }

  lemma ReadDelimited(crc: Checksum, x: Bytes, y: Bytes)
    requires ReadNextFrame(crc, x).Frame?
    ensures 0 < ReadNextFrame(crc, x).length <= |x|
    ensures ReadNextFrame(crc, x + y) == ReadNextFrame(crc, x)
    ensures ReadNextFrame(crc, x[..ReadNextFrame(crc, x).length]) == ReadNextFrame(crc, x)
  {
    hide DecodeFrame;
    hide FromLE;
    var n := ReadNextFrame(crc, x).length;
    assert (x + y)[0..4] == x[0..4] == x[..n][0..4];
    assert (x + y)[..n] == x[..n] == x[..n][..n];
  }

  /** A frame is delimited by its own length field. */
  lemma FramesDelimit(crc: Checksum)
    ensures SelfDelimiting(FrameDecoder(crc))
  {
    hide ReadNextFrame;
    forall x: Bytes | ReadNextFrame(crc, x).Frame?
      ensures 0 < ReadNextFrame(crc, x).length <= |x|
    {
      ReadDelimited(crc, x, []);
    }
    forall x: Bytes, n: nat | ReadNextFrame(crc, x).Frame? && n == ReadNextFrame(crc, x).length && n <= |x|
      ensures ReadNextFrame(crc, x[..n]) == ReadNextFrame(crc, x)
    {
      ReadDelimited(crc, x, []);
    }
    forall x: Bytes, y: Bytes | ReadNextFrame(crc, x).Frame?
      ensures ReadNextFrame(crc, x + y) == ReadNextFrame(crc, x)
    {
      ReadDelimited(crc, x, y);
    }
  }

  /** A refused frame is exactly one whose operation the memtable admits but whose payload is too large,
      or whose batch id is wrong. */
  lemma EncodableOperation(sequence: nat, kind: WalFrameKind)
    requires kind.IsOperation() && sequence < U64_LIMIT
    ensures Encodable(WalFrame(sequence, STANDALONE, kind)) <==>
              if kind.Put? then 8 + |kind.key| + |kind.value| <= MAX_PAYLOAD_SIZE else 4 + |kind.key| <= MAX_PAYLOAD_SIZE
  {
  }

  /** Every frame that decodes can be written again. */
  lemma DecodedIsEncodable(crc: Checksum, data: Bytes)
    requires DecodeFrame(crc, data).Some?
    ensures Encodable(DecodeFrame(crc, data).value)
  {
    PowValues();
    FromLeBound(data[10..18]);
    FromLeBound(data[18..26]);
    hide FromLE;
    hide Pow256;
    var end := |data| - CRC_SIZE;
    PayloadAdmitted(data[26], Field(data, 18, 8), data[HEADER_SIZE..end]);
  }

  lemma PayloadAdmitted(kind: byte, batchId: nat, payload: Bytes)
    requires DecodePayload(kind, batchId, payload).Ok? && |payload| <= MAX_PAYLOAD_SIZE
    ensures EncodePayload(DecodePayload(kind, batchId, payload).value).Ok?
  {
    hide FromLE;
    hide LE;
  }

  /** A frame cut short is seen as the end of the file or as truncated, never as damaged. */
  lemma TornFrameIsNotCorrupt(crc: Checksum, f: WalFrame, n: nat)
    requires Encodable(f) && n < |EncodeFrame(crc, f)|
    ensures ReadNextFrame(crc, EncodeFrame(crc, f)[..n]).Eof? || ReadNextFrame(crc, EncodeFrame(crc, f)[..n]).Truncated?
  {
    FrameRoundTrip(crc, f);
    hide EncodeFrame;
    hide DecodeFrame;
    hide FromLE;
    var e := EncodeFrame(crc, f);
    if n >= 4 {
      assert e[..n][0..4] == e[0..4];
    }
  }
}
