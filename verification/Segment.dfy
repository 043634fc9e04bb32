/**
 * Segment files as bytes.
 *
 *   header (32) | data blocks | bloom filter | index | footer (44)
 *
 * A block is an entry count, the entries and a checksum; an entry is a key with its length,
 * a sequence, a kind and, for values, a value with its length. The index gives for each block
 * its first key, its offset and its size. The footer gives the place of the bloom filter and
 * the index, the number of entries and the checksum of everything before it.
 */
module SegmentCodec {
  import opened Encoding
  import opened Options
  import opened Versions
  import opened Sorting
  import opened MemTables

  const MAGIC: nat := 0x5345_4742
  const VERSION: nat := 2
  const KIND_VALUE: byte := 1
  const KIND_TOMBSTONE: byte := 2
  const HEADER_SIZE: nat := 32
  const FOOTER_SIZE: nat := 44
  const BLOCK_SIZE: nat := 32768

  type Entry = MemTables.Version
  type Block = seq<Entry>

  datatype IndexEntry = IndexEntry(firstKey: Key, offset: nat, size: nat)

  /** The bloom filter as stored: its bits, and how many hashes set bits for a key. */
  datatype Bloom = Bloom(bits: Bytes, k: nat)

  // -------------------------------------------------------------------------
  // Entries
  // -------------------------------------------------------------------------

  function EncodeValue(v: EntryValue): Bytes
  {
    match v
    case Value(b) => [KIND_VALUE] + LE(|b|, 4) + b
    case Tombstone => [KIND_TOMBSTONE]
  }

  function EncodeEntry(e: Entry): (b: Bytes)
    ensures |b| >= 13
  {
    LE(|e.0|, 4) + e.0 + LE(e.1.sequence, 8) + EncodeValue(e.1.value)
  }

  predicate EntryFits(e: Entry)
  {
    |e.0| < U32_LIMIT && e.1.sequence < U64_LIMIT && (e.1.value.Value? ==> |e.1.value.bytes| < U32_LIMIT)
  }

  /** The entry at `at`, whose key and value must end by `limit`, and where it ends. */
  function DecodeEntry(raw: Bytes, at: nat, limit: nat): Option<(Entry, nat)>
    requires limit <= |raw|
  {
    if at + 4 > |raw| then None
    else
      var keyEnd := at + 4 + Field(raw, at, 4);
      if keyEnd > limit then None
      else if keyEnd + 8 > |raw| then None
      else if keyEnd + 9 > |raw| then None
      else
        var key, sequence, kind := raw[at + 4..keyEnd], Field(raw, keyEnd, 8), raw[keyEnd + 8];
        if kind == KIND_TOMBSTONE then Some(((key, VersionedEntry(sequence, Tombstone)), keyEnd + 9))
        else if kind != KIND_VALUE then None
        else if keyEnd + 13 > |raw| then None
        else
          var end := keyEnd + 13 + Field(raw, keyEnd + 9, 4);
          if end > limit then None
          else Some(((key, VersionedEntry(sequence, Value(raw[keyEnd + 13..end]))), end))
  }

  /** The bytes `s` stand at `at`. */
  ghost predicate At(raw: Bytes, at: nat, s: Bytes)
  {
    at + |s| <= |raw| && raw[at..at + |s|] == s
  }

  lemma AtSelf(s: Bytes)
    ensures At(s, 0, s)
  {
    assert s[0..|s|] == s;
  }

  lemma AtSplit(raw: Bytes, at: nat, a: Bytes, b: Bytes)
    requires At(raw, at, a + b)
    ensures At(raw, at, a) && At(raw, at + |a|, b)
  {
    var s := raw[at..at + |a + b|];
    assert raw[at..at + |a|] == s[..|a|];
    assert raw[at + |a|..at + |a| + |b|] == s[|a|..];
  }

  lemma AtField(raw: Bytes, at: nat, n: nat, w: nat)
    requires At(raw, at, LE(n, w)) && n < Pow256(w)
    ensures at + w <= |raw| && Field(raw, at, w) == n
  {
    LeRoundTrip(n, w);
  }

  lemma AtByte(raw: Bytes, at: nat, s: Bytes)
    requires At(raw, at, s) && s != []
    ensures at < |raw| && raw[at] == s[0]
  {
    assert raw[at..at + |s|][0] == s[0];
  }

  lemma AtSlice(raw: Bytes, at: nat, s: Bytes)
    requires At(raw, at, s)
    ensures at + |s| <= |raw| && raw[at..at + |s|] == s
  {
  }

  /** A value stored at `at`: an empty value is told from a tombstone by its kind. */
  lemma ValueAt(raw: Bytes, at: nat, v: EntryValue)
    requires At(raw, at, EncodeValue(v)) && (v.Value? ==> |v.bytes| < U32_LIMIT)
    ensures at < |raw| && raw[at] == if v.Value? then KIND_VALUE else KIND_TOMBSTONE
    ensures |EncodeValue(v)| == if v.Value? then 5 + |v.bytes| else 1
    ensures v.Value? ==> at + 5 + |v.bytes| <= |raw| && Field(raw, at + 1, 4) == |v.bytes| && raw[at + 5..at + 5 + |v.bytes|] == v.bytes
  {
    hide At;
    hide LE;
    hide Pow256;
    PowValues();
    AtByte(raw, at, EncodeValue(v));
    if v.Value? {
      var b := v.bytes;
      AtSplit(raw, at, [KIND_VALUE] + LE(|b|, 4), b);
      AtSplit(raw, at, [KIND_VALUE], LE(|b|, 4));
      AtField(raw, at + 1, |b|, 4);
      AtSlice(raw, at + 5, b);
    }
  }

  /** The fields of an entry stored at `at`. */
  lemma EntryAt(raw: Bytes, at: nat, e: Entry)
    requires EntryFits(e) && At(raw, at, EncodeEntry(e))
    ensures var keyEnd := at + 4 + |e.0|;
            && keyEnd + 8 <= |raw| && Field(raw, at, 4) == |e.0| && raw[at + 4..keyEnd] == e.0
            && Field(raw, keyEnd, 8) == e.1.sequence && At(raw, keyEnd + 8, EncodeValue(e.1.value))
    ensures |EncodeEntry(e)| == 12 + |e.0| + |EncodeValue(e.1.value)|
  {
    PowValues();
    hide At;
    hide LE;
    hide Pow256;
    hide EncodeValue;
    var k, s, v := e.0, LE(e.1.sequence, 8), EncodeValue(e.1.value);
    AtSplit(raw, at, LE(|k|, 4) + k + s, v);
    AtSplit(raw, at, LE(|k|, 4) + k, s);
    AtSplit(raw, at, LE(|k|, 4), k);
    AtField(raw, at, |k|, 4);
    AtSlice(raw, at + 4, k);
    AtField(raw, at + 4 + |k|, e.1.sequence, 8);
  }

  /** An entry reads back wherever it stands. */
  lemma EntryRoundTrip(raw: Bytes, at: nat, limit: nat, e: Entry)
    requires EntryFits(e) && At(raw, at, EncodeEntry(e)) && at + |EncodeEntry(e)| <= limit <= |raw|
    ensures DecodeEntry(raw, at, limit) == Some((e, at + |EncodeEntry(e)|))
  {
    hide At;
    hide EncodeEntry;
    hide EncodeValue;
    hide Field;
    EntryAt(raw, at, e);
    ValueAt(raw, at + 12 + |e.0|, e.1.value);
  }

  /** An entry stands at `at`, byte by byte, and the next thing at `next`; key and value end by `limit`. */
  ghost predicate EntryStands(raw: Bytes, at: nat, limit: nat, e: Entry, next: nat)
  {
    var keyEnd := at + 4 + |e.0|;
    && keyEnd <= limit && keyEnd + 9 <= |raw|
    && Field(raw, at, 4) == |e.0| && raw[at + 4..keyEnd] == e.0 && Field(raw, keyEnd, 8) == e.1.sequence
    && match e.1.value
       case Tombstone => raw[keyEnd + 8] == 2 && next == keyEnd + 9
       case Value(b) =>
         && raw[keyEnd + 8] == 1 && next == keyEnd + 13 + |b| && next <= limit && next <= |raw|
         && Field(raw, keyEnd + 9, 4) == |b| && raw[keyEnd + 13..next] == b
  }

  /** Decoding finds exactly the entries that stand there. */
  lemma EntryDecodesIff(raw: Bytes, at: nat, limit: nat, e: Entry, next: nat)
    requires limit <= |raw|
    ensures DecodeEntry(raw, at, limit) == Some((e, next)) <==> EntryStands(raw, at, limit, e, next)
  {
    hide FromLE;
  }

  function EncodeEntries(es: Block): Bytes
  {
    if es == [] then [] else EncodeEntry(es[0]) + EncodeEntries(es[1..])
  }

  /** `n` entries from `at` on, and where they end. */
  function DecodeEntries(raw: Bytes, at: nat, limit: nat, n: nat): Option<(Block, nat)>
    requires limit <= |raw|
    decreases n
  {
    if n == 0 then Some(([], at))
    else
      match DecodeEntry(raw, at, limit)
      case None => None
      case Some((e, next)) =>
        match DecodeEntries(raw, next, limit, n - 1)
        case None => None
        case Some((rest, end)) => Some(([e] + rest, end))
  }

  ghost predicate AllFit(es: Block)
  {
    forall i :: 0 <= i < |es| ==> EntryFits(es[i])
  }

  lemma {:induction false} EntriesRoundTrip(raw: Bytes, at: nat, limit: nat, es: Block)
    requires AllFit(es) && At(raw, at, EncodeEntries(es)) && at + |EncodeEntries(es)| <= limit <= |raw|
    ensures DecodeEntries(raw, at, limit, |es|) == Some((es, at + |EncodeEntries(es)|))
    decreases |es|
  {
    hide At;
    hide EncodeEntry;
    hide DecodeEntry;
    hide EntryFits;
    if es != [] {
      var a, b := EncodeEntry(es[0]), EncodeEntries(es[1..]);
      AtSplit(raw, at, a, b);
      EntryRoundTrip(raw, at, limit, es[0]);
      EntriesRoundTrip(raw, at + |a|, limit, es[1..]);
      assert [es[0]] + es[1..] == es;
    }
  }

  /** The entries stand one behind the other, from `places[0]` on. */
  ghost predicate EntriesStand(raw: Bytes, limit: nat, es: Block, places: seq<nat>)
  {
    && |places| == |es| + 1
    && forall i :: 0 <= i < |es| ==> EntryStands(raw, places[i], limit, es[i], places[i + 1])
  }

  /** Decoding `n` entries finds exactly those that stand there. */
  lemma {:induction false} EntriesDecodeIff(raw: Bytes, at: nat, limit: nat, es: Block, end: nat)
    requires limit <= |raw|
    ensures DecodeEntries(raw, at, limit, |es|) == Some((es, end)) <==>
              exists places :: EntriesStand(raw, limit, es, places) && places[0] == at && places[|es|] == end
    decreases |es|
  {
    hide DecodeEntry;
    hide EntryStands;
    if es == [] {
      assert DecodeEntries(raw, at, limit, |es|) == Some((es, end)) ==> EntriesStand(raw, limit, es, [at]) && [at][0] == end;
    } else {
      if DecodeEntries(raw, at, limit, |es|) == Some((es, end)) {
        var next := DecodeEntry(raw, at, limit).value.1;
        DecodedRest(raw, at, limit, es, end);
        EntryDecodesIff(raw, at, limit, es[0], next);
        EntriesDecodeIff(raw, next, limit, es[1..], end);
        var rest :| EntriesStand(raw, limit, es[1..], rest) && rest[0] == next && rest[|es| - 1] == end;
        StandsBefore(raw, at, limit, es, rest);
        assert ([at] + rest)[0] == at && ([at] + rest)[|es|] == end;
      }
      if places :| EntriesStand(raw, limit, es, places) && places[0] == at && places[|es|] == end {
        EntryDecodesIff(raw, at, limit, es[0], places[1]);
        StandsBehind(raw, limit, es, places);
        assert places[1..][0] == places[1] && places[1..][|es| - 1] == end;
        EntriesDecodeIff(raw, places[1], limit, es[1..], end);
        assert [es[0]] + es[1..] == es;
      }
    }
  }

  lemma DecodedRest(raw: Bytes, at: nat, limit: nat, es: Block, end: nat)
    requires limit <= |raw| && es != [] && DecodeEntries(raw, at, limit, |es|) == Some((es, end))
    ensures DecodeEntry(raw, at, limit).Some? && DecodeEntry(raw, at, limit).value.0 == es[0]
    ensures DecodeEntries(raw, DecodeEntry(raw, at, limit).value.1, limit, |es| - 1) == Some((es[1..], end))
  {
    hide DecodeEntry;
    var rest := DecodeEntries(raw, DecodeEntry(raw, at, limit).value.1, limit, |es| - 1).value.0;
    assert es == [es[0]] + rest;
  }

  lemma StandsBefore(raw: Bytes, at: nat, limit: nat, es: Block, rest: seq<nat>)
    requires es != [] && EntriesStand(raw, limit, es[1..], rest) && EntryStands(raw, at, limit, es[0], rest[0])
    ensures EntriesStand(raw, limit, es, [at] + rest)
  {
    hide EntryStands;
    var places := [at] + rest;
    forall i | 0 <= i < |es|
      ensures EntryStands(raw, places[i], limit, es[i], places[i + 1])
    {
      if i > 0 {
        assert EntryStands(raw, rest[i - 1], limit, es[1..][i - 1], rest[i]);
      }
    }
  }

  lemma StandsBehind(raw: Bytes, limit: nat, es: Block, places: seq<nat>)
    requires es != [] && EntriesStand(raw, limit, es, places)
    ensures EntryStands(raw, places[0], limit, es[0], places[1]) && EntriesStand(raw, limit, es[1..], places[1..])
  {
    hide EntryStands;
    assert EntryStands(raw, places[0], limit, es[0], places[0 + 1]);
    forall i | 0 <= i < |es| - 1
      ensures EntryStands(raw, places[1..][i], limit, es[1..][i], places[1..][i + 1])
    {
      assert EntryStands(raw, places[i + 1], limit, es[i + 1], places[i + 1 + 1]);
    }
  }

  // -------------------------------------------------------------------------
  // Blocks
  // -------------------------------------------------------------------------

  function BlockBody(es: Block): Bytes
  {
    LE(|es|, 4) + EncodeEntries(es)
  }

  function EncodeBlock(crc: Checksum, es: Block): (b: Bytes)
    ensures |b| >= 8
  {
    BlockBody(es) + LE(crc(BlockBody(es)), 4)
  }

  /** Decoding a block on its own; anything malformed decodes as nothing. */
  function DecodeBlock(block: Bytes): Block
  {
    if |block| < 4 then []
    else
      match DecodeEntries(block, 4, |block|, Field(block, 0, 4))
      case Some((es, _)) => es
      case None => []
  }

  predicate BlockFits(crc: Checksum, es: Block)
  {
    es != [] && (forall i :: 0 <= i < |es| ==> EntryFits(es[i])) && |EncodeBlock(crc, es)| < U32_LIMIT
  }

  lemma {:induction false} EntriesLength(es: Block)
    ensures |EncodeEntries(es)| >= 13 * |es|
  {
    if es != [] {
      EntriesLength(es[1..]);
    }
  }

  /** The count and the entries of a block, wherever it stands. */
  lemma BlockParts(crc: Checksum, raw: Bytes, at: nat, limit: nat, es: Block)
    requires BlockFits(crc, es) && At(raw, at, EncodeBlock(crc, es)) && at + |EncodeBlock(crc, es)| <= limit <= |raw|
    ensures Field(raw, at, 4) == |es|
    ensures DecodeEntries(raw, at + 4, limit, |es|) == Some((es, at + |EncodeBlock(crc, es)| - 4))
  {
    PowValues();
    EntriesLength(es);
    hide At;
    hide LE;
    hide Pow256;
    hide EncodeEntries;
    hide DecodeEntries;
    hide EntryFits;
    var n, b, c := LE(|es|, 4), EncodeEntries(es), LE(crc(BlockBody(es)), 4);
    AtSplit(raw, at, n + b, c);
    AtSplit(raw, at, n, b);
    AtField(raw, at, |es|, 4);
    EntriesRoundTrip(raw, at + 4, limit, es);
  }

  lemma BlockRoundTrip(crc: Checksum, es: Block)
    requires BlockFits(crc, es)
    ensures DecodeBlock(EncodeBlock(crc, es)) == es
  {
    hide At;
    hide EncodeBlock;
    hide DecodeEntries;
    hide BlockFits;
    var b := EncodeBlock(crc, es);
    AtSelf(b);
    BlockParts(crc, b, 0, |b|, es);
  }

  /** The stored checksum of a block is the checksum of its body. */
  lemma BlockChecksum(crc: Checksum, es: Block)
    ensures var b := EncodeBlock(crc, es);
            Field(b, |b| - 4, 4) == crc(b[..|b| - 4])
  {
    PowValues();
    hide LE;
    hide Pow256;
    hide FromLE;
    var b := EncodeBlock(crc, es);
    assert b[..|b| - 4] == BlockBody(es);
    assert At(b, |b| - 4, LE(crc(BlockBody(es)), 4));
    AtField(b, |b| - 4, crc(BlockBody(es)), 4);
  }

  /** Where everything stands in a block: the count, the entries one behind the other, the checksum. */
  lemma BlockLayout(crc: Checksum, es: Block)
    requires BlockFits(crc, es)
    ensures var b := EncodeBlock(crc, es);
            && Field(b, 0, 4) == |es| && Field(b, |b| - 4, 4) == crc(b[..|b| - 4])
            && exists places :: EntriesStand(b, |b|, es, places) && places[0] == 4 && places[|es|] == |b| - 4
  {
    BlockChecksum(crc, es);
    hide At;
    hide EncodeBlock;
    hide DecodeEntries;
    hide BlockFits;
    hide EntryStands;
    var b := EncodeBlock(crc, es);
    AtSelf(b);
    BlockParts(crc, b, 0, |b|, es);
    EntriesDecodeIff(b, 4, |b|, es, |b| - 4);
  }

  function EncodeBlocks(crc: Checksum, gs: seq<Block>): Bytes
  {
    if gs == [] then [] else EncodeBlock(crc, gs[0]) + EncodeBlocks(crc, gs[1..])
  }

  function Flatten(gs: seq<Block>): seq<Entry>
  {
    if gs == [] then [] else gs[0] + Flatten(gs[1..])
  }

  /** All blocks from `cursor` to `end`. */
  function ParseBlocks(raw: Bytes, cursor: nat, end: nat): Option<seq<Entry>>
    requires end <= |raw|
    decreases |raw| - cursor
  {
    if cursor + 4 > end then Some([])
    else
      match DecodeEntries(raw, cursor + 4, end, Field(raw, cursor, 4))
      case None => None
      case Some((es, stop)) =>
        if stop + 4 > end || stop < cursor then Some(es)
        else
          match ParseBlocks(raw, stop + 4, end)
          case None => None
          case Some(rest) => Some(es + rest)
  }

  ghost predicate BlocksFit(crc: Checksum, gs: seq<Block>)
  {
    forall i :: 0 <= i < |gs| ==> BlockFits(crc, gs[i])
  }

  /** Whatever the split into blocks, parsing the data region gives back the entries in order. */
  lemma {:induction false} BlocksRoundTrip(crc: Checksum, raw: Bytes, at: nat, gs: seq<Block>)
    requires BlocksFit(crc, gs) && At(raw, at, EncodeBlocks(crc, gs)) && at + |EncodeBlocks(crc, gs)| <= |raw|
    ensures ParseBlocks(raw, at, at + |EncodeBlocks(crc, gs)|) == Some(Flatten(gs))
    decreases |gs|
  {
    hide At;
    hide EncodeBlock;
    hide DecodeEntries;
    hide BlockFits;
    var end := at + |EncodeBlocks(crc, gs)|;
    if gs != [] {
      var a, b := EncodeBlock(crc, gs[0]), EncodeBlocks(crc, gs[1..]);
      AtSplit(raw, at, a, b);
      BlockParts(crc, raw, at, end, gs[0]);
      BlocksRoundTrip(crc, raw, at + |a|, gs[1..]);
      if gs[1..] == [] {
        assert gs[0] + Flatten(gs[1..]) == gs[0];
      }
    }
  }

  // -------------------------------------------------------------------------
  // Index and bloom filter
  // -------------------------------------------------------------------------

  /** The index of blocks that follow each other from `offset` on. */
  function IndexOf(crc: Checksum, gs: seq<Block>, offset: nat): (index: seq<IndexEntry>)
    requires forall i :: 0 <= i < |gs| ==> gs[i] != []
    ensures |index| == |gs|
    decreases |gs|
  {
    if gs == [] then []
    else
      var size := |EncodeBlock(crc, gs[0])|;
      [IndexEntry(gs[0][0].0, offset, size)] + IndexOf(crc, gs[1..], offset + size)
  }

  function EncodeIndexEntry(e: IndexEntry): (b: Bytes)
  {
    LE(|e.firstKey|, 4) + e.firstKey + LE(e.offset, 8) + LE(e.size, 4)
  }

  function EncodeIndexEntries(es: seq<IndexEntry>): Bytes
  {
    if es == [] then [] else EncodeIndexEntry(es[0]) + EncodeIndexEntries(es[1..])
  }

  function EncodeIndex(es: seq<IndexEntry>): Bytes
  {
    LE(|es|, 4) + EncodeIndexEntries(es)
  }

  /** `n` index entries from `off` on; every block must lie between the header and `dataEnd`. */
  function ParseIndexEntries(index: Bytes, off: nat, n: nat, dataEnd: nat): Option<seq<IndexEntry>>
    decreases n
  {
    if n == 0 then Some([])
    else if off + 4 > |index| then None
    else
      var keyEnd := off + 4 + Field(index, off, 4);
      if keyEnd > |index| then None
      else if keyEnd + 8 > |index| then None
      else if keyEnd + 12 > |index| then None
      else
        var e := IndexEntry(index[off + 4..keyEnd], Field(index, keyEnd, 8), Field(index, keyEnd + 8, 4));
        if e.offset < HEADER_SIZE || e.offset + e.size > dataEnd then None
        else
          match ParseIndexEntries(index, keyEnd + 12, n - 1, dataEnd)
          case None => None
          case Some(rest) => Some([e] + rest)
  }

  function ParseIndex(index: Bytes, dataEnd: nat): Option<seq<IndexEntry>>
  {
    ParseIndexEntries(index, 4, if |index| >= 4 then Field(index, 0, 4) else 0, dataEnd)
  }

  predicate IndexEntryFits(e: IndexEntry, dataEnd: nat)
  {
    |e.firstKey| < U32_LIMIT && e.offset < U64_LIMIT && e.size < U32_LIMIT && HEADER_SIZE <= e.offset && e.offset + e.size <= dataEnd
  }

  lemma IndexEntryAt(raw: Bytes, at: nat, e: IndexEntry, dataEnd: nat)
    requires IndexEntryFits(e, dataEnd) && At(raw, at, EncodeIndexEntry(e))
    ensures var keyEnd := at + 4 + |e.firstKey|;
            && keyEnd + 12 <= |raw| && Field(raw, at, 4) == |e.firstKey| && raw[at + 4..keyEnd] == e.firstKey
            && Field(raw, keyEnd, 8) == e.offset && Field(raw, keyEnd + 8, 4) == e.size
    ensures |EncodeIndexEntry(e)| == 16 + |e.firstKey|
  {
    hide At;
    hide LE;
    hide Pow256;
    PowValues();
    var k, o, z := e.firstKey, LE(e.offset, 8), LE(e.size, 4);
    AtSplit(raw, at, LE(|k|, 4) + k + o, z);
    AtSplit(raw, at, LE(|k|, 4) + k, o);
    AtSplit(raw, at, LE(|k|, 4), k);
    AtField(raw, at, |k|, 4);
    AtSlice(raw, at + 4, k);
    AtField(raw, at + 4 + |k|, e.offset, 8);
    AtField(raw, at + 12 + |k|, e.size, 4);
  }

  /** The index entries stand one behind the other, from `places[0]` on. */
  ghost predicate IndexStands(raw: Bytes, es: seq<IndexEntry>, places: seq<nat>)
  {
    && |places| == |es| + 1
    && forall i :: 0 <= i < |es| ==> IndexEntryStands(raw, places[i], es[i], places[i + 1])
  }

  ghost predicate IndexEntryStands(raw: Bytes, at: nat, e: IndexEntry, next: nat)
  {
    var keyEnd := at + 4 + |e.firstKey|;
    && next == keyEnd + 12 && next <= |raw| && Field(raw, at, 4) == |e.firstKey| && raw[at + 4..keyEnd] == e.firstKey
    && Field(raw, keyEnd, 8) == e.offset && Field(raw, keyEnd + 8, 4) == e.size
  }

  /** Where everything stands in an index, wherever it stands. */
  lemma {:induction false} IndexEntriesLayout(raw: Bytes, at: nat, es: seq<IndexEntry>, dataEnd: nat) returns (places: seq<nat>)
    requires (forall i :: 0 <= i < |es| ==> IndexEntryFits(es[i], dataEnd)) && At(raw, at, EncodeIndexEntries(es))
    ensures IndexStands(raw, es, places) && places[0] == at && places[|es|] == at + |EncodeIndexEntries(es)|
    decreases |es|
  {
    hide At;
    hide EncodeIndexEntry;
    if es == [] {
      places := [at];
    } else {
      AtSplit(raw, at, EncodeIndexEntry(es[0]), EncodeIndexEntries(es[1..]));
      IndexEntryAt(raw, at, es[0], dataEnd);
      var next := at + |EncodeIndexEntry(es[0])|;
      var rest := IndexEntriesLayout(raw, next, es[1..], dataEnd);
      assert IndexEntryStands(raw, at, es[0], next);
      places := [at] + rest;
      hide IndexEntryStands;
      forall i | 0 <= i < |es|
        ensures IndexEntryStands(raw, places[i], es[i], places[i + 1])
      {
        if i > 0 {
          assert IndexEntryStands(raw, rest[i - 1], es[1..][i - 1], rest[i]);
        }
      }
    }
  }

  lemma {:induction false} IndexEntriesRoundTrip(index: Bytes, at: nat, es: seq<IndexEntry>, dataEnd: nat)
    requires forall i :: 0 <= i < |es| ==> IndexEntryFits(es[i], dataEnd)
    requires At(index, at, EncodeIndexEntries(es))
    ensures ParseIndexEntries(index, at, |es|, dataEnd) == Some(es)
    decreases |es|
  {
    hide At;
    hide EncodeIndexEntry;
    if es != [] {
      AtSplit(index, at, EncodeIndexEntry(es[0]), EncodeIndexEntries(es[1..]));
      IndexEntryAt(index, at, es[0], dataEnd);
      IndexEntriesRoundTrip(index, at + |EncodeIndexEntry(es[0])|, es[1..], dataEnd);
      assert [es[0]] + es[1..] == es;
    }
  }

  lemma IndexRoundTrip(es: seq<IndexEntry>, dataEnd: nat)
    requires (forall i :: 0 <= i < |es| ==> IndexEntryFits(es[i], dataEnd)) && |es| < U32_LIMIT
    ensures ParseIndex(EncodeIndex(es), dataEnd) == Some(es)
  {
    hide At;
    hide LE;
    hide Pow256;
    hide EncodeIndexEntries;
    hide ParseIndexEntries;
    hide IndexEntryFits;
    PowValues();
    var b := EncodeIndex(es);
    AtSelf(b);
    AtSplit(b, 0, LE(|es|, 4), EncodeIndexEntries(es));
    AtField(b, 0, |es|, 4);
    IndexEntriesRoundTrip(b, 4, es, dataEnd);
  }

  const NO_BLOOM: Bloom := Bloom([], 0)

  function EncodeBloom(bloom: Bloom): Bytes
  {
    if bloom.k > 0 then LE(bloom.k, 4) + LE(|bloom.bits|, 4) + bloom.bits else LE(0, 8)
  }

  /** The filter that occupies `len` bytes at `off`. */
  function ParseBloom(raw: Bytes, off: nat, len: nat): Option<Bloom>
    requires off + 8 <= |raw|
  {
    if len == 0 then Some(NO_BLOOM)
    else
      var end := off + 8 + Field(raw, off + 4, 4);
      if end > off + len || end > |raw| then None else Some(Bloom(raw[off + 8..end], Field(raw, off, 4)))
  }

  lemma BloomRoundTrip(raw: Bytes, at: nat, bloom: Bloom)
    requires bloom.k < U32_LIMIT && |bloom.bits| < U32_LIMIT && at + 8 <= |raw|
    requires At(raw, at, EncodeBloom(bloom))
    ensures ParseBloom(raw, at, |EncodeBloom(bloom)|) == Some(if bloom.k > 0 then bloom else NO_BLOOM)
  {
    PowValues();
    if bloom.k > 0 {
      hide At;
      hide LE;
      hide Pow256;
      AtSplit(raw, at, LE(bloom.k, 4) + LE(|bloom.bits|, 4), bloom.bits);
      AtSplit(raw, at, LE(bloom.k, 4), LE(|bloom.bits|, 4));
      AtField(raw, at, bloom.k, 4);
      AtField(raw, at + 4, |bloom.bits|, 4);
      AtSlice(raw, at + 8, bloom.bits);
    } else {
      ZeroHalves();
      hide At;
      hide LE;
      hide Pow256;
      AtSplit(raw, at, LE(0, 4), LE(0, 4));
      AtField(raw, at, 0, 4);
      AtField(raw, at + 4, 0, 4);
      assert raw[at + 8..at + 8] == [];
    }
  }

  lemma ZeroHalves()
    ensures LE(0, 8) == LE(0, 4) + LE(0, 4)
  {
    assert LE(0, 4) == [0, 0, 0, 0] by {
      assert LE(0, 3) == [0, 0, 0];
    }
    assert LE(0, 8) == [0, 0, 0, 0] + LE(0, 4) by {
      assert LE(0, 5) == [0] + LE(0, 4);
      assert LE(0, 6) == [0, 0] + LE(0, 4);
      assert LE(0, 7) == [0, 0, 0] + LE(0, 4);
    }
  }

  // -------------------------------------------------------------------------
  // The whole file
  // -------------------------------------------------------------------------

  function Header(count: nat, maxSequence: nat, blocks: nat): (b: Bytes)
    ensures |b| == HEADER_SIZE
  {
    LE(MAGIC, 4) + LE(VERSION, 4) + LE(count, 8) + LE(maxSequence, 8) + LE(blocks, 4) + LE(0, 4)
  }

  function Footer(bloomOffset: nat, bloomLen: nat, indexOffset: nat, indexLen: nat, count: nat): (b: Bytes)
    ensures |b| == FOOTER_SIZE - 4
  {
    LE(bloomOffset, 8) + LE(bloomLen, 8) + LE(indexOffset, 8) + LE(indexLen, 8) + LE(count, 8)
  }

  ghost predicate NonEmpty(gs: seq<Block>)
  {
    forall i :: 0 <= i < |gs| ==> gs[i] != []
  }

  /** An empty segment has no bloom region at all. */
  function BloomBytes(gs: seq<Block>, bloom: Bloom): Bytes
  {
    if gs == [] then [] else EncodeBloom(bloom)
  }

  /** The data region ends where the bloom filter begins. */
  function BloomOffset(crc: Checksum, gs: seq<Block>): nat
  {
    HEADER_SIZE + |EncodeBlocks(crc, gs)|
  }

  function Body(crc: Checksum, gs: seq<Block>, maxSequence: nat, bloom: Bloom): Bytes
    requires NonEmpty(gs)
  {
    var count := |Flatten(gs)|;
    var data, filter, index := EncodeBlocks(crc, gs), BloomBytes(gs, bloom), EncodeIndex(IndexOf(crc, gs, HEADER_SIZE));
    var at := BloomOffset(crc, gs);
    Header(count, maxSequence, |gs|) + data + filter + index + Footer(at, |filter|, at + |filter|, |index|, count)
  }

  function File(crc: Checksum, gs: seq<Block>, maxSequence: nat, bloom: Bloom): Bytes
    requires NonEmpty(gs)
  {
    Body(crc, gs, maxSequence, bloom) + LE(crc(Body(crc, gs, maxSequence, bloom)), 4)
  }

  /** An open segment: its bytes, its entries in file order, its index and its bloom filter. */
  datatype Segment = Segment(raw: Bytes, entries: seq<Entry>, index: seq<IndexEntry>, bloom: Bloom, maxSequence: nat, count: nat)

  /** Bloom filter, index and blocks, once their places are known to lie in the file. */
  function ParseRegions(raw: Bytes, bloomOffset: nat, bloomLen: nat, indexOffset: nat, indexLen: nat): Result<Segment, StoreError>
    requires HEADER_SIZE <= bloomOffset && bloomOffset + bloomLen <= |raw| - FOOTER_SIZE
    requires indexOffset + indexLen <= |raw| - FOOTER_SIZE
  {
    match ParseBloom(raw, bloomOffset, bloomLen)
    case None => Err(Storage)
    case Some(bloom) =>
      match ParseIndex(raw[indexOffset..indexOffset + indexLen], |raw| - FOOTER_SIZE)
      case None => Err(Storage)
      case Some(index) =>
        match ParseBlocks(raw, HEADER_SIZE, bloomOffset)
        case None => Err(Storage)
        case Some(entries) => Ok(Segment(raw, entries, index, bloom, Field(raw, 16, 8), Field(raw, 8, 8)))
  }

  function Parse(crc: Checksum, raw: Bytes): Result<Segment, StoreError>
  {
    if |raw| < HEADER_SIZE + FOOTER_SIZE then Err(Storage)
    else if Field(raw, |raw| - 4, 4) != crc(raw[..|raw| - 4]) then Err(Storage)
    else if Field(raw, 0, 4) != MAGIC || Field(raw, 4, 4) != VERSION then Err(Storage)
    else
      var dataEnd := |raw| - FOOTER_SIZE;
      var bloomOffset, bloomLen := Field(raw, dataEnd, 8), Field(raw, dataEnd + 8, 8);
      var indexOffset, indexLen := Field(raw, dataEnd + 16, 8), Field(raw, dataEnd + 24, 8);
      if bloomOffset < HEADER_SIZE || bloomOffset + bloomLen > dataEnd then Err(Storage)
      else if indexOffset < bloomOffset || indexOffset + indexLen > dataEnd then Err(Storage)
      else ParseRegions(raw, bloomOffset, bloomLen, indexOffset, indexLen)
  }

  // -------------------------------------------------------------------------
  // Round trip
  // -------------------------------------------------------------------------

  lemma HeadFits(crc: Checksum, g: Block, offset: nat, dataEnd: nat)
    requires BlockFits(crc, g) && HEADER_SIZE <= offset && offset + |EncodeBlock(crc, g)| <= dataEnd < U64_LIMIT
    ensures IndexEntryFits(IndexEntry(g[0].0, offset, |EncodeBlock(crc, g)|), dataEnd)
  {
    hide EncodeBlock;
    EntryKeyFits(g[0]);
  }

  lemma {:induction false} IndexFits(crc: Checksum, gs: seq<Block>, offset: nat, dataEnd: nat)
    requires BlocksFit(crc, gs) && NonEmpty(gs) && HEADER_SIZE <= offset && offset + |EncodeBlocks(crc, gs)| <= dataEnd < U64_LIMIT
    ensures forall i :: 0 <= i < |gs| ==> IndexEntryFits(IndexOf(crc, gs, offset)[i], dataEnd)
    ensures 8 * |gs| <= |EncodeBlocks(crc, gs)|
    decreases |gs|
  {
    hide EncodeBlock;
    hide BlockFits;
    hide IndexEntryFits;
    if gs != [] {
      HeadFits(crc, gs[0], offset, dataEnd);
      IndexFits(crc, gs[1..], offset + |EncodeBlock(crc, gs[0])|, dataEnd);
    }
  }

  lemma EntryKeyFits(e: Entry)
    requires EntryFits(e)
    ensures |e.0| < U32_LIMIT
  {
  }

  lemma HeaderAt(raw: Bytes, count: nat, maxSequence: nat, blocks: nat)
    requires At(raw, 0, Header(count, maxSequence, blocks)) && count < U64_LIMIT && maxSequence < U64_LIMIT
    ensures |raw| >= HEADER_SIZE && Field(raw, 0, 4) == MAGIC && Field(raw, 4, 4) == VERSION
    ensures Field(raw, 8, 8) == count && Field(raw, 16, 8) == maxSequence
  {
    hide At;
    hide LE;
    hide Pow256;
    PowValues();
    var a, b, c, d := LE(MAGIC, 4), LE(VERSION, 4), LE(count, 8), LE(maxSequence, 8);
    AtSplit(raw, 0, a + b + c + d + LE(blocks, 4), LE(0, 4));
    AtSplit(raw, 0, a + b + c + d, LE(blocks, 4));
    AtSplit(raw, 0, a + b + c, d);
    AtSplit(raw, 0, a + b, c);
    AtSplit(raw, 0, a, b);
    AtField(raw, 0, MAGIC, 4);
    AtField(raw, 4, VERSION, 4);
    AtField(raw, 8, count, 8);
    AtField(raw, 16, maxSequence, 8);
    AtEnd(raw, 24, LE(blocks, 4), LE(0, 4));
  }

  lemma AtEnd(raw: Bytes, at: nat, a: Bytes, b: Bytes)
    requires At(raw, at + |a|, b)
    ensures at + |a| + |b| <= |raw|
  {
  }

  lemma FooterAt(raw: Bytes, at: nat, bo: nat, bl: nat, io: nat, il: nat, count: nat)
    requires At(raw, at, Footer(bo, bl, io, il, count))
    requires bo < U64_LIMIT && bl < U64_LIMIT && io < U64_LIMIT && il < U64_LIMIT
    ensures at + 32 <= |raw| && Field(raw, at, 8) == bo && Field(raw, at + 8, 8) == bl
    ensures Field(raw, at + 16, 8) == io && Field(raw, at + 24, 8) == il
  {
    hide At;
    hide LE;
    hide Pow256;
    PowValues();
    var a, b, c, d := LE(bo, 8), LE(bl, 8), LE(io, 8), LE(il, 8);
    AtSplit(raw, at, a + b + c + d, LE(count, 8));
    AtSplit(raw, at, a + b + c, d);
    AtSplit(raw, at, a + b, c);
    AtSplit(raw, at, a, b);
    AtField(raw, at, bo, 8);
    AtField(raw, at + 8, bl, 8);
    AtField(raw, at + 16, io, 8);
    AtField(raw, at + 24, il, 8);
  }

  /** The parts of a file, where they stand. */
  lemma FileAt(crc: Checksum, gs: seq<Block>, maxSequence: nat, bloom: Bloom)
    requires NonEmpty(gs)
    ensures var raw, count, at := File(crc, gs, maxSequence, bloom), |Flatten(gs)|, BloomOffset(crc, gs);
            var filter, index := BloomBytes(gs, bloom), EncodeIndex(IndexOf(crc, gs, HEADER_SIZE));
            && |raw| == at + |filter| + |index| + FOOTER_SIZE
            && At(raw, 0, Header(count, maxSequence, |gs|)) && At(raw, HEADER_SIZE, EncodeBlocks(crc, gs))
            && At(raw, at, filter) && At(raw, at + |filter|, index)
            && At(raw, at + |filter| + |index|, Footer(at, |filter|, at + |filter|, |index|, count))
            && Field(raw, |raw| - 4, 4) == crc(raw[..|raw| - 4])
  {
    hide At;
    hide EncodeBlocks;
    hide EncodeIndex;
    hide IndexOf;
    hide BloomBytes;
    hide Flatten;
    hide Header;
    hide Footer;
    hide LE;
    hide Pow256;
    PowValues();
    var raw, count, at := File(crc, gs, maxSequence, bloom), |Flatten(gs)|, BloomOffset(crc, gs);
    var data, filter, index := EncodeBlocks(crc, gs), BloomBytes(gs, bloom), EncodeIndex(IndexOf(crc, gs, HEADER_SIZE));
    var header, footer := Header(count, maxSequence, |gs|), Footer(at, |filter|, at + |filter|, |index|, count);
    var body := Body(crc, gs, maxSequence, bloom);
    AtSelf(raw);
    AtSplit(raw, 0, body, LE(crc(body), 4));
    AtSplit(raw, 0, header + data + filter + index, footer);
    AtSplit(raw, 0, header + data + filter, index);
    AtSplit(raw, 0, header + data, filter);
    AtSplit(raw, 0, header, data);
    AtField(raw, |body|, crc(body), 4);
    assert raw[..|raw| - 4] == body;
  }

  /** Sizes that the fields of the file can hold. */
  ghost predicate FileFits(crc: Checksum, gs: seq<Block>, maxSequence: nat, bloom: Bloom)
  {
    && NonEmpty(gs) && BlocksFit(crc, gs) && |gs| < U32_LIMIT && |Flatten(gs)| < U64_LIMIT
    && maxSequence < U64_LIMIT && bloom.k < U32_LIMIT && |bloom.bits| < U32_LIMIT
    && |File(crc, gs, maxSequence, bloom)| < U64_LIMIT
  }

  /** The filter as it is read back. */
  function StoredBloom(gs: seq<Block>, bloom: Bloom): Bloom
  {
    if gs == [] || bloom.k == 0 then NO_BLOOM else bloom
  }

  lemma BloomAt(raw: Bytes, at: nat, gs: seq<Block>, bloom: Bloom)
    requires bloom.k < U32_LIMIT && |bloom.bits| < U32_LIMIT && at + 8 <= |raw|
    requires At(raw, at, BloomBytes(gs, bloom))
    ensures ParseBloom(raw, at, |BloomBytes(gs, bloom)|) == Some(StoredBloom(gs, bloom))
  {
    if gs != [] {
      BloomRoundTrip(raw, at, bloom);
    }
  }

  lemma RegionsRoundTrip(crc: Checksum, raw: Bytes, gs: seq<Block>, bloom: Bloom)
    requires NonEmpty(gs) && BlocksFit(crc, gs) && |gs| < U32_LIMIT && bloom.k < U32_LIMIT && |bloom.bits| < U32_LIMIT
    requires var at, filter, index := BloomOffset(crc, gs), BloomBytes(gs, bloom), EncodeIndex(IndexOf(crc, gs, HEADER_SIZE));
             && |raw| == at + |filter| + |index| + FOOTER_SIZE < U64_LIMIT
             && At(raw, HEADER_SIZE, EncodeBlocks(crc, gs)) && At(raw, at, filter) && At(raw, at + |filter|, index)
    ensures var at, filter, index := BloomOffset(crc, gs), BloomBytes(gs, bloom), EncodeIndex(IndexOf(crc, gs, HEADER_SIZE));
            ParseRegions(raw, at, |filter|, at + |filter|, |index|) ==
            Ok(Segment(raw, Flatten(gs), IndexOf(crc, gs, HEADER_SIZE), StoredBloom(gs, bloom), Field(raw, 16, 8), Field(raw, 8, 8)))
  {
    hide At;
    hide EncodeBlocks;
    hide EncodeIndex;
    hide IndexOf;
    hide BloomBytes;
    hide StoredBloom;
    hide Flatten;
    hide ParseBloom;
    hide ParseIndex;
    hide ParseBlocks;
    hide BlocksFit;
    hide IndexEntryFits;
    hide Field;
    var at, filter, index := BloomOffset(crc, gs), BloomBytes(gs, bloom), EncodeIndex(IndexOf(crc, gs, HEADER_SIZE));
    BloomAt(raw, at, gs, bloom);
    IndexFits(crc, gs, HEADER_SIZE, |raw| - FOOTER_SIZE);
    AtSlice(raw, at + |filter|, index);
    IndexRoundTrip(IndexOf(crc, gs, HEADER_SIZE), |raw| - FOOTER_SIZE);
    BlocksRoundTrip(crc, raw, HEADER_SIZE, gs);
  }

  /**
   * Round trip. Parsing the bytes of a segment gives back exactly the entries written, in
   * order, whatever the split into blocks, with the index of those blocks, the bloom filter
   * and the declared maximum.
   */
  lemma FileRoundTrip(crc: Checksum, gs: seq<Block>, maxSequence: nat, bloom: Bloom)
    requires FileFits(crc, gs, maxSequence, bloom)
    ensures Parse(crc, File(crc, gs, maxSequence, bloom)) ==
            Ok(Segment(File(crc, gs, maxSequence, bloom), Flatten(gs), IndexOf(crc, gs, HEADER_SIZE), StoredBloom(gs, bloom),
                       maxSequence, |Flatten(gs)|))
  {
    hide At;
    hide File;
    hide EncodeBlocks;
    hide EncodeIndex;
    hide IndexOf;
    hide BloomBytes;
    hide Flatten;
    hide ParseRegions;
    hide BlocksFit;
    hide Header;
    hide Footer;
    hide Field;
    var raw, count, at := File(crc, gs, maxSequence, bloom), |Flatten(gs)|, BloomOffset(crc, gs);
    var filter, index := BloomBytes(gs, bloom), EncodeIndex(IndexOf(crc, gs, HEADER_SIZE));
    FileAt(crc, gs, maxSequence, bloom);
    HeaderAt(raw, count, maxSequence, |gs|);
    FooterAt(raw, |raw| - FOOTER_SIZE, at, |filter|, at + |filter|, |index|, count);
    RegionsRoundTrip(crc, raw, gs, bloom);
  }

  // -------------------------------------------------------------------------
  // The layout, byte by byte
  // -------------------------------------------------------------------------

  /** The header: magic, version, number of entries, declared maximum, number of blocks, zero. */
  ghost predicate HeaderStands(raw: Bytes, count: nat, maxSequence: nat, blocks: nat)
  {
    && |raw| >= 32 && Field(raw, 0, 4) == 0x5345_4742 && Field(raw, 4, 4) == 2 && Field(raw, 8, 8) == count
    && Field(raw, 16, 8) == maxSequence && Field(raw, 24, 4) == blocks && Field(raw, 28, 4) == 0
  }

  /** The footer, the last 44 bytes: where the filter and the index stand and how long they are, the number of
      entries, and the checksum of everything before it. */
  ghost predicate FooterStands(crc: Checksum, raw: Bytes, bloomOffset: nat, bloomLen: nat, indexOffset: nat, indexLen: nat,
                               count: nat)
  {
    && |raw| >= 44
    && Field(raw, |raw| - 44, 8) == bloomOffset && Field(raw, |raw| - 36, 8) == bloomLen
    && Field(raw, |raw| - 28, 8) == indexOffset && Field(raw, |raw| - 20, 8) == indexLen
    && Field(raw, |raw| - 12, 8) == count && Field(raw, |raw| - 4, 4) == crc(raw[..|raw| - 4])
  }

  lemma HeaderLayout(raw: Bytes, count: nat, maxSequence: nat, blocks: nat)
    requires At(raw, 0, Header(count, maxSequence, blocks))
    requires count < U64_LIMIT && maxSequence < U64_LIMIT && blocks < U32_LIMIT
    ensures HeaderStands(raw, count, maxSequence, blocks)
  {
    HeaderAt(raw, count, maxSequence, blocks);
    hide At;
    hide LE;
    hide Pow256;
    PowValues();
    var a, b, c, d := LE(MAGIC, 4), LE(VERSION, 4), LE(count, 8), LE(maxSequence, 8);
    AtSplit(raw, 0, a + b + c + d + LE(blocks, 4), LE(0, 4));
    AtSplit(raw, 0, a + b + c + d, LE(blocks, 4));
    AtField(raw, 24, blocks, 4);
    AtField(raw, 28, 0, 4);
  }

  lemma CountAt(raw: Bytes, at: nat, bo: nat, bl: nat, io: nat, il: nat, count: nat)
    requires At(raw, at, Footer(bo, bl, io, il, count)) && count < U64_LIMIT
    ensures at + 40 <= |raw| && Field(raw, at + 32, 8) == count
  {
    hide At;
    hide LE;
    hide Pow256;
    PowValues();
    AtSplit(raw, at, LE(bo, 8) + LE(bl, 8) + LE(io, 8) + LE(il, 8), LE(count, 8));
    AtField(raw, at + 32, count, 8);
  }

  /** Where everything stands in a segment file. */
  lemma FileLayout(crc: Checksum, gs: seq<Block>, maxSequence: nat, bloom: Bloom)
    requires FileFits(crc, gs, maxSequence, bloom)
    ensures var raw, at := File(crc, gs, maxSequence, bloom), BloomOffset(crc, gs);
            var filter, index := BloomBytes(gs, bloom), EncodeIndex(IndexOf(crc, gs, HEADER_SIZE));
            && |raw| == at + |filter| + |index| + 44
            && HeaderStands(raw, |Flatten(gs)|, maxSequence, |gs|) && at >= 32 && raw[32..at] == EncodeBlocks(crc, gs)
            && raw[at..at + |filter|] == filter && raw[at + |filter|..|raw| - 44] == index
            && FooterStands(crc, raw, at, |filter|, at + |filter|, |index|, |Flatten(gs)|)
  {
    hide At;
    hide File;
    hide EncodeBlocks;
    hide EncodeIndex;
    hide IndexOf;
    hide BloomBytes;
    hide Flatten;
    hide BlocksFit;
    hide Header;
    hide Footer;
    hide Field;
    hide HeaderStands;
    var raw, count, at := File(crc, gs, maxSequence, bloom), |Flatten(gs)|, BloomOffset(crc, gs);
    var filter, index := BloomBytes(gs, bloom), EncodeIndex(IndexOf(crc, gs, HEADER_SIZE));
    FileAt(crc, gs, maxSequence, bloom);
    HeaderLayout(raw, count, maxSequence, |gs|);
    FooterAt(raw, |raw| - FOOTER_SIZE, at, |filter|, at + |filter|, |index|, count);
    CountAt(raw, |raw| - FOOTER_SIZE, at, |filter|, at + |filter|, |index|, count);
    AtSlice(raw, 32, EncodeBlocks(crc, gs));
    AtSlice(raw, at, filter);
    AtSlice(raw, at + |filter|, index);
  }

  /** The index region: the number of blocks and one entry for each, one behind the other. */
  lemma IndexLayout(crc: Checksum, gs: seq<Block>, dataEnd: nat) returns (places: seq<nat>)
    requires BlocksFit(crc, gs) && NonEmpty(gs) && |gs| < U32_LIMIT && HEADER_SIZE + |EncodeBlocks(crc, gs)| <= dataEnd < U64_LIMIT
    ensures var b := EncodeIndex(IndexOf(crc, gs, HEADER_SIZE));
            && Field(b, 0, 4) == |gs| && IndexStands(b, IndexOf(crc, gs, HEADER_SIZE), places)
            && places[0] == 4 && places[|gs|] == |b|
  {
    hide At;
    hide LE;
    hide Pow256;
    hide EncodeIndexEntries;
    hide EncodeBlocks;
    hide BlocksFit;
    hide IndexEntryFits;
    hide IndexOf;
    hide IndexStands;
    PowValues();
    var es := IndexOf(crc, gs, HEADER_SIZE);
    var b := EncodeIndex(es);
    IndexFits(crc, gs, HEADER_SIZE, dataEnd);
    AtSelf(b);
    AtSplit(b, 0, LE(|es|, 4), EncodeIndexEntries(es));
    AtField(b, 0, |es|, 4);
    places := IndexEntriesLayout(b, 4, es, dataEnd);
    StandsLength(b, es, places);
  }

  lemma StandsLength(raw: Bytes, es: seq<IndexEntry>, places: seq<nat>)
    requires IndexStands(raw, es, places)
    ensures |places| == |es| + 1
  {
  }

  /** The filter region: the number of hashes, the length, the bits. */
  lemma BloomLayout(bloom: Bloom)
    requires bloom.k < U32_LIMIT && |bloom.bits| < U32_LIMIT
    ensures var b := EncodeBloom(bloom);
            && |b| == 8 + (if bloom.k > 0 then |bloom.bits| else 0)
            && Field(b, 0, 4) == bloom.k && (if bloom.k > 0 then Field(b, 4, 4) == |bloom.bits| else Field(b, 4, 4) == 0)
            && (bloom.k > 0 ==> b[8..] == bloom.bits)
  {
    var b := EncodeBloom(bloom);
    PowValues();
    AtSelf(b);
    ZeroHalves();
    hide At;
    hide LE;
    hide Pow256;
    if bloom.k > 0 {
      AtSplit(b, 0, LE(bloom.k, 4) + LE(|bloom.bits|, 4), bloom.bits);
      AtSplit(b, 0, LE(bloom.k, 4), LE(|bloom.bits|, 4));
      AtField(b, 0, bloom.k, 4);
      AtField(b, 4, |bloom.bits|, 4);
    } else {
      AtSplit(b, 0, LE(0, 4), LE(0, 4));
      AtField(b, 0, 0, 4);
      AtField(b, 4, 0, 4);
    }
  }

  /** Opening accepts nothing whose checksum, magic number or version is wrong, or whose regions reach outside the file. */
  lemma OpensOnlySound(crc: Checksum, raw: Bytes)
    requires Parse(crc, raw).Ok?
    ensures |raw| >= 76 && Field(raw, |raw| - 4, 4) == crc(raw[..|raw| - 4])
    ensures Field(raw, 0, 4) == 0x5345_4742 && Field(raw, 4, 4) == 2
    ensures var bloomEnd := Field(raw, |raw| - 44, 8) + Field(raw, |raw| - 36, 8);
            var indexEnd := Field(raw, |raw| - 28, 8) + Field(raw, |raw| - 20, 8);
            && 32 <= Field(raw, |raw| - 44, 8) <= Field(raw, |raw| - 28, 8) && bloomEnd <= |raw| - 44 && indexEnd <= |raw| - 44
  {
    hide Field;
    hide ParseRegions;
  }

  // -------------------------------------------------------------------------
  // The index tiles the data region
  // -------------------------------------------------------------------------

  lemma {:induction false} BlocksAt(crc: Checksum, raw: Bytes, at: nat, gs: seq<Block>, i: nat)
    requires NonEmpty(gs) && At(raw, at, EncodeBlocks(crc, gs)) && i < |gs|
    ensures var index := IndexOf(crc, gs, at);
            && index[i].firstKey == gs[i][0].0 && index[i].size == |EncodeBlock(crc, gs[i])|
            && index[i].offset == at + |EncodeBlocks(crc, gs[..i])|
            && At(raw, index[i].offset, EncodeBlock(crc, gs[i]))
    decreases |gs|
  {
    hide At;
    hide EncodeBlock;
    var a, b := EncodeBlock(crc, gs[0]), EncodeBlocks(crc, gs[1..]);
    AtSplit(raw, at, a, b);
    if i > 0 {
      BlocksAt(crc, raw, at + |a|, gs[1..], i - 1);
      assert gs[..i][0] == gs[0] && gs[..i][1..] == gs[1..][..i - 1];
    }
  }

  /**
   * The (offset, size) pairs of the index tile the data region: the first block starts after
   * the header, each starts where the one before ends, the last ends where the bloom filter
   * begins, and each holds exactly its block.
   */
  lemma IndexTiles(crc: Checksum, gs: seq<Block>, maxSequence: nat, bloom: Bloom, i: nat)
    requires NonEmpty(gs) && i < |gs|
    ensures var raw, index := File(crc, gs, maxSequence, bloom), IndexOf(crc, gs, HEADER_SIZE);
            && At(raw, index[i].offset, EncodeBlock(crc, gs[i])) && index[i].size == |EncodeBlock(crc, gs[i])|
            && (i == 0 ==> index[i].offset == HEADER_SIZE)
            && index[i].offset + index[i].size == if i + 1 < |gs| then index[i + 1].offset else BloomOffset(crc, gs)
  {
    hide At;
    hide EncodeBlock;
    hide File;
    var raw := File(crc, gs, maxSequence, bloom);
    FileAt(crc, gs, maxSequence, bloom);
    BlocksAt(crc, raw, HEADER_SIZE, gs, i);
    BlocksSnoc(crc, gs, i);
    if i + 1 < |gs| {
      BlocksAt(crc, raw, HEADER_SIZE, gs, i + 1);
    } else {
      assert gs[..i + 1] == gs;
    }
    assert gs[..0] == [];
  }

  lemma {:induction false} BlocksSnoc(crc: Checksum, gs: seq<Block>, i: nat)
    requires i < |gs|
    ensures EncodeBlocks(crc, gs[..i + 1]) == EncodeBlocks(crc, gs[..i]) + EncodeBlock(crc, gs[i])
    ensures Flatten(gs[..i + 1]) == Flatten(gs[..i]) + gs[i]
    decreases i
  {
    hide EncodeBlock;
    var front := gs[..i + 1];
    assert front[0] == gs[0] && front[1..] == gs[1..][..i];
    if i > 0 {
      BlocksSnoc(crc, gs[1..], i - 1);
      assert gs[..i][0] == gs[0] && gs[..i][1..] == gs[1..][..i - 1];
      Reassoc(EncodeBlock(crc, gs[0]), EncodeBlocks(crc, gs[1..][..i - 1]), EncodeBlock(crc, gs[i]));
      Reassoc(gs[0], Flatten(gs[1..][..i - 1]), gs[i]);
    } else {
      assert front[1..] == [] && gs[..0] == [];
      assert EncodeBlock(crc, gs[0]) + [] == [] + EncodeBlock(crc, gs[0]);
      assert gs[0] + [] == [] + gs[0];
    }
  }

  lemma Reassoc<T>(a: seq<T>, b: seq<T>, c: seq<T>)
    ensures a + (b + c) == a + b + c
  {
  }
}
