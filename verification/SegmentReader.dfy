/**
 * Writing a segment block by block, and the block-cached read: bloom filter, index, one
 * block, decode.
 */
module SegmentReaders {
  import opened Encoding
  import opened Options
  import opened Versions
  import opened Sorting
  import opened MemTables
  import opened SegmentCodec

  // -------------------------------------------------------------------------
  // Bloom filter
  // -------------------------------------------------------------------------

  /** Two 64-bit hashes of a key. */
  type Hash = Key -> (nat, nat)

  /** Bit `j` of a number. */
  predicate Bit(b: nat, j: nat)
    decreases j
  {
    if j == 0 then b % 2 == 1 else Bit(b / 2, j - 1)
  }

  /** The number with bit `j` set. */
  function WithBit(b: nat, j: nat): nat
    decreases j
  {
    if j == 0 then b - b % 2 + 1 else b % 2 + 2 * WithBit(b / 2, j - 1)
  }

  lemma {:induction false} WithBitSets(b: nat, j: nat, i: nat)
    ensures Bit(WithBit(b, j), i) <==> i == j || Bit(b, i)
    decreases j
  {
    var r := WithBit(b, j);
    if j == 0 {
      assert r / 2 == b / 2 && r % 2 == 1;
    } else {
      assert r / 2 == WithBit(b / 2, j - 1) && r % 2 == b % 2;
      if i > 0 {
        WithBitSets(b / 2, j - 1, i - 1);
      }
    }
  }

  function Pow2(n: nat): nat
  {
    if n == 0 then 1 else 2 * Pow2(n - 1)
  }

  /** Bit `j` is the one that the power of two stands for. */
  lemma {:induction false} BitIs(b: nat, j: nat)
    ensures Pow2(j) > 0
    ensures Bit(b, j) <==> b / Pow2(j) % 2 == 1
    decreases j
  {
    if j > 0 {
      BitIs(b / 2, j - 1);
      HalfTwice(b, Pow2(j - 1));
    }
  }

  lemma HalfTwice(b: nat, p: nat)
    requires p > 0
    ensures b / (2 * p) == b / 2 / p
  {
    var q, r := b / 2 / p, b / 2 % p;
    assert b / 2 == q * p + r;
    assert b == q * (2 * p) + (2 * r + b % 2);
    Quotient(q, 2 * p, 2 * r + b % 2);
  }

  lemma Quotient(q: nat, d: nat, r: nat)
    requires r < d
    ensures (q * d + r) / d == q
  {
    var n := q * d + r;
    assert n == n / d * d + n % d;
    Apart(n / d, q, d);
    Apart(q, n / d, d);
  }

  lemma Apart(a: nat, b: nat, d: nat)
    ensures a < b ==> a * d + d <= b * d
  {
    if a < b {
      Multiple(b - a - 1, d);
      assert b == a + 1 + (b - a - 1);
      assert (a + 1 + (b - a - 1)) * d == a * d + d + (b - a - 1) * d;
    }
  }

  lemma Multiple(n: nat, d: nat)
    ensures n * d >= 0
  {
  }

  lemma {:induction false} WithBitBound(b: nat, j: nat, n: nat)
    requires b < Pow2(n) && j < n
    ensures WithBit(b, j) < Pow2(n)
    decreases n
  {
    if j > 0 {
      WithBitBound(b / 2, j - 1, n - 1);
    } else {
      assert b / 2 < Pow2(n - 1);
    }
  }

  /** A byte with one of its eight bits set. */
  function SetInByte(b: byte, j: nat): byte
    requires j < 8
  {
    assert Pow2(8) == 256 by {
      assert Pow2(4) == 16;
    }
    WithBitBound(b, j, 8);
    WithBit(b, j)
  }

  predicate TestBit(bits: Bytes, pos: nat)
    requires pos < 8 * |bits|
  {
    Bit(bits[pos / 8], pos % 8)
  }

  function SetBit(bits: Bytes, pos: nat): (r: Bytes)
    requires pos < 8 * |bits|
    ensures |r| == |bits|
  {
    bits[pos / 8 := SetInByte(bits[pos / 8], pos % 8)]
  }

  lemma SetBitSets(bits: Bytes, pos: nat, other: nat)
    requires pos < 8 * |bits| && other < 8 * |bits|
    ensures TestBit(SetBit(bits, pos), other) <==> other == pos || TestBit(bits, other)
  {
    WithBitSets(bits[pos / 8], pos % 8, other % 8);
    assert other == pos <==> other / 8 == pos / 8 && other % 8 == pos % 8;
    hide WithBit;
    hide Bit;
  }

  /** The `i`-th position of a key in a filter of `m` bits; 64-bit arithmetic wraps. */
  function Position(hash: Hash, key: Key, i: nat, m: nat): (pos: nat)
    requires m > 0
    ensures pos < m
  {
    var (h1, h2) := hash(key);
    (h1 + i * h2 % U64_LIMIT) % U64_LIMIT % m
  }

  /** It is the exact sum taken modulo 2 to the 64 and then modulo the number of bits. */
  lemma PositionIs(hash: Hash, key: Key, i: nat, m: nat)
    requires m > 0
    ensures Position(hash, key, i, m) == (hash(key).0 + i * hash(key).1) % 0x1_0000_0000_0000_0000 % m
  {
    var (h1, h2) := hash(key);
    WrapsOnce(h1, i * h2);
  }

  lemma WrapsOnce(a: nat, b: nat)
    ensures (a + b % U64_LIMIT) % U64_LIMIT == (a + b) % U64_LIMIT
  {
    var q := b / U64_LIMIT;
    assert b == q * U64_LIMIT + b % U64_LIMIT;
    SameRest(a + b % U64_LIMIT, q);
  }

  lemma {:induction false} SameRest(n: nat, q: nat)
    ensures (n + q * U64_LIMIT) % U64_LIMIT == n % U64_LIMIT
  {
    if q > 0 {
      SameRest(n, q - 1);
      assert n + q * U64_LIMIT == n + (q - 1) * U64_LIMIT + U64_LIMIT;
    }
  }

  /** All `k` positions of the key are set. */
  predicate Contains(hash: Hash, bloom: Bloom, key: Key)
  {
    bloom.k > 0 && bloom.bits != []
    && forall i :: 0 <= i < bloom.k ==> TestBit(bloom.bits, Position(hash, key, i, 8 * |bloom.bits|))
  }

  /** One of the key's `k` positions is `pos`. */
  ghost predicate Falls(hash: Hash, key: Key, k: nat, m: nat, pos: nat)
    requires m > 0
  {
    exists i: nat :: i < k && Position(hash, key, i, m) == pos
  }

  /** A listed key has a position there. */
  ghost predicate SomeFalls(hash: Hash, es: seq<Entry>, k: nat, m: nat, pos: nat)
    requires m > 0
  {
    exists e :: e in es && Falls(hash, e.0, k, m, pos)
  }

  /** Exactly the positions of the listed keys are set. */
  ghost predicate SetExactly(hash: Hash, bloom: Bloom, es: seq<Entry>)
  {
    bloom.bits != [] && forall pos: nat :: pos < 8 * |bloom.bits| ==>
      (TestBit(bloom.bits, pos) <==> SomeFalls(hash, es, bloom.k, 8 * |bloom.bits|, pos))
  }

  /** A key is contained exactly when each of its positions is a position of a listed key. */
  lemma ContainsIff(hash: Hash, bloom: Bloom, es: seq<Entry>, key: Key)
    requires SetExactly(hash, bloom, es)
    ensures Contains(hash, bloom, key) <==> bloom.k > 0 && forall i: nat :: i < bloom.k ==>
              SomeFalls(hash, es, bloom.k, 8 * |bloom.bits|, Position(hash, key, i, 8 * |bloom.bits|))
  {
    hide Position;
    hide TestBit;
    hide SomeFalls;
    forall i: nat
      ensures TestBit(bloom.bits, Position(hash, key, i, 8 * |bloom.bits|)) <==>
                SomeFalls(hash, es, bloom.k, 8 * |bloom.bits|, Position(hash, key, i, 8 * |bloom.bits|))
    {
      var pos := Position(hash, key, i, 8 * |bloom.bits|);
    }
  }

  /** Sets the positions of a key. */
  method InsertKey(hash: Hash, bloom: Bloom, key: Key) returns (r: Bloom)
    requires bloom.k > 0 ==> bloom.bits != []
    ensures r.k == bloom.k && |r.bits| == |bloom.bits|
    ensures bloom.k > 0 ==> Contains(hash, r, key)
    ensures forall other :: Contains(hash, bloom, other) ==> Contains(hash, r, other)
    ensures bloom.bits != [] ==> forall pos: nat :: pos < 8 * |bloom.bits| ==>
              (TestBit(r.bits, pos) <==> TestBit(bloom.bits, pos) || Falls(hash, key, bloom.k, 8 * |bloom.bits|, pos))
  {
    hide Position;
    hide TestBit;
    hide SetBit;
    r := bloom;
    NoFalls(hash, key, 8 * |bloom.bits|);
    if bloom.k == 0 {
      return;
    }
    var m := 8 * |bloom.bits|;
    for i := 0 to bloom.k
      invariant r.k == bloom.k && |r.bits| == |bloom.bits|
      invariant forall pos :: 0 <= pos < m && TestBit(bloom.bits, pos) ==> TestBit(r.bits, pos)
      invariant forall j :: 0 <= j < i ==> TestBit(r.bits, Position(hash, key, j, m))
      invariant forall pos: nat :: pos < m ==>
                  (TestBit(r.bits, pos) <==> TestBit(bloom.bits, pos) || Falls(hash, key, i, m, pos))
    {
      var pos := Position(hash, key, i, m);
      SetOne(r.bits, pos);
      OneMoreFalls(hash, key, i, m);
      r := r.(bits := SetBit(r.bits, pos));
    }
  }

  lemma NoFalls(hash: Hash, key: Key, m: nat)
    ensures m > 0 ==> forall pos: nat :: !Falls(hash, key, 0, m, pos)
  {
  }

  lemma OneMoreFalls(hash: Hash, key: Key, i: nat, m: nat)
    requires m > 0
    ensures forall pos: nat :: Falls(hash, key, i + 1, m, pos) <==> Falls(hash, key, i, m, pos) || pos == Position(hash, key, i, m)
  {
    hide Position;
    forall pos: nat
      ensures Falls(hash, key, i + 1, m, pos) <==> Falls(hash, key, i, m, pos) || pos == Position(hash, key, i, m)
    {
      if pos == Position(hash, key, i, m) {
        assert i < i + 1;
      }
    }
  }

  lemma SetOne(bits: Bytes, pos: nat)
    requires pos < 8 * |bits|
    ensures forall other :: 0 <= other < 8 * |bits| ==>
              (TestBit(SetBit(bits, pos), other) <==> other == pos || TestBit(bits, other))
  {
    hide SetBit;
    forall other | 0 <= other < 8 * |bits|
      ensures TestBit(SetBit(bits, pos), other) <==> other == pos || TestBit(bits, other)
    {
      SetBitSets(bits, pos, other);
    }
  }

  /** No false negatives: the filter of a list of entries contains each of their keys. */
  ghost predicate Covers(hash: Hash, bloom: Bloom, es: seq<Entry>)
  {
    forall e :: e in es ==> Contains(hash, bloom, e.0)
  }

  /** Builds the filter of a segment. Its size and number of hashes come from a floating-point estimate; any
      will do. */
  method BuildBloom(hash: Hash, es: seq<Entry>, bytes: nat, k: nat) returns (bloom: Bloom)
    requires bytes > 0 && k > 0
    ensures Covers(hash, bloom, es) && SetExactly(hash, bloom, es) && bloom.k == k && |bloom.bits| == bytes
  {
    hide Contains;
    hide TestBit;
    hide Falls;
    bloom := Bloom(seq(bytes, i => 0), k);
    NothingSet(bloom.bits);
    for i := 0 to |es|
      invariant bloom.k == k && |bloom.bits| == bytes
      invariant forall j :: 0 <= j < i ==> Contains(hash, bloom, es[j].0)
      invariant SetExactly(hash, bloom, es[..i])
    {
      ghost var before := bloom;
      bloom := InsertKey(hash, bloom, es[i].0);
      OneMoreKey(hash, before, bloom, es, i);
    }
    assert es[..|es|] == es;
  }

  lemma {:induction false} NoBit(j: nat)
    ensures !Bit(0, j)
  {
    if j > 0 {
      NoBit(j - 1);
    }
  }

  lemma NothingSet(bits: Bytes)
    requires forall i :: 0 <= i < |bits| ==> bits[i] == 0
    ensures forall pos: nat :: pos < 8 * |bits| ==> !TestBit(bits, pos)
  {
    forall pos: nat | pos < 8 * |bits|
      ensures !TestBit(bits, pos)
    {
      NoBit(pos % 8);
    }
  }

  lemma OneMoreKey(hash: Hash, before: Bloom, after: Bloom, es: seq<Entry>, i: nat)
    requires i < |es| && SetExactly(hash, before, es[..i]) && after.k == before.k && |after.bits| == |before.bits|
    requires forall pos: nat :: pos < 8 * |before.bits| ==>
               (TestBit(after.bits, pos) <==> TestBit(before.bits, pos) || Falls(hash, es[i].0, before.k, 8 * |before.bits|, pos))
    ensures SetExactly(hash, after, es[..i + 1])
  {
    hide TestBit;
    hide Falls;
    assert es[..i + 1] == es[..i] + [es[i]];
    assert forall e :: e in es[..i + 1] <==> e in es[..i] || e == es[i];
  }

  // -------------------------------------------------------------------------
  // Splitting into blocks
  // -------------------------------------------------------------------------

  /** What the writer counts for an entry. */
  function EntrySize(e: Entry): nat
  {
    4 + |e.0| + 8 + 4 + if e.1.value.Value? then |e.1.value.bytes| else 0
  }

  /** Fills a block until the next entry would overflow it; an entry too large stands alone. */
  function Split(es: seq<Entry>, current: Block, size: nat): seq<Block>
    decreases |es|
  {
    if es == [] then if current == [] then [] else [current]
    else if size + EntrySize(es[0]) > BLOCK_SIZE && current != [] then
      [current] + Split(es[1..], [es[0]], EntrySize(es[0]))
    else Split(es[1..], current + [es[0]], size + EntrySize(es[0]))
  }

  lemma {:induction false} SplitFlattens(es: seq<Entry>, current: Block, size: nat)
    ensures Flatten(Split(es, current, size)) == current + es && NonEmpty(Split(es, current, size))
    decreases |es|
  {
    if es == [] {
      if current != [] {
        assert [current][1..] == [] && current + [] == current;
      }
    } else if size + EntrySize(es[0]) > BLOCK_SIZE && current != [] {
      SplitFlattens(es[1..], [es[0]], EntrySize(es[0]));
      var rest := Split(es[1..], [es[0]], EntrySize(es[0]));
      assert ([current] + rest)[0] == current && ([current] + rest)[1..] == rest;
      assert current + ([es[0]] + es[1..]) == current + es;
    } else {
      SplitFlattens(es[1..], current + [es[0]], size + EntrySize(es[0]));
      assert current + [es[0]] + es[1..] == current + es;
    }
  }

  function Total(g: Block): nat
  {
    if g == [] then 0 else Total(g[..|g| - 1]) + EntrySize(g[|g| - 1])
  }

  /** What the writer counts: 16 bytes an entry, its key and its value. */
  lemma CountIs(g: Block, e: Entry)
    ensures EntrySize(e) == 16 + |e.0| + match e.1.value case Value(b) => |b| case Tombstone => 0
    ensures Total([]) == 0 && Total(g + [e]) == Total(g) + EntrySize(e)
  {
    assert (g + [e])[..|g|] == g;
  }

  /** Every block is within 32768 or one entry, and the first entry of the next would have overflowed it. */
  ghost predicate Greedy(gs: seq<Block>)
  {
    && NonEmpty(gs)
    && (forall i :: 0 <= i < |gs| ==> Total(gs[i]) <= 32768 || |gs[i]| == 1)
    && forall i, j :: 0 <= i && j == i + 1 && j < |gs| ==> Total(gs[i]) + EntrySize(gs[j][0]) > 32768
  }

  lemma GreedyNonEmpty(gs: seq<Block>)
    requires Greedy(gs)
    ensures NonEmpty(gs)
  {
  }

  lemma GreedyMore(g: Block, gs: seq<Block>)
    requires Greedy(gs) && g != [] && (Total(g) <= 32768 || |g| == 1)
    requires gs != [] ==> Total(g) + EntrySize(gs[0][0]) > 32768
    ensures Greedy([g] + gs)
  {
    hide EntrySize;
    hide Total;
  }

  /** So is the writer's split. */
  lemma {:induction false} SplitIsGreedy(es: seq<Entry>, current: Block, size: nat)
    requires size == Total(current) && (current != [] ==> Total(current) <= 32768 || |current| == 1)
    ensures Greedy(Split(es, current, size))
    ensures es != [] && current != [] ==> Split(es, current, size) != [] && Split(es, current, size)[0][0] == current[0]
    ensures es == [] && current != [] ==> Split(es, current, size) == [current]
    decreases |es|
  {
    if es != [] {
      var one, more: Block := [es[0]], current + [es[0]];
      CountIs([], es[0]);
      CountIs(current, es[0]);
      assert [] + [es[0]] == one;
      hide EntrySize;
      hide Total;
      if size + EntrySize(es[0]) > BLOCK_SIZE && current != [] {
        SplitIsGreedy(es[1..], one, EntrySize(es[0]));
        GreedyMore(current, Split(es[1..], one, EntrySize(es[0])));
      } else {
        SplitIsGreedy(es[1..], more, size + EntrySize(es[0]));
      }
    } else if current != [] {
      GreedyMore(current, []);
      assert [current] + [] == [current];
    }
  }

  predicate Small(e: Entry)
  {
    EntryFits(e) && |e.0| <= MAX_KEY_SIZE && (e.1.value.Value? ==> |e.1.value.bytes| <= MAX_VALUE_SIZE)
  }

  lemma {:induction false} EntriesSnoc(g: Block, e: Entry)
    ensures EncodeEntries(g + [e]) == EncodeEntries(g) + EncodeEntry(e)
  {
    hide EncodeEntry;
    if g == [] {
      assert ([] + [e])[1..] == [];
      assert EncodeEntries([]) == [];
      assert EncodeEntry(e) + [] == [] + EncodeEntry(e);
      assert g + [e] == [e];
    } else {
      EntriesSnoc(g[1..], e);
      assert (g + [e])[0] == g[0] && (g + [e])[1..] == g[1..] + [e];
      Reassoc(EncodeEntry(g[0]), EncodeEntries(g[1..]), EncodeEntry(e));
    }
  }

  lemma EntryLength(e: Entry)
    ensures |EncodeEntry(e)| <= 2 * EntrySize(e)
  {
    hide LE;
  }

  /** An encoded group is at most twice what the writer counted for it. */
  lemma {:induction false} EncodedBound(g: Block)
    ensures |EncodeEntries(g)| <= 2 * Total(g)
  {
    hide EncodeEntry;
    hide EntrySize;
    if g != [] {
      EncodedBound(g[..|g| - 1]);
      EntryLength(g[|g| - 1]);
      EntriesSnoc(g[..|g| - 1], g[|g| - 1]);
      assert g[..|g| - 1] + [g[|g| - 1]] == g;
    }
  }

  /** A block is within the target, or is one entry. */
  ghost predicate BlockBound(g: Block)
  {
    g != [] && (forall i :: 0 <= i < |g| ==> Small(g[i])) && (Total(g) <= BLOCK_SIZE || |g| == 1)
  }

  lemma BoundFits(crc: Checksum, g: Block)
    requires BlockBound(g)
    ensures BlockFits(crc, g)
  {
    EncodedBound(g);
    if |g| == 1 {
      assert g[..0] == [];
      assert Total(g) == EntrySize(g[0]);
    }
    hide EncodeEntries;
    hide EntryFits;
    forall i | 0 <= i < |g|
      ensures EntryFits(g[i])
    {
      assert Small(g[i]);
    }
  }

  lemma {:induction false} SplitBounds(es: seq<Entry>, current: Block, size: nat)
    requires (forall i :: 0 <= i < |es| ==> Small(es[i])) && (current != [] ==> BlockBound(current)) && size == Total(current)
    ensures forall i :: 0 <= i < |Split(es, current, size)| ==> BlockBound(Split(es, current, size)[i])
    decreases |es|
  {
    if es != [] {
      var one, more: Block := [es[0]], current + [es[0]];
      assert one[..0] == [] && Total(one) == EntrySize(es[0]);
      assert more[..|current|] == current;
      assert Small(es[0]);
      hide Small;
      if size + EntrySize(es[0]) > BLOCK_SIZE && current != [] {
        SplitBounds(es[1..], one, EntrySize(es[0]));
      } else {
        SplitBounds(es[1..], more, size + EntrySize(es[0]));
      }
    }
  }

  /** The writer's split always fits the fields of the file. */
  lemma SplitFits(crc: Checksum, es: seq<Entry>)
    requires forall i :: 0 <= i < |es| ==> Small(es[i])
    ensures BlocksFit(crc, Split(es, [], 0)) && NonEmpty(Split(es, [], 0)) && Flatten(Split(es, [], 0)) == es
    ensures Greedy(Split(es, [], 0))
  {
    hide Split;
    hide BlockFits;
    hide BlockBound;
    hide Small;
    SplitFlattens(es, [], 0);
    assert [] + es == es;
    hide NonEmpty;
    hide Flatten;
    hide Greedy;
    assert Total([]) == 0;
    SplitIsGreedy(es, [], 0);
    SplitBounds(es, [], 0);
    AllBoundFit(crc, Split(es, [], 0));
  }

  lemma AllBoundFit(crc: Checksum, gs: seq<Block>)
    requires forall i :: 0 <= i < |gs| ==> BlockBound(gs[i])
    ensures BlocksFit(crc, gs)
  {
    hide BlockBound;
    hide BlockFits;
    forall i | 0 <= i < |gs|
      ensures BlockFits(crc, gs[i])
    {
      BoundFits(crc, gs[i]);
    }
  }

  // -------------------------------------------------------------------------
  // Writing
  // -------------------------------------------------------------------------

  lemma {:induction false} BlocksSnoc(crc: Checksum, gs: seq<Block>, g: Block)
    ensures EncodeBlocks(crc, gs + [g]) == EncodeBlocks(crc, gs) + EncodeBlock(crc, g)
    decreases |gs|
  {
    hide EncodeBlock;
    var all := gs + [g];
    if gs == [] {
      assert all == [g] && all[1..] == [];
      assert EncodeBlock(crc, g) + [] == [] + EncodeBlock(crc, g);
    } else {
      assert all[0] == gs[0] && all[1..] == gs[1..] + [g];
      BlocksSnoc(crc, gs[1..], g);
      Reassoc(EncodeBlock(crc, gs[0]), EncodeBlocks(crc, gs[1..]), EncodeBlock(crc, g));
    }
  }

  lemma FirstLength(crc: Checksum, gs: seq<Block>)
    requires gs != []
    ensures |EncodeBlocks(crc, gs)| == |EncodeBlock(crc, gs[0])| + |EncodeBlocks(crc, gs[1..])|
  {
    hide EncodeBlock;
  }

  lemma IndexCons(crc: Checksum, gs: seq<Block>, offset: nat)
    requires NonEmpty(gs) && gs != []
    ensures IndexOf(crc, gs, offset) ==
            [IndexEntry(gs[0][0].0, offset, |EncodeBlock(crc, gs[0])|)] + IndexOf(crc, gs[1..], offset + |EncodeBlock(crc, gs[0])|)
  {
    hide EncodeBlock;
  }

  lemma IndexNone(crc: Checksum, offset: nat)
    ensures IndexOf(crc, [], offset) == [] && EncodeBlocks(crc, []) == []
  {
  }

  lemma {:induction false} IndexSnoc(crc: Checksum, gs: seq<Block>, g: Block, offset: nat)
    requires NonEmpty(gs) && g != []
    ensures NonEmpty(gs + [g])
    ensures IndexOf(crc, gs + [g], offset) ==
            IndexOf(crc, gs, offset) + [IndexEntry(g[0].0, offset + |EncodeBlocks(crc, gs)|, |EncodeBlock(crc, g)|)]
    decreases |gs|
  {
    hide EncodeBlocks;
    hide EncodeBlock;
    hide IndexOf;
    var all := gs + [g];
    assert NonEmpty(all);
    IndexCons(crc, all, offset);
    if gs == [] {
      assert all == [g] && all[1..] == [];
      IndexNone(crc, offset);
      IndexNone(crc, offset + |EncodeBlock(crc, g)|);
    } else {
      assert all[0] == gs[0] && all[1..] == gs[1..] + [g];
      FirstLength(crc, gs);
      IndexCons(crc, gs, offset);
      IndexSnoc(crc, gs[1..], g, offset + |EncodeBlock(crc, gs[0])|);
    }
  }

  /** Encodes block after block, noting first key, offset and size of each. */
  method WriteBlocks(crc: Checksum, entries: seq<Entry>) returns (data: Bytes, index: seq<IndexEntry>)
    ensures var gs := Split(entries, [], 0);
            NonEmpty(gs) && data == EncodeBlocks(crc, gs) && index == IndexOf(crc, gs, HEADER_SIZE)
  {
    hide EncodeBlock;
    hide EncodeBlocks;
    hide IndexOf;
    hide EntrySize;
    hide NonEmpty;
    hide Split;
    data, index := [], [];
    var current: Block, size: nat := [], 0;
    ghost var gs: seq<Block> := [];
    WroteNothing(crc, entries);
    for i := 0 to |entries|
      invariant Wrote(crc, gs, data, index)
      invariant Split(entries, [], 0) == gs + Split(entries[i..], current, size)
    {
      var entry := entries[i];
      SplitNext(gs, entries, i, current, size);
      if size + EntrySize(entry) > BLOCK_SIZE && current != [] {
        BlocksSnoc(crc, gs, current);
        IndexSnoc(crc, gs, current, HEADER_SIZE);
        var encoded := EncodeBlock(crc, current);
        index := index + [IndexEntry(current[0].0, HEADER_SIZE + |data|, |encoded|)];
        data := data + encoded;
        gs := gs + [current];
        current, size := [], 0;
      }
      current := current + [entry];
      size := size + EntrySize(entry);
    }
    SplitLast(gs, entries, current, size);
    if current != [] {
      BlocksSnoc(crc, gs, current);
      IndexSnoc(crc, gs, current, HEADER_SIZE);
      var encoded := EncodeBlock(crc, current);
      index := index + [IndexEntry(current[0].0, HEADER_SIZE + |data|, |encoded|)];
      data := data + encoded;
    }
  }

  /** The data and the index of the blocks written so far. */
  ghost predicate Wrote(crc: Checksum, gs: seq<Block>, data: Bytes, index: seq<IndexEntry>)
  {
    NonEmpty(gs) && data == EncodeBlocks(crc, gs) && index == IndexOf(crc, gs, HEADER_SIZE)
  }

  lemma WroteNothing(crc: Checksum, entries: seq<Entry>)
    ensures Wrote(crc, [], [], []) && Split(entries, [], 0) == [] + Split(entries[0..], [], 0)
  {
    assert entries[0..] == entries;
  }

  /** One entry either closes the current block or joins it. */
  lemma SplitNext(gs: seq<Block>, entries: seq<Entry>, i: nat, current: Block, size: nat)
    requires i < |entries|
    ensures gs + Split(entries[i..], current, size) ==
            if size + EntrySize(entries[i]) > BLOCK_SIZE && current != []
            then gs + [current] + Split(entries[i + 1..], [] + [entries[i]], 0 + EntrySize(entries[i]))
            else gs + Split(entries[i + 1..], current + [entries[i]], size + EntrySize(entries[i]))
  {
    hide EntrySize;
    assert entries[i..][0] == entries[i] && entries[i..][1..] == entries[i + 1..];
    assert [] + [entries[i]] == [entries[i]];
    SplitMore(gs, current, Split(entries[i + 1..], [entries[i]], EntrySize(entries[i])));
  }

  lemma SplitLast(gs: seq<Block>, entries: seq<Entry>, current: Block, size: nat)
    ensures gs + Split(entries[|entries|..], current, size) == if current == [] then gs else gs + [current]
  {
    assert entries[|entries|..] == [];
    assert gs + [] == gs;
  }

  lemma SplitMore(gs: seq<Block>, current: Block, rest: seq<Block>)
    ensures gs + ([current] + rest) == gs + [current] + rest
  {
  }

  /** Writes the versions of a table, in order, as the bytes of a segment file. */
  method WriteSegment(crc: Checksum, hash: Hash, entries: seq<Entry>, maxSequence: nat, bytes: nat, k: nat)
    returns (file: Bytes, bloom: Bloom)
    requires bytes > 0 && k > 0
    ensures var gs := Split(entries, [], 0);
            && Flatten(gs) == entries && Greedy(gs) && file == File(crc, gs, maxSequence, bloom)
            && Covers(hash, bloom, entries) && SetExactly(hash, bloom, entries) && bloom.k == k && |bloom.bits| == bytes
  {
    hide Greedy;
    hide SetExactly;
    hide Split;
    hide EncodeBlocks;
    hide IndexOf;
    hide EncodeIndex;
    hide Header;
    hide Footer;
    hide Covers;
    hide LE;
    ghost var gs := Split(entries, [], 0);
    SplitFlattens(entries, [], 0);
    SplitIsGreedy(entries, [], 0);
    GreedyNonEmpty(gs);
    assert [] + entries == entries;
    bloom := BuildBloom(hash, entries, bytes, k);
    var data, index := WriteBlocks(crc, entries);
    SplitEmpty(entries);
    var count := |entries|;
    var bloomBytes := if entries == [] then [] else EncodeBloom(bloom);
    var indexBytes := EncodeIndex(index);
    var bloomOffset := HEADER_SIZE + |data|;
    var indexOffset := bloomOffset + |bloomBytes|;
    var body := Header(count, maxSequence, |index|) + data + bloomBytes + indexBytes
                + Footer(bloomOffset, |bloomBytes|, indexOffset, |indexBytes|, count);
    assert body == Body(crc, gs, maxSequence, bloom);
    file := body + LE(crc(body), 4);
  }

  lemma SplitEmpty(entries: seq<Entry>)
    ensures Split(entries, [], 0) == [] <==> entries == []
  {
    SplitFlattens(entries, [], 0);
    assert [] + entries == entries;
  }

  /**
   * What a flush writes is what opening the segment reads: the list of all versions of the
   * table comes back whole, so the open segment's table is the memory table with its chains
   * sorted, and the stored filter still has no false negatives.
   */
  lemma WrittenReadsBack(crc: Checksum, hash: Hash, entries: seq<Entry>, t: Table, maxSequence: nat, bloom: Bloom)
    requires Sorted(NewestFirst(), entries) && Flattens(entries, t) && NoEmptyChains(t)
    requires (forall i :: 0 <= i < |entries| ==> Small(entries[i])) && Covers(hash, bloom, entries)
    requires FileFits(crc, Split(entries, [], 0), maxSequence, bloom)
    ensures var r := Parse(crc, File(crc, Split(entries, [], 0), maxSequence, bloom));
            && r.Ok? && r.value.entries == entries && r.value.maxSequence == maxSequence && r.value.count == |entries|
            && SortedVersion(Group(r.value.entries), t) && Covers(hash, r.value.bloom, entries)
  {
    GroupIsSortedVersion(entries, t);
    hide *;
    SplitParses(crc, hash, entries, maxSequence, bloom);
  }

  lemma SplitParses(crc: Checksum, hash: Hash, entries: seq<Entry>, maxSequence: nat, bloom: Bloom)
    requires (forall i :: 0 <= i < |entries| ==> Small(entries[i])) && Covers(hash, bloom, entries)
    requires FileFits(crc, Split(entries, [], 0), maxSequence, bloom)
    ensures var r := Parse(crc, File(crc, Split(entries, [], 0), maxSequence, bloom));
            && r.Ok? && r.value.entries == entries && r.value.maxSequence == maxSequence && r.value.count == |entries|
            && Covers(hash, r.value.bloom, entries)
  {
    SplitFits(crc, entries);
    StoredCovers(hash, bloom, entries);
    hide *;
    FileRoundTrip(crc, Split(entries, [], 0), maxSequence, bloom);
  }

  lemma StoredCovers(hash: Hash, bloom: Bloom, es: seq<Entry>)
    requires Covers(hash, bloom, es)
    ensures Covers(hash, StoredBloom(Split(es, [], 0), bloom), es)
  {
    SplitEmpty(es);
    if es != [] {
      assert es[0] in es;
    }
    hide Split;
  }

  // -------------------------------------------------------------------------
  // Reading through the index
  // -------------------------------------------------------------------------

  /** The number of leading blocks whose first key is not above `key`: where the binary search ends. */
  function PartitionPoint(index: seq<IndexEntry>, key: Key): (n: nat)
    ensures n <= |index|
    ensures forall i :: 0 <= i < n ==> LessEq(index[i].firstKey, key)
    ensures n < |index| ==> Less(key, index[n].firstKey)
  {
    if index == [] || Less(key, index[0].firstKey) then 0
    else
      var n := PartitionPoint(index[1..], key);
      assert forall i :: 0 < i <= n ==> index[i] == index[1..][i - 1];
      1 + n
  }

  /** The block that may hold the key. */
  function Locate(index: seq<IndexEntry>, key: Key): Option<nat>
  {
    var n := PartitionPoint(index, key);
    var i := if n == 0 then 0 else n - 1;
    if i < |index| then Some(i) else None
  }

  /** The first version of the key in a list. */
  function FirstOf(es: seq<Entry>, key: Key): Option<VersionedEntry>
  {
    if es == [] then None else if es[0].0 == key then Some(es[0].1) else FirstOf(es[1..], key)
  }

  /** The bytes of a block, checked against its checksum. A cache hit gives the same bytes. */
  function ReadBlock(crc: Checksum, seg: Segment, i: nat): Result<Bytes, StoreError>
    requires i < |seg.index|
  {
    var e := seg.index[i];
    if e.offset + e.size > |seg.raw| then Err(Storage)
    else if e.size < 4 then Err(Storage)
    else
      var b := seg.raw[e.offset..e.offset + e.size];
      if Field(b, |b| - 4, 4) != crc(b[..|b| - 4]) then Err(Storage) else Ok(b)
  }

  /** The read that decodes one block only. */
  function GetCached(crc: Checksum, hash: Hash, seg: Segment, key: Key): Result<Option<VersionedEntry>, StoreError>
  {
    if !Contains(hash, seg.bloom, key) then Ok(None)
    else
      match Locate(seg.index, key)
      case None => Err(Storage)
      case Some(i) =>
        match ReadBlock(crc, seg, i)
        case Err(e) => Err(e)
        case Ok(b) => Ok(FirstOf(DecodeBlock(b), key))
  }

  /** The read of the decoded map. */
  function Get(seg: Segment, key: Key): Option<VersionedEntry>
  {
    Front(Group(seg.entries), key)
  }

  lemma {:induction false} FrontIsFirst(es: seq<Entry>, key: Key)
    ensures Front(Group(es), key) == FirstOf(es, key)
  {
    if es != [] {
      FrontIsFirst(es[..|es| - 1], key);
      FirstSnoc(es[..|es| - 1], es[|es| - 1], key);
      assert es[..|es| - 1] + [es[|es| - 1]] == es;
      GroupHas(es[..|es| - 1], key, es[|es| - 1].1);
    }
  }

  lemma {:induction false} FirstAppend(a: seq<Entry>, b: seq<Entry>, key: Key)
    ensures FirstOf(a + b, key) == if FirstOf(a, key).Some? then FirstOf(a, key) else FirstOf(b, key)
  {
    if a == [] {
      assert a + b == b;
    } else {
      assert (a + b)[0] == a[0] && (a + b)[1..] == a[1..] + b;
      FirstAppend(a[1..], b, key);
    }
  }

  lemma FirstSnoc(a: seq<Entry>, e: Entry, key: Key)
    ensures FirstOf(a + [e], key) == if FirstOf(a, key).Some? then FirstOf(a, key) else if e.0 == key then Some(e.1) else None
  {
    FirstAppend(a, [e], key);
    assert [e][1..] == [];
  }

  lemma {:induction false} FirstIn(es: seq<Entry>, key: Key)
    ensures FirstOf(es, key).Some? ==> (key, FirstOf(es, key).value) in es
    ensures FirstOf(es, key).None? ==> forall e :: e in es ==> e.0 != key
  {
    if es != [] && es[0].0 != key {
      FirstIn(es[1..], key);
    }
  }

  /** Sorted by key and, within a key, strictly newest first. */
  ghost predicate StrictlySorted(es: seq<Entry>)
  {
    forall i, j :: 0 <= i < j < |es| ==>
      ComesBefore(es[i].0, es[j].0) || (es[i].0 == es[j].0 && es[i].1.sequence > es[j].1.sequence)
  }

  lemma SortedAt(es: seq<Entry>, i: nat, j: nat)
    requires StrictlySorted(es) && i < j < |es|
    ensures Less(es[i].0, es[j].0) || (es[i].0 == es[j].0 && es[i].1.sequence > es[j].1.sequence)
  {
    hide ComesBefore;
    LessIsComesBefore(es[i].0, es[j].0);
  }

  /** Nothing from `m` on has the key, if the entry there is already above it. */
  lemma NoneAfter(es: seq<Entry>, m: nat, key: Key)
    requires StrictlySorted(es) && m <= |es| && (m < |es| ==> Less(key, es[m].0))
    ensures FirstOf(es[m..], key).None?
  {
    FirstIn(es[m..], key);
    LessIrreflexive(key);
    if FirstOf(es[m..], key).Some? {
      var i :| 0 <= i < |es[m..]| && es[m..][i] == (key, FirstOf(es[m..], key).value);
      hide StrictlySorted;
      if i > 0 {
        SortedAt(es, m, m + i);
        if Less(es[m].0, key) {
          LessTransitive(key, es[m].0, key);
        }
      }
    }
  }

  /** If the entry at `n` is not above the key, the key stands before `n` exactly when the entry just before
      has it; then the entry at `n` has it too, in an older version. */
  lemma WhetherBefore(es: seq<Entry>, n: nat, key: Key)
    requires StrictlySorted(es) && n < |es| && (n > 0 ==> LessEq(es[n].0, key))
    ensures FirstOf(es[..n], key).Some? <==> n > 0 && es[n - 1].0 == key
    ensures FirstOf(es[..n], key).Some? ==> es[n].0 == key && es[n].1.sequence < FirstOf(es[..n], key).value.sequence
  {
    FirstIn(es[..n], key);
    LessIrreflexive(key);
    if FirstOf(es[..n], key).Some? {
      var v := FirstOf(es[..n], key).value;
      var i :| 0 <= i < n && es[..n][i] == (key, v);
      SortedAt(es, i, n);
      if i < n - 1 {
        SortedAt(es, i, n - 1);
        SortedAt(es, n - 1, n);
        hide StrictlySorted;
        if Less(key, es[n - 1].0) {
          BetweenIsKey(es[n - 1].0, es[n].0, key);
        }
      }
    } else if n > 0 {
      assert es[n - 1] == es[..n][n - 1];
    }
  }

  lemma BetweenIsKey(a: Key, b: Key, key: Key)
    requires (Less(a, b) || a == b) && LessEq(b, key)
    ensures !Less(key, a)
  {
    if Less(key, a) && Less(a, b) {
      LessTransitive(key, a, b);
    }
  }

  lemma {:induction false} FlattenAppend(a: seq<Block>, b: seq<Block>)
    ensures Flatten(a + b) == Flatten(a) + Flatten(b)
  {
    if a == [] {
      assert a + b == b;
    } else {
      assert (a + b)[0] == a[0] && (a + b)[1..] == a[1..] + b;
      FlattenAppend(a[1..], b);
      Reassoc(a[0], Flatten(a[1..]), Flatten(b));
    }
  }

  lemma FlattenOne(g: Block)
    ensures Flatten([g]) == g
  {
    assert [g][1..] == [] && Flatten([g]) == g + [];
  }

  lemma FlattenEnds(gs: seq<Block>)
    requires NonEmpty(gs) && gs != []
    ensures Flatten(gs) != [] && Flatten(gs)[0] == gs[0][0]
    ensures Flatten(gs)[|Flatten(gs)| - 1] == gs[|gs| - 1][|gs[|gs| - 1]| - 1]
  {
    var n := |gs| - 1;
    assert Flatten(gs) == gs[0] + Flatten(gs[1..]);
    assert gs == gs[..n] + [gs[n]];
    hide Flatten;
    FlattenAppend(gs[..n], [gs[n]]);
    FlattenOne(gs[n]);
  }

  /** The entries before, in and after one block. */
  lemma FlattenAround(gs: seq<Block>, j: nat)
    requires NonEmpty(gs) && j < |gs|
    ensures Flatten(gs) == Flatten(gs[..j]) + gs[j] + Flatten(gs[j + 1..])
    ensures j > 0 ==> Flatten(gs[..j]) != [] && Flatten(gs[..j])[|Flatten(gs[..j])| - 1] == gs[j - 1][|gs[j - 1]| - 1]
    ensures j + 1 < |gs| ==> Flatten(gs[j + 1..]) != [] && Flatten(gs[j + 1..])[0] == gs[j + 1][0]
  {
    hide Flatten;
    assert gs == gs[..j] + [gs[j]] + gs[j + 1..];
    FlattenAppend(gs[..j] + [gs[j]], gs[j + 1..]);
    FlattenAppend(gs[..j], [gs[j]]);
    FlattenOne(gs[j]);
    if j > 0 {
      FlattenEnds(gs[..j]);
    }
    if j + 1 < |gs| {
      FlattenEnds(gs[j + 1..]);
    }
  }

  lemma ThreeParts<T>(a: seq<T>, g: seq<T>, b: seq<T>)
    requires g != []
    ensures var es := a + g + b; es[..|a|] == a && es[|a| + |g|..] == b && es[|a|] == g[0] && |es| == |a| + |g| + |b|
    ensures var es := a + g + b; (a != [] ==> es[|a| - 1] == a[|a| - 1]) && (b != [] ==> es[|a| + |g|] == b[0])
  {
  }

  lemma FirstHere(g: Block, key: Key)
    requires g != []
    ensures g[0].0 == key ==> FirstOf(g, key) == Some(g[0].1)
  {
  }

  lemma AroundBlock(a: seq<Entry>, g: Block, b: seq<Entry>, key: Key)
    requires StrictlySorted(a + g + b) && g != []
    requires (a != [] ==> LessEq(g[0].0, key)) && (b != [] ==> Less(key, b[0].0))
    ensures FirstOf(g, key) == FirstOf(a + g + b, key) <==> !(a != [] && a[|a| - 1].0 == key)
  {
    hide StrictlySorted;
    hide FirstOf;
    hide Less;
    ThreeParts(a, g, b);
    WhetherBefore(a + g + b, |a|, key);
    NoneAfter(a + g + b, |a| + |g|, key);
    FirstAppend(a + g, b, key);
    FirstAppend(a, g, key);
    FirstHere(g, key);
  }

  /**
   * Where a sorted list is cut into blocks, the first version of a key is in the block that
   * the index points to, unless the block before it ends with that key: then the versions
   * straddle the cut, and the block alone shows an older one.
   */
  lemma BlockDecides(gs: seq<Block>, j: nat, key: Key)
    requires NonEmpty(gs) && StrictlySorted(Flatten(gs)) && j < |gs|
    requires j > 0 ==> LessEq(gs[j][0].0, key)
    requires j + 1 < |gs| ==> Less(key, gs[j + 1][0].0)
    ensures FirstOf(gs[j], key) == FirstOf(Flatten(gs), key) <==> !(j > 0 && gs[j - 1][|gs[j - 1]| - 1].0 == key)
  {
    hide Flatten;
    hide StrictlySorted;
    hide FirstOf;
    hide Less;
    FlattenAround(gs, j);
    if j + 1 == |gs| {
      FlattenNone(gs[j + 1..]);
    }
    if j == 0 {
      FlattenNone(gs[..j]);
    }
    AroundBlock(Flatten(gs[..j]), gs[j], Flatten(gs[j + 1..]), key);
  }

  lemma FlattenNone(gs: seq<Block>)
    requires gs == []
    ensures Flatten(gs) == []
  {
  }

  // -------------------------------------------------------------------------
  // The block-cached read
  // -------------------------------------------------------------------------

  lemma BlockRead(crc: Checksum, gs: seq<Block>, maxSequence: nat, bloom: Bloom, seg: Segment, i: nat)
    requires FileFits(crc, gs, maxSequence, bloom) && i < |gs|
    requires seg.raw == File(crc, gs, maxSequence, bloom) && seg.index == IndexOf(crc, gs, HEADER_SIZE)
    ensures ReadBlock(crc, seg, i) == Ok(EncodeBlock(crc, gs[i])) && DecodeBlock(EncodeBlock(crc, gs[i])) == gs[i]
    ensures seg.index[i].firstKey == gs[i][0].0
  {
    hide At;
    hide File;
    hide EncodeBlock;
    hide BlockFits;
    hide EncodeBlocks;
    hide IndexOf;
    hide DecodeBlock;
    hide Field;
    IndexTiles(crc, gs, maxSequence, bloom, i);
    AtSlice(seg.raw, seg.index[i].offset, EncodeBlock(crc, gs[i]));
    BlockChecksum(crc, gs[i]);
    BlockRoundTrip(crc, gs[i]);
    FirstKeyOf(crc, gs, HEADER_SIZE, i);
  }

  lemma {:induction false} FirstKeyOf(crc: Checksum, gs: seq<Block>, offset: nat, i: nat)
    requires NonEmpty(gs) && i < |gs|
    ensures IndexOf(crc, gs, offset)[i].firstKey == gs[i][0].0
    decreases |gs|
  {
    hide EncodeBlock;
    if i > 0 {
      FirstKeyOf(crc, gs[1..], offset + |EncodeBlock(crc, gs[0])|, i - 1);
    }
  }

  /** The versions of `key` are cut by a block boundary just before the block the index points to. */
  predicate Straddles(gs: seq<Block>, index: seq<IndexEntry>, key: Key)
    requires |index| == |gs|
  {
    var j := Locate(index, key);
    j.Some? && j.value > 0 && gs[j.value - 1] != [] && gs[j.value - 1][|gs[j.value - 1]| - 1].0 == key
  }

  /** What the block-cached read returns, in terms of the block that the index points to. */
  lemma CachedIsBlock(crc: Checksum, hash: Hash, gs: seq<Block>, maxSequence: nat, bloom: Bloom, seg: Segment, key: Key)
    requires FileFits(crc, gs, maxSequence, bloom) && gs != [] && StrictlySorted(Flatten(gs))
    requires seg.raw == File(crc, gs, maxSequence, bloom) && seg.index == IndexOf(crc, gs, HEADER_SIZE)
    ensures Locate(seg.index, key).Some?
    ensures var j := Locate(seg.index, key).value;
            && j < |gs|
            && (j > 0 ==> LessEq(gs[j][0].0, key)) && (j + 1 < |gs| ==> Less(key, gs[j + 1][0].0))
            && GetCached(crc, hash, seg, key) == Ok(if Contains(hash, seg.bloom, key) then FirstOf(gs[j], key) else None)
  {
    hide File;
    hide FileFits;
    hide IndexOf;
    hide Contains;
    hide DecodeBlock;
    hide EncodeBlock;
    hide ReadBlock;
    hide FirstOf;
    hide Less;
    hide Flatten;
    hide StrictlySorted;
    var j := Locate(seg.index, key).value;
    BlockRead(crc, gs, maxSequence, bloom, seg, j);
    if j + 1 < |gs| {
      BlockRead(crc, gs, maxSequence, bloom, seg, j + 1);
      assert NonEmpty(gs) by { FitsNonEmpty(crc, gs, maxSequence, bloom); }
      if PartitionPoint(seg.index, key) == 0 {
        SecondAbove(gs, key);
      }
    }
  }

  lemma FitsNonEmpty(crc: Checksum, gs: seq<Block>, maxSequence: nat, bloom: Bloom)
    requires FileFits(crc, gs, maxSequence, bloom)
    ensures NonEmpty(gs)
  {
  }

  /** A key below the first block is below the second. */
  lemma SecondAbove(gs: seq<Block>, key: Key)
    requires NonEmpty(gs) && StrictlySorted(Flatten(gs)) && |gs| > 1 && Less(key, gs[0][0].0)
    ensures Less(key, gs[1][0].0)
  {
    FlattenAround(gs, 0);
    FlattenNone(gs[..0]);
    hide Flatten;
    ThreeParts([], gs[0], Flatten(gs[1..]));
    SortedAt(Flatten(gs), 0, |gs[0]|);
    if Less(gs[0][0].0, gs[1][0].0) {
      LessTransitive(key, gs[0][0].0, gs[1][0].0);
    }
  }

  /**
   * Exactly when the block-cached read agrees with the read of the decoded map, for every key
   * present or absent: when no block boundary cuts the versions of the key just before the
   * block that the index points to.
   */
  lemma CachedReadIff(crc: Checksum, hash: Hash, gs: seq<Block>, maxSequence: nat, bloom: Bloom, seg: Segment, key: Key)
    requires FileFits(crc, gs, maxSequence, bloom) && StrictlySorted(Flatten(gs)) && Covers(hash, bloom, Flatten(gs))
    requires Parse(crc, File(crc, gs, maxSequence, bloom)) == Ok(seg)
    ensures |seg.index| == |gs|
    ensures GetCached(crc, hash, seg, key) == Ok(Get(seg, key)) <==> !Straddles(gs, seg.index, key)
  {
    hide Parse;
    hide File;
    hide FileFits;
    hide IndexOf;
    hide Flatten;
    hide Group;
    hide Contains;
    hide StrictlySorted;
    hide GetCached;
    hide Covers;
    hide FirstOf;
    hide Locate;
    hide Front;
    FitsNonEmpty(crc, gs, maxSequence, bloom);
    FileRoundTrip(crc, gs, maxSequence, bloom);
    FrontIsFirst(Flatten(gs), key);
    if gs == [] {
      FlattenNone(gs);
      NothingCached(crc, hash, seg, key);
    } else {
      CachedIsBlock(crc, hash, gs, maxSequence, bloom, seg, key);
      BloomKept(hash, bloom, gs);
      CachedDecides(hash, gs, seg.bloom, Locate(seg.index, key).value, key);
    }
  }

  lemma NothingCached(crc: Checksum, hash: Hash, seg: Segment, key: Key)
    requires seg.bloom == NO_BLOOM && seg.index == []
    ensures GetCached(crc, hash, seg, key) == Ok(None) && FirstOf([], key).None? && Locate(seg.index, key).None?
  {
  }

  lemma BloomKept(hash: Hash, bloom: Bloom, gs: seq<Block>)
    requires Covers(hash, bloom, Flatten(gs)) && gs != [] && NonEmpty(gs)
    ensures StoredBloom(gs, bloom) == bloom
  {
    FlattenAround(gs, 0);
    hide Flatten;
    StoredCovers(hash, bloom, Flatten(gs));
  }

  lemma CachedDecides(hash: Hash, gs: seq<Block>, bloom: Bloom, j: nat, key: Key)
    requires NonEmpty(gs) && StrictlySorted(Flatten(gs)) && Covers(hash, bloom, Flatten(gs)) && j < |gs|
    requires (j > 0 ==> LessEq(gs[j][0].0, key)) && (j + 1 < |gs| ==> Less(key, gs[j + 1][0].0))
    ensures (if Contains(hash, bloom, key) then FirstOf(gs[j], key) else None) == FirstOf(Flatten(gs), key) <==>
              !(j > 0 && gs[j - 1][|gs[j - 1]| - 1].0 == key)
  {
    hide Flatten;
    hide StrictlySorted;
    hide FirstOf;
    hide Less;
    hide Contains;
    hide Covers;
    BlockDecides(gs, j, key);
    CoveredOrAbsent(hash, bloom, gs, j, key);
  }

  /** A key the filter does not contain is nowhere in the file. */
  lemma CoveredOrAbsent(hash: Hash, bloom: Bloom, gs: seq<Block>, j: nat, key: Key)
    requires Covers(hash, bloom, Flatten(gs)) && NonEmpty(gs) && j < |gs|
    ensures !Contains(hash, bloom, key) ==> FirstOf(Flatten(gs), key).None? && FirstOf(gs[j], key).None?
  {
    hide Contains;
    FirstIn(Flatten(gs), key);
    FlattenAround(gs, j);
    FirstAppend(Flatten(gs[..j]) + gs[j], Flatten(gs[j + 1..]), key);
    FirstAppend(Flatten(gs[..j]), gs[j], key);
  }

  /** With one version for each key, as compaction leaves it, the two reads agree on every key. */
  lemma OneVersionReadsCached(crc: Checksum, hash: Hash, gs: seq<Block>, maxSequence: nat, bloom: Bloom, seg: Segment, key: Key)
    requires FileFits(crc, gs, maxSequence, bloom) && KeySorted(Flatten(gs)) && Covers(hash, bloom, Flatten(gs))
    requires Parse(crc, File(crc, gs, maxSequence, bloom)) == Ok(seg)
    ensures GetCached(crc, hash, seg, key) == Ok(Get(seg, key))
  {
    hide Parse;
    hide File;
    hide FileFits;
    hide IndexOf;
    hide Flatten;
    hide Contains;
    hide GetCached;
    hide Get;
    hide Covers;
    assert StrictlySorted(Flatten(gs));
    hide StrictlySorted;
    hide KeySorted;
    CachedReadIff(crc, hash, gs, maxSequence, bloom, seg, key);
    FileRoundTrip(crc, gs, maxSequence, bloom);
    FitsNonEmpty(crc, gs, maxSequence, bloom);
    if Straddles(gs, seg.index, key) {
      CachedIsBlock(crc, hash, gs, maxSequence, bloom, seg, key);
      NoStraddle(gs, Locate(seg.index, key).value, key);
    }
  }

  lemma NoStraddle(gs: seq<Block>, j: nat, key: Key)
    requires NonEmpty(gs) && KeySorted(Flatten(gs)) && 0 < j < |gs| && LessEq(gs[j][0].0, key)
    ensures gs[j - 1][|gs[j - 1]| - 1].0 != key
  {
    FlattenAround(gs, j);
    hide Flatten;
    ThreeParts(Flatten(gs[..j]), gs[j], Flatten(gs[j + 1..]));
    var n := |Flatten(gs[..j])|;
    hide ComesBefore;
    assert ComesBefore(Flatten(gs)[n - 1].0, Flatten(gs)[n].0);
    LessIsComesBefore(Flatten(gs)[n - 1].0, Flatten(gs)[n].0);
  }

  // -------------------------------------------------------------------------
  // A file that is read stale
  // -------------------------------------------------------------------------

  lemma SplitOfTwo(a: Entry, b: Entry)
    requires EntrySize(a) + EntrySize(b) > BLOCK_SIZE
    ensures Split([a, b], [], 0) == [[a], [b]]
  {
    hide EntrySize;
    assert [a, b][1..] == [b] && [b][1..] == [] && [] + [a] == [a];
    assert Split([], [b], EntrySize(b)) == [[b]];
    assert Split([b], [a], EntrySize(a)) == [[a]] + [[b]];
  }

  lemma {:induction false} IndexLength(crc: Checksum, gs: seq<Block>, offset: nat)
    requires NonEmpty(gs) && forall i :: 0 <= i < |gs| ==> |gs[i][0].0| < U32_LIMIT
    ensures |EncodeIndexEntries(IndexOf(crc, gs, offset))| <= |gs| * (U32_LIMIT + 16)
  {
    hide EncodeBlock;
    hide LE;
    if gs != [] {
      IndexLength(crc, gs[1..], offset + |EncodeBlock(crc, gs[0])|);
      var index := IndexOf(crc, gs, offset);
      assert index[1..] == IndexOf(crc, gs[1..], offset + |EncodeBlock(crc, gs[0])|);
      assert |EncodeIndexEntry(index[0])| == 16 + |gs[0][0].0|;
    }
  }

  lemma FileLength(crc: Checksum, gs: seq<Block>, maxSequence: nat, bloom: Bloom)
    requires NonEmpty(gs)
    ensures |File(crc, gs, maxSequence, bloom)| ==
            HEADER_SIZE + |EncodeBlocks(crc, gs)| + |BloomBytes(gs, bloom)| + |EncodeIndex(IndexOf(crc, gs, HEADER_SIZE))|
            + FOOTER_SIZE
  {
    hide EncodeBlocks;
    hide BloomBytes;
    hide EncodeIndex;
    hide IndexOf;
    hide Header;
    hide Footer;
    hide LE;
  }

  lemma TwoEncoded(crc: Checksum, g: Block, h: Block)
    ensures EncodeBlocks(crc, [g, h]) == EncodeBlock(crc, g) + EncodeBlock(crc, h)
  {
    hide EncodeBlock;
    var gs := [g, h];
    assert gs[1..] == [h] && [h][1..] == [];
    assert EncodeBlocks(crc, gs[1..]) == EncodeBlock(crc, h) + [];
  }

  lemma BloomLength(gs: seq<Block>, bloom: Bloom)
    ensures |BloomBytes(gs, bloom)| <= 8 + |bloom.bits|
  {
    hide LE;
  }

  /** One entry a block fits the fields of the file. */
  lemma TwoBlocksFit(crc: Checksum, a: Entry, b: Entry, maxSequence: nat, bloom: Bloom)
    requires Small(a) && Small(b) && maxSequence < U64_LIMIT && bloom.k < U32_LIMIT && |bloom.bits| < U32_LIMIT
    ensures FileFits(crc, [[a], [b]], maxSequence, bloom)
  {
    var gs: seq<Block> := [[a], [b]];
    assert NonEmpty(gs);
    TwoFit(crc, a, b);
    TwoFlatten(a, b);
    TwoFileLength(crc, gs, maxSequence, bloom);
    hide File;
    hide BlocksFit;
    hide Flatten;
    hide Small;
    Fit(crc, gs, maxSequence, bloom);
  }

  lemma TwoFileLength(crc: Checksum, gs: seq<Block>, maxSequence: nat, bloom: Bloom)
    requires NonEmpty(gs) && |gs| == 2 && |bloom.bits| < U32_LIMIT
    requires forall i :: 0 <= i < 2 ==> |gs[i][0].0| < U32_LIMIT && |EncodeBlock(crc, gs[i])| < U32_LIMIT
    ensures |File(crc, gs, maxSequence, bloom)| < 8 * U32_LIMIT
  {
    assert gs == [gs[0], gs[1]];
    TwoEncoded(crc, gs[0], gs[1]);
    IndexLength(crc, gs, HEADER_SIZE);
    TwoIndexed(gs);
    hide EncodeBlocks;
    hide EncodeBlock;
    hide BloomBytes;
    hide EncodeIndex;
    hide EncodeIndexEntries;
    hide IndexOf;
    hide File;
    FileLength(crc, gs, maxSequence, bloom);
    BloomLength(gs, bloom);
    IndexSize(IndexOf(crc, gs, HEADER_SIZE));
  }

  lemma TwoIndexed(gs: seq<Block>)
    requires |gs| == 2
    ensures |gs| * (U32_LIMIT + 16) == 2 * U32_LIMIT + 32
  {
  }

  lemma Fit(crc: Checksum, gs: seq<Block>, maxSequence: nat, bloom: Bloom)
    requires NonEmpty(gs) && BlocksFit(crc, gs) && |gs| < U32_LIMIT && |Flatten(gs)| < U64_LIMIT
    requires maxSequence < U64_LIMIT && bloom.k < U32_LIMIT && |bloom.bits| < U32_LIMIT
    requires |File(crc, gs, maxSequence, bloom)| < 8 * U32_LIMIT
    ensures FileFits(crc, gs, maxSequence, bloom)
  {
    hide File;
    hide BlocksFit;
    hide Flatten;
  }

  lemma IndexSize(es: seq<IndexEntry>)
    ensures |EncodeIndex(es)| == 4 + |EncodeIndexEntries(es)|
  {
    hide EncodeIndexEntries;
    hide LE;
  }

  lemma TwoFit(crc: Checksum, a: Entry, b: Entry)
    requires Small(a) && Small(b)
    ensures BlocksFit(crc, [[a], [b]]) && |a.0| < U32_LIMIT && |b.0| < U32_LIMIT
    ensures |EncodeBlock(crc, [a])| < U32_LIMIT && |EncodeBlock(crc, [b])| < U32_LIMIT
  {
    hide EncodeBlock;
    BoundFits(crc, [a]);
    BoundFits(crc, [b]);
  }

  lemma TwoFlatten(a: Entry, b: Entry)
    ensures Flatten([[a], [b]]) == [a, b]
  {
    var gs: seq<Block> := [[a], [b]];
    assert gs[1..] == [[b]] && [[b]][1..] == [];
    assert Flatten(gs[1..]) == [b] + [];
  }

  /**
   * Two versions of one key, too large for one block: the block-cached read of the written file
   * returns the older, the decoded read the newer.
   */
  lemma StaleCachedRead(crc: Checksum, hash: Hash, key: Key, newer: Bytes, older: Bytes, bloom: Bloom)
    returns (entries: seq<Entry>, seg: Segment)
    requires |key| <= MAX_KEY_SIZE && BLOCK_SIZE <= |newer| + |older| && |newer| <= MAX_VALUE_SIZE && |older| <= MAX_VALUE_SIZE
    requires bloom.k < U32_LIMIT && |bloom.bits| < U32_LIMIT && Contains(hash, bloom, key)
    ensures entries == [(key, VersionedEntry(2, Value(newer))), (key, VersionedEntry(1, Value(older)))]
    ensures StrictlySorted(entries) && Covers(hash, bloom, entries) && NonEmpty(Split(entries, [], 0))
    ensures Parse(crc, File(crc, Split(entries, [], 0), 2, bloom)) == Ok(seg)
    ensures GetCached(crc, hash, seg, key) == Ok(Some(VersionedEntry(1, Value(older))))
    ensures Get(seg, key) == Some(VersionedEntry(2, Value(newer)))
  {
    hide Contains;
    hide GetCached;
    hide Parse;
    hide File;
    hide FileFits;
    var a, b: Entry := (key, VersionedEntry(2, Value(newer))), (key, VersionedEntry(1, Value(older)));
    entries := [a, b];
    SplitOfTwo(a, b);
    TwoBlocksFit(crc, a, b, 2, bloom);
    TwoFlatten(a, b);
    FitsNonEmpty(crc, [[a], [b]], 2, bloom);
    FileRoundTrip(crc, [[a], [b]], 2, bloom);
    seg := Parse(crc, File(crc, [[a], [b]], 2, bloom)).value;
    LastBlockRead(crc, hash, a, b, 2, bloom, seg);
    FrontIsFirst(entries, key);
  }

  /** The index points to the last block that starts with the key. */
  lemma LastBlockRead(crc: Checksum, hash: Hash, a: Entry, b: Entry, maxSequence: nat, bloom: Bloom, seg: Segment)
    requires FileFits(crc, [[a], [b]], maxSequence, bloom) && StrictlySorted([a, b]) && a.0 == b.0 && Contains(hash, bloom, a.0)
    requires NonEmpty([[a], [b]]) && seg.raw == File(crc, [[a], [b]], maxSequence, bloom)
    requires seg.index == IndexOf(crc, [[a], [b]], HEADER_SIZE) && seg.bloom == StoredBloom([[a], [b]], bloom)
    ensures GetCached(crc, hash, seg, a.0) == Ok(Some(b.1))
  {
    hide GetCached;
    hide File;
    hide FileFits;
    hide IndexOf;
    hide StrictlySorted;
    TwoFlatten(a, b);
    CachedIsBlock(crc, hash, [[a], [b]], maxSequence, bloom, seg, a.0);
    LessIrreflexive(a.0);
    assert FirstOf([b], a.0) == Some(b.1);
  }
}
