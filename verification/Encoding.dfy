/** Bytes, little-endian integers and the byte-lexicographic order on keys. */
module Encoding {

  type byte = x: int | 0 <= x < 256
  type Bytes = seq<byte>
  type Key = Bytes

  const U16_LIMIT: nat := 0x1_0000
  const U32_LIMIT: nat := 0x1_0000_0000
  const U64_LIMIT: nat := 0x1_0000_0000_0000_0000
  const U64_MAX: nat := U64_LIMIT - 1

  type u32 = x: int | 0 <= x < 0x1_0000_0000

  /** A 32-bit checksum. Nothing is used of it except that it is a function of the bytes. */
  type Checksum = Bytes -> u32

  // -------------------------------------------------------------------------
  // Little-endian integers
  // -------------------------------------------------------------------------

  function Pow256(w: nat): (p: nat)
    ensures p > 0
  {
    if w == 0 then 1 else 256 * Pow256(w - 1)
  }

  /** The low `w` bytes of `n`, least significant first. */
  function LE(n: nat, w: nat): (s: Bytes)
    ensures |s| == w
    decreases w
  {
    if w == 0 then [] else [n % 256] + LE(n / 256, w - 1)
  }

  function FromLE(s: Bytes): (n: nat)
  {
    if s == [] then 0 else s[0] + 256 * FromLE(s[1..])
  }

  lemma {:induction false} LeRoundTrip(n: nat, w: nat)
    requires n < Pow256(w)
    ensures FromLE(LE(n, w)) == n
    decreases w
  {
    if w > 0 {
      LeRoundTrip(n / 256, w - 1);
      assert LE(n, w)[1..] == LE(n / 256, w - 1);
    }
  }

  lemma {:induction false} FromLeBound(s: Bytes)
    ensures FromLE(s) < Pow256(|s|)
  {
    if s != [] {
      FromLeBound(s[1..]);
    }
  }

  lemma {:induction false} LeOfFromLe(s: Bytes)
    ensures LE(FromLE(s), |s|) == s
  {
    if s != [] {
      LeOfFromLe(s[1..]);
      var n := FromLE(s);
      assert n % 256 == s[0] && n / 256 == FromLE(s[1..]);
      assert s == [s[0]] + s[1..];
    }
  }

  lemma PowValues()
    ensures Pow256(2) == U16_LIMIT && Pow256(4) == U32_LIMIT && Pow256(8) == U64_LIMIT
  {
    assert Pow256(1) == 256;
    assert Pow256(2) == 0x1_0000;
    assert Pow256(3) == 0x100_0000;
    assert Pow256(4) == 0x1_0000_0000;
    assert Pow256(5) == 0x100_0000_0000;
    assert Pow256(6) == 0x1_0000_0000_0000;
    assert Pow256(7) == 0x100_0000_0000_0000;
  }

  /** The unsigned field of `w` bytes at offset `at`. */
  function Field(data: Bytes, at: nat, w: nat): nat
    requires at + w <= |data|
  {
    FromLE(data[at..at + w])
  }

  function ByteAt(data: Bytes, i: nat): nat
    requires i < |data|
  {
    data[i]
  }

  /** What the fields of two, four and eight bytes say: the first byte counts least. */
  lemma FieldBytes(data: Bytes, at: nat)
    ensures at + 2 <= |data| ==> Field(data, at, 2) == ByteAt(data, at) + 0x100 * ByteAt(data, at + 1)
    ensures at + 4 <= |data| ==>
              Field(data, at, 4) ==
              ByteAt(data, at) + 0x100 * ByteAt(data, at + 1) + 0x1_0000 * ByteAt(data, at + 2) + 0x100_0000 * ByteAt(data, at + 3)
    ensures at + 8 <= |data| ==>
              Field(data, at, 8) ==
              ByteAt(data, at) + 0x100 * ByteAt(data, at + 1) + 0x1_0000 * ByteAt(data, at + 2) + 0x100_0000 * ByteAt(data, at + 3)
              + 0x1_0000_0000 * ByteAt(data, at + 4) + 0x100_0000_0000 * ByteAt(data, at + 5)
              + 0x1_0000_0000_0000 * ByteAt(data, at + 6) + 0x100_0000_0000_0000 * ByteAt(data, at + 7)
  {
    if at + 2 <= |data| {
      TwoBytes(data, at);
    }
    if at + 4 <= |data| {
      FourBytes(data, at);
    }
    if at + 8 <= |data| {
      FieldStep(data, at, 8);
      FieldStep(data, at + 1, 7);
      FieldStep(data, at + 2, 6);
      FieldStep(data, at + 3, 5);
      FourBytes(data, at + 4);
    }
    hide Field;
  }

  lemma TwoBytes(data: Bytes, at: nat)
    requires at + 2 <= |data|
    ensures Field(data, at, 2) == ByteAt(data, at) + 0x100 * ByteAt(data, at + 1)
  {
    FieldStep(data, at, 2);
    FieldStep(data, at + 1, 1);
    hide Field;
  }

  lemma FourBytes(data: Bytes, at: nat)
    requires at + 4 <= |data|
    ensures Field(data, at, 4) ==
            ByteAt(data, at) + 0x100 * ByteAt(data, at + 1) + 0x1_0000 * ByteAt(data, at + 2) + 0x100_0000 * ByteAt(data, at + 3)
  {
    FieldStep(data, at, 4);
    FieldStep(data, at + 1, 3);
    TwoBytes(data, at + 2);
    hide Field;
  }

  lemma FieldStep(data: Bytes, at: nat, w: nat)
    requires 0 < w && at + w <= |data|
    ensures Field(data, at, w) == ByteAt(data, at) + 256 * Field(data, at + 1, w - 1)
    ensures Field(data, at + w, 0) == 0
  {
    assert data[at..at + w][1..] == data[at + 1..at + w];
  }

  // -------------------------------------------------------------------------
  // Key order
  // -------------------------------------------------------------------------

  predicate Less(a: Key, b: Key)
  {
    if b == [] then false
    else if a == [] then true
    else if a[0] != b[0] then a[0] < b[0]
    else Less(a[1..], b[1..])
  }

  predicate LessEq(a: Key, b: Key)
  {
    !Less(b, a)
  }

  /** The keys are the same before `i`, where `a` has the smaller byte. */
  ghost predicate SmallerAt(a: Key, b: Key, i: nat)
  {
    i < |a| && i < |b| && a[..i] == b[..i] && a[i] < b[i]
  }

  /** The byte-lexicographic order: a proper prefix comes before, otherwise the first byte that differs decides. */
  ghost predicate ComesBefore(a: Key, b: Key)
  {
    (|a| < |b| && a == b[..|a|]) || exists i: nat :: SmallerAt(a, b, i)
  }

  /** The comparison byte by byte is that order. */
  lemma {:induction false} LessIsComesBefore(a: Key, b: Key)
    ensures Less(a, b) <==> ComesBefore(a, b)
  {
    if a != [] && b != [] && a[0] == b[0] {
      LessIsComesBefore(a[1..], b[1..]);
      BeforeByTails(a, b);
    } else if a != [] && b != [] {
      assert a[..0] == b[..0];
      assert SmallerAt(a, b, 0) <==> a[0] < b[0];
      assert forall i: nat :: SmallerAt(a, b, i) && i > 0 ==> a[..i][0] == b[..i][0];
    }
  }

  lemma BeforeByTails(a: Key, b: Key)
    requires a != [] && b != [] && a[0] == b[0]
    ensures ComesBefore(a, b) <==> ComesBefore(a[1..], b[1..])
  {
    if i: nat :| SmallerAt(a, b, i) {
      assert a[1..][..i - 1] == a[..i][1..] && b[1..][..i - 1] == b[..i][1..];
      assert SmallerAt(a[1..], b[1..], i - 1);
    }
    if i: nat :| SmallerAt(a[1..], b[1..], i) {
      assert a[..i + 1] == [a[0]] + a[1..][..i] && b[..i + 1] == [b[0]] + b[1..][..i];
      assert SmallerAt(a, b, i + 1);
    }
    if |a| < |b| {
      assert a == [a[0]] + a[1..] && b[..|a|] == [b[0]] + b[1..][..|a| - 1];
    }
  }

  lemma {:induction false} LessIrreflexive(a: Key)
    ensures !Less(a, a)
  {
    if a != [] {
      LessIrreflexive(a[1..]);
    }
  }

  lemma {:induction false} LessTransitive(a: Key, b: Key, c: Key)
    requires Less(a, b) && Less(b, c)
    ensures Less(a, c)
  {
    if a != [] && a[0] == b[0] && b[0] == c[0] {
      LessTransitive(a[1..], b[1..], c[1..]);
    }
  }

  lemma {:induction false} LessTotal(a: Key, b: Key)
    ensures Less(a, b) || Less(b, a) || a == b
  {
    if a != [] && b != [] && a[0] == b[0] {
      LessTotal(a[1..], b[1..]);
      assert a == [a[0]] + a[1..] && b == [b[0]] + b[1..];
    }
  }
}
