/**
 * Append-only files made of self-delimiting records. The write-ahead log and the
 * manifest are both read this way: a record is decoded at the cursor, the cursor moves
 * past it, and the first byte range that does not decode ends the valid prefix.
 *
 * A decoder maps the bytes from the cursor on to `Some((record, length))`, or to `None`
 * when no whole valid record stands there.
 */
module Framing {
  import opened Encoding
  import opened Options

  type Decoder<!R> = Bytes -> Option<(R, nat)>

  /** What a decoder returns depends only on the bytes of the record it returns. */
  ghost predicate SelfDelimiting<R(!new)>(dec: Decoder<R>)
  {
    && (forall x: Bytes :: dec(x).Some? ==> 0 < dec(x).value.1 <= |x|)
    && (forall x: Bytes, n: nat {:trigger dec(x[..n])} ::
          dec(x).Some? && n == dec(x).value.1 && n <= |x| ==> dec(x[..n]) == dec(x))
    && (forall x: Bytes, y: Bytes {:trigger dec(x + y)} :: dec(x).Some? ==> dec(x + y) == dec(x))
  }

  /** `dec` reads back the encoding of `r`, whatever follows it. */
  ghost predicate ReadsBack<R(!new)>(dec: Decoder<R>, enc: R -> Bytes, r: R)
  {
    forall y: Bytes {:trigger dec(enc(r) + y)} :: dec(enc(r) + y) == Some((r, |enc(r)|))
  }

  ghost predicate AllReadBack<R(!new)>(dec: Decoder<R>, enc: R -> Bytes, rs: seq<R>)
  {
    forall i :: 0 <= i < |rs| ==> ReadsBack(dec, enc, rs[i])
  }

  /** The records of the valid prefix. */
  function Records<R>(dec: Decoder<R>, b: Bytes): seq<R>
    decreases |b|
  {
    match dec(b)
    case None => []
    case Some((r, n)) => if 0 < n <= |b| then [r] + Records(dec, b[n..]) else []
  }

  /** The length in bytes of the valid prefix. */
  function ValidLength<R>(dec: Decoder<R>, b: Bytes): (n: nat)
    ensures n <= |b|
    decreases |b|
  {
    match dec(b)
    case None => 0
    case Some((r, n)) => if 0 < n <= |b| then n + ValidLength(dec, b[n..]) else 0
  }

  function EncodeAll<R>(enc: R -> Bytes, rs: seq<R>): Bytes
  {
    if rs == [] then [] else enc(rs[0]) + EncodeAll(enc, rs[1..])
  }

  lemma {:induction false} EncodeAllAppend<R>(enc: R -> Bytes, a: seq<R>, b: seq<R>)
    ensures EncodeAll(enc, a + b) == EncodeAll(enc, a) + EncodeAll(enc, b)
  {
    if a == [] {
      assert a + b == b;
    } else {
      EncodeAllAppend(enc, a[1..], b);
      assert (a + b)[1..] == a[1..] + b;
      Reassociate(enc(a[0]), EncodeAll(enc, a[1..]), EncodeAll(enc, b));
    }
  }

  lemma Reassociate<T>(a: seq<T>, b: seq<T>, c: seq<T>)
    ensures a + (b + c) == a + b + c
  {
  }

  lemma Step<R>(dec: Decoder<R>, b: Bytes, r: R, n: nat)
    requires dec(b) == Some((r, n)) && 0 < n <= |b|
    ensures Records(dec, b) == [r] + Records(dec, b[n..])
    ensures ValidLength(dec, b) == n + ValidLength(dec, b[n..])
  {
  }

  lemma DecodesExtended<R(!new)>(dec: Decoder<R>, x: Bytes, y: Bytes)
    requires SelfDelimiting(dec) && dec(x).Some?
    ensures dec(x + y) == dec(x) && 0 < dec(x).value.1 <= |x|
    ensures (x + y)[dec(x).value.1..] == x[dec(x).value.1..] + y
  {
    var n := dec(x).value.1;
    hide SelfDelimiting;
    assert (x + y)[n..] == x[n..] + y;
  }

  /** A file that is valid to its end goes on to be read with whatever is appended. */
  lemma {:induction false} RecordsExtend<R(!new)>(dec: Decoder<R>, x: Bytes, y: Bytes)
    requires SelfDelimiting(dec)
    requires ValidLength(dec, x) == |x|
    ensures Records(dec, x + y) == Records(dec, x) + Records(dec, y)
    ensures ValidLength(dec, x + y) == |x| + ValidLength(dec, y)
    decreases |x|
  {
    if x == [] {
      assert x + y == y;
    } else {
      DecodesExtended(dec, x, y);
      hide SelfDelimiting;
      var (r, n) := dec(x).value;
      RecordsExtend(dec, x[n..], y);
      Step(dec, x + y, r, n);
      Step(dec, x, r, n);
      Reassociate([r], Records(dec, x[n..]), Records(dec, y));
    }
  }

  /** The valid prefix, cut out, is valid to its end and holds the same records. */
  lemma {:induction false} ValidPrefixIsValid<R(!new)>(dec: Decoder<R>, b: Bytes)
    requires SelfDelimiting(dec)
    ensures var v := b[..ValidLength(dec, b)];
            Records(dec, v) == Records(dec, b) && ValidLength(dec, v) == |v|
    decreases |b|
  {
    var v := b[..ValidLength(dec, b)];
    match dec(b)
    case None =>
      assert v == [];
    case Some((r, n)) =>
      ValidPrefixIsValid(dec, b[n..]);
      assert v == b[..n] + v[n..];
      assert dec(b[..n] + v[n..]) == dec(b[..n]);
      assert v[n..] == b[n..][..ValidLength(dec, b[n..])];
  }

  // -------------------------------------------------------------------------
  // Reading with a cursor
  // -------------------------------------------------------------------------

  /** A reader has taken the records `done` from the first `at` bytes, all of them valid. */
  ghost predicate Cursor<R>(dec: Decoder<R>, b: Bytes, at: nat, done: seq<R>)
  {
    at <= |b| && ValidLength(dec, b[..at]) == at && Records(dec, b[..at]) == done
  }

  lemma CursorStart<R>(dec: Decoder<R>, b: Bytes)
    requires dec([]).None?
    ensures Cursor(dec, b, 0, [])
  {
    assert b[..0] == [];
  }

  lemma OneRecord<R(!new)>(dec: Decoder<R>, x: Bytes, r: R, n: nat)
    requires SelfDelimiting(dec) && dec(x) == Some((r, n))
    ensures 0 < n <= |x| && Records(dec, x[..n]) == [r] && ValidLength(dec, x[..n]) == n
  {
    assert dec(x[..n]) == dec(x);
    hide SelfDelimiting;
    Step(dec, x[..n], r, n);
    assert x[..n][n..] == [];
  }

  lemma Pieces<T>(b: seq<T>, at: nat, n: nat)
    requires at + n <= |b|
    ensures b[..at] + b[at..][..n] == b[..at + n] && b[..at + n] + b[at + n..] == b
  {
  }

  lemma CursorStep<R(!new)>(dec: Decoder<R>, b: Bytes, at: nat, done: seq<R>, r: R, n: nat)
    requires SelfDelimiting(dec) && Cursor(dec, b, at, done) && dec(b[at..]) == Some((r, n))
    ensures 0 < n && at + n <= |b| && Cursor(dec, b, at + n, done + [r])
    ensures Records(dec, b) == done + [r] + Records(dec, b[at + n..])
  {
    hide SelfDelimiting;
    hide Records;
    hide ValidLength;
    OneRecord(dec, b[at..], r, n);
    Pieces(b, at, n);
    RecordsExtend(dec, b[..at], b[at..][..n]);
    RecordsExtend(dec, b[..at + n], b[at + n..]);
  }

  lemma CursorEnd<R(!new)>(dec: Decoder<R>, b: Bytes, at: nat, done: seq<R>)
    requires SelfDelimiting(dec) && Cursor(dec, b, at, done) && dec(b[at..]).None?
    ensures Records(dec, b) == done && ValidLength(dec, b) == at
  {
    hide SelfDelimiting;
    RecordsExtend(dec, b[..at], b[at..]);
    assert b[..at] + b[at..] == b;
    assert done + [] == done;
  }

  lemma {:induction false} RecordsOfEncoding<R(!new)>(dec: Decoder<R>, enc: R -> Bytes, rs: seq<R>)
    requires SelfDelimiting(dec) && AllReadBack(dec, enc, rs)
    ensures Records(dec, EncodeAll(enc, rs)) == rs
    ensures ValidLength(dec, EncodeAll(enc, rs)) == |EncodeAll(enc, rs)|
  {
    if rs != [] {
      var tail := EncodeAll(enc, rs[1..]);
      assert ReadsBack(dec, enc, rs[0]);
      assert dec(enc(rs[0]) + tail) == Some((rs[0], |enc(rs[0])|));
      RecordsOfEncoding(dec, enc, rs[1..]);
      assert (enc(rs[0]) + tail)[|enc(rs[0])|..] == tail;
    }
  }

  /** The number of records that lie wholly within the first `n` bytes. */
  function WholeRecords<R>(enc: R -> Bytes, rs: seq<R>, n: nat): (m: nat)
    ensures m <= |rs|
    decreases |rs|
  {
    if rs == [] || n < |enc(rs[0])| then 0
    else 1 + WholeRecords(enc, rs[1..], n - |enc(rs[0])|)
  }

  /** No proper prefix of a record decodes: it would decode the same in the whole record. */
  lemma TornRecord<R(!new)>(dec: Decoder<R>, enc: R -> Bytes, r: R, n: nat)
    requires SelfDelimiting(dec) && ReadsBack(dec, enc, r)
    requires n < |enc(r)|
    ensures dec(enc(r)[..n]).None?
  {
    var x := enc(r)[..n];
    assert x + enc(r)[n..] == enc(r) + [];
    assert dec(enc(r) + []) == Some((r, |enc(r)|));
    var y := enc(r)[n..];
    assert dec(x + y) == dec(enc(r) + []);
  }

  /**
   * Torn writes. Every byte-prefix of a log that was written record by record reads as
   * exactly the records that lie wholly within it.
   */
  lemma {:induction false} TornLog<R(!new)>(dec: Decoder<R>, enc: R -> Bytes, rs: seq<R>, n: nat)
    requires SelfDelimiting(dec) && AllReadBack(dec, enc, rs)
    requires n <= |EncodeAll(enc, rs)|
    ensures Records(dec, EncodeAll(enc, rs)[..n]) == rs[..WholeRecords(enc, rs, n)]
    ensures ValidLength(dec, EncodeAll(enc, rs)[..n]) == |EncodeAll(enc, rs[..WholeRecords(enc, rs, n)])|
    decreases |rs|
  {
    hide SelfDelimiting;
    hide ReadsBack;
    hide Records;
    hide ValidLength;
    if rs == [] {
      RecordsOfEncoding(dec, enc, rs);
      assert EncodeAll(enc, rs)[..n] == EncodeAll(enc, rs) && rs[..0] == rs;
    } else {
      var e, tail := enc(rs[0]), EncodeAll(enc, rs[1..]);
      assert ReadsBack(dec, enc, rs[0]);
      if n < |e| {
        TakeOfSum(e, tail, n);
        TornHead(dec, enc, rs[0], n);
        NothingWhole(enc, rs);
      } else {
        var m := WholeRecords(enc, rs[1..], n - |e|);
        TakeOfSum(e, tail, n);
        ReadsFirst(dec, enc, rs[0], tail[..n - |e|]);
        TornLog(dec, enc, rs[1..], n - |e|);
        OneWhole(enc, rs, m);
      }
    }
  }

  lemma TakeOfSum<T>(a: seq<T>, b: seq<T>, n: nat)
    requires n <= |a + b|
    ensures (a + b)[..n] == if n < |a| then a[..n] else a + b[..n - |a|]
  {
  }

  lemma TornHead<R(!new)>(dec: Decoder<R>, enc: R -> Bytes, r: R, n: nat)
    requires SelfDelimiting(dec) && ReadsBack(dec, enc, r) && n < |enc(r)|
    ensures Records(dec, enc(r)[..n]) == [] && ValidLength(dec, enc(r)[..n]) == 0
  {
    TornRecord(dec, enc, r, n);
  }

  /** The first record is read, and the rest after it. */
  lemma ReadsFirst<R(!new)>(dec: Decoder<R>, enc: R -> Bytes, r: R, t: Bytes)
    requires SelfDelimiting(dec) && ReadsBack(dec, enc, r)
    ensures Records(dec, enc(r) + t) == [r] + Records(dec, t)
    ensures ValidLength(dec, enc(r) + t) == |enc(r)| + ValidLength(dec, t)
  {
    assert dec(enc(r) + t) == Some((r, |enc(r)|));
    assert (enc(r) + t)[|enc(r)|..] == t;
    assert 0 < |enc(r)|;
    hide SelfDelimiting;
    Step(dec, enc(r) + t, r, |enc(r)|);
  }

  lemma NothingWhole<R>(enc: R -> Bytes, rs: seq<R>)
    ensures rs[..0] == [] && EncodeAll(enc, rs[..0]) == []
  {
  }

  lemma OneWhole<R>(enc: R -> Bytes, rs: seq<R>, m: nat)
    requires rs != [] && m < |rs|
    ensures rs[..1 + m] == [rs[0]] + rs[1..][..m]
    ensures EncodeAll(enc, rs[..1 + m]) == enc(rs[0]) + EncodeAll(enc, rs[1..][..m])
  {
    assert rs[..1 + m][1..] == rs[1..][..m] && rs[..1 + m][0] == rs[0];
  }

  /** A torn append: what was there stays, and the records wholly before the cut are added. */
  lemma TornAppend<R(!new)>(dec: Decoder<R>, enc: R -> Bytes, file: Bytes, rs: seq<R>, n: nat)
    requires SelfDelimiting(dec) && AllReadBack(dec, enc, rs) && ValidLength(dec, file) == |file|
    requires n <= |EncodeAll(enc, rs)|
    ensures Records(dec, file + EncodeAll(enc, rs)[..n]) == Records(dec, file) + rs[..WholeRecords(enc, rs, n)]
  {
    TornLog(dec, enc, rs, n);
    RecordsExtend(dec, file, EncodeAll(enc, rs)[..n]);
  }

  lemma {:induction false} EncodeSnoc<R>(enc: R -> Bytes, rs: seq<R>, i: nat)
    requires i < |rs|
    ensures EncodeAll(enc, rs[..i + 1]) == EncodeAll(enc, rs[..i]) + enc(rs[i])
  {
    EncodeAllAppend(enc, rs[..i], [rs[i]]);
    assert rs[..i] + [rs[i]] == rs[..i + 1];
    assert [rs[i]][1..] == [] && EncodeAll(enc, [rs[i]]) == enc(rs[i]) + [];
  }

  lemma EncodeOne<R>(enc: R -> Bytes, r: R)
    ensures EncodeAll(enc, [r]) == enc(r)
  {
    assert [r][1..] == [] && EncodeAll(enc, [r]) == enc(r) + [];
  }

  lemma WholeOne<R>(enc: R -> Bytes, r: R, n: nat)
    ensures WholeRecords(enc, [r], n) == if n < |enc(r)| then 0 else 1
  {
    assert [r][1..] == [];
  }

  /** A torn append of one record adds it only when all of it is there. */
  lemma TornOne<R(!new)>(dec: Decoder<R>, enc: R -> Bytes, file: Bytes, r: R, n: nat)
    requires SelfDelimiting(dec) && ReadsBack(dec, enc, r) && ValidLength(dec, file) == |file|
    requires n <= |enc(r)|
    ensures Records(dec, file + enc(r)[..n]) == Records(dec, file) + if n == |enc(r)| then [r] else []
  {
    assert AllReadBack(dec, enc, [r]);
    hide *;
    EncodeOne(enc, r);
    WholeOne(enc, r, n);
    TornAppend(dec, enc, file, [r], n);
  }

  /** A cut at or beyond the end of the first `k` records keeps at least those. */
  lemma {:induction false} WholeRecordsAtLeast<R>(enc: R -> Bytes, rs: seq<R>, k: nat, n: nat)
    requires k <= |rs| && |EncodeAll(enc, rs[..k])| <= n
    ensures WholeRecords(enc, rs, n) >= k
    decreases k
  {
    if k > 0 {
      assert rs[..k][1..] == rs[1..][..k - 1];
      assert rs[..k][0] == rs[0];
      WholeRecordsAtLeast(enc, rs[1..], k - 1, n - |enc(rs[0])|);
    }
  }
}
