/** Versioned entries, version chains, tables of chains, and the history they come from. */
module Versions {
  import opened Encoding
  import opened Options

  /** Upper bound for "current" reads; every allocated sequence is below it. */
  const LATEST: nat := U64_MAX

  datatype EntryValue = Value(bytes: Bytes) | Tombstone

  datatype VersionedEntry = VersionedEntry(sequence: nat, value: EntryValue)

  /** Newest version first. */
  type Chain = seq<VersionedEntry>

  type Table = map<Key, Chain>

  /** One acknowledged operation: a put or a delete of `key` at `sequence`. */
  datatype Op = Op(sequence: nat, key: Key, value: EntryValue)

  type History = seq<Op>

  function Version(o: Op): VersionedEntry
  {
    VersionedEntry(o.sequence, o.value)
  }

  /** What a reader is given for a version: nothing for a tombstone. */
  function Live(r: Option<VersionedEntry>): Option<Bytes>
  {
    if r.Some? && r.value.value.Value? then Some(r.value.value.bytes) else None
  }

  // -------------------------------------------------------------------------
  // Chains
  // -------------------------------------------------------------------------

  ghost predicate Descending(c: Chain)
  {
    forall i, j :: 0 <= i < j < |c| ==> c[i].sequence > c[j].sequence
  }

  /** The first version at or below `s`, scanning from the front. */
  function FirstVisible(c: Chain, s: nat): (r: Option<VersionedEntry>)
    ensures r.Some? ==> r.value in c && r.value.sequence <= s
    ensures r.None? ==> forall v :: v in c ==> v.sequence > s
  {
    if c == [] then None
    else if c[0].sequence <= s then Some(c[0])
    else FirstVisible(c[1..], s)
  }

  /** In a descending chain the first visible version is the newest visible one. */
  lemma {:induction false} FirstVisibleIsNewest(c: Chain, s: nat, v: VersionedEntry)
    requires Descending(c) && v in c && v.sequence <= s
    ensures FirstVisible(c, s).Some? && FirstVisible(c, s).value.sequence >= v.sequence
  {
    if c[0].sequence > s {
      assert v in c[1..];
      FirstVisibleIsNewest(c[1..], s, v);
    }
  }

  /** A version of a descending chain is determined by its sequence. */
  lemma DescendingUnique(c: Chain, v: VersionedEntry, w: VersionedEntry)
    requires Descending(c) && v in c && w in c && v.sequence == w.sequence
    ensures v == w
  {
  }

  // -------------------------------------------------------------------------
  // Tables
  // -------------------------------------------------------------------------

  function ChainOf(t: Table, k: Key): Chain
  {
    if k in t then t[k] else []
  }

  function Visible(t: Table, k: Key, s: nat): Option<VersionedEntry>
  {
    if k in t then FirstVisible(t[k], s) else None
  }

  /** The front of the chain, whatever its sequence: the read without a snapshot. */
  function Front(t: Table, k: Key): Option<VersionedEntry>
  {
    if k in t && t[k] != [] then Some(t[k][0]) else None
  }

  function Push(t: Table, k: Key, v: VersionedEntry): Table
  {
    t[k := [v] + (if k in t then t[k] else [])]
  }

  ghost predicate Has(t: Table, k: Key, v: VersionedEntry)
  {
    k in t && v in t[k]
  }

  ghost predicate Strict(t: Table)
  {
    forall k :: k in t ==> t[k] != [] && Descending(t[k])
  }

  /** No version of the table lies above `m`. */
  ghost predicate AtMost(t: Table, m: nat)
  {
    forall k, v :: Has(t, k, v) ==> v.sequence <= m
  }

  /** `m` is the greatest sequence of the table, 0 for a table without versions. */
  ghost predicate IsMaxSequence(t: Table, m: nat)
  {
    AtMost(t, m) && (m == 0 || exists k, v :: Has(t, k, v) && v.sequence == m)
  }

  ghost function MaxOf(s: set<nat>): (m: nat)
    ensures forall x :: x in s ==> x <= m
    ensures m == 0 || m in s
  {
    if s == {} then 0
    else
      var x :| x in s;
      var m := MaxOf(s - {x});
      assert forall y :: y in s ==> y == x || y in s - {x};
      if x > m then x else m
  }

  /** The greatest sequence of a table. */
  ghost function Hi(t: Table): (m: nat)
    ensures IsMaxSequence(t, m)
  {
    var s := set k, i | k in t && 0 <= i < |t[k]| :: t[k][i].sequence;
    var m := MaxOf(s);
    assert AtMost(t, m) by {
      forall k, v | Has(t, k, v)
        ensures v.sequence <= m
      {
        var i :| 0 <= i < |t[k]| && t[k][i] == v;
        assert t[k][i].sequence in s;
      }
    }
    assert m == 0 || exists k, v :: Has(t, k, v) && v.sequence == m by {
      if m != 0 {
        var k, i :| k in t && 0 <= i < |t[k]| && t[k][i].sequence == m;
        assert Has(t, k, t[k][i]);
      }
    }
    assert IsMaxSequence(t, m);
    m
  }

  lemma MaxSequenceUnique(t: Table, m: nat, n: nat)
    requires IsMaxSequence(t, m) && IsMaxSequence(t, n)
    ensures m == n
  {
  }

  /** The maximum as the store computes it, looking only at the front of each chain. */
  ghost function FrontMax(t: Table): (m: nat)
    ensures forall k :: k in t && t[k] != [] ==> t[k][0].sequence <= m
    ensures m == 0 || exists k :: k in t && t[k] != [] && t[k][0].sequence == m
  {
    var s := set k | k in t && t[k] != [] :: t[k][0].sequence;
    assert forall k :: k in t && t[k] != [] ==> t[k][0].sequence in s;
    MaxOf(s)
  }

  lemma FrontMaxIsHi(t: Table)
    requires Strict(t)
    ensures FrontMax(t) == Hi(t)
  {
    forall k, v | Has(t, k, v)
      ensures v.sequence <= FrontMax(t)
    {
    }
    if FrontMax(t) != 0 {
      var k :| k in t && t[k] != [] && t[k][0].sequence == FrontMax(t);
      assert Has(t, k, t[k][0]);
    }
    MaxSequenceUnique(t, FrontMax(t), Hi(t));
  }

  ghost predicate WeaklyDescending(c: Chain)
  {
    forall i, j :: 0 <= i < j < |c| ==> c[i].sequence >= c[j].sequence
  }

  /** What a segment file makes of a table: each chain sorted by descending sequence, ties in any order. */
  ghost predicate SortedVersion(t': Table, t: Table)
  {
    && t'.Keys == t.Keys
    && forall k :: k in t ==> WeaklyDescending(t'[k]) && multiset(t'[k]) == multiset(t[k])
  }

  lemma SortedHead(c: Chain, d: Chain)
    requires Descending(c) && WeaklyDescending(d) && multiset(d) == multiset(c) && c != []
    ensures d != [] && d[0] == c[0]
  {
    assert c[0] in multiset(d);
    var i :| 0 <= i < |d| && d[i] == c[0];
    assert d[0].sequence >= d[i].sequence;
    assert d[0] in multiset(c);
    DescendingUnique(c, c[0], d[0]);
  }

  lemma TailMultiset(c: Chain)
    requires c != []
    ensures multiset(c[1..]) == multiset(c) - multiset{c[0]}
  {
    assert c == [c[0]] + c[1..];
  }

  lemma TailsDescend(c: Chain, d: Chain)
    requires Descending(c) && WeaklyDescending(d) && c != [] && d != []
    ensures Descending(c[1..]) && WeaklyDescending(d[1..])
  {
  }

  lemma {:induction false} SortedUnique(c: Chain, d: Chain)
    requires Descending(c) && WeaklyDescending(d) && multiset(d) == multiset(c)
    ensures d == c
  {
    if c == [] {
      assert |multiset(d)| == |d| && |multiset(c)| == |c|;
    } else {
      SortedHead(c, d);
      TailMultiset(c);
      TailMultiset(d);
      TailsDescend(c, d);
      hide Descending;
      hide WeaklyDescending;
      SortedUnique(c[1..], d[1..]);
      assert c == [c[0]] + c[1..] && d == [d[0]] + d[1..];
    }
  }

  /** Writing a table out changes nothing when its chains are strictly descending. */
  lemma SortedVersionOfStrict(t': Table, t: Table)
    requires Strict(t) && SortedVersion(t', t)
    ensures t' == t
  {
    forall k | k in t
      ensures t'[k] == t[k]
    {
      SortedUnique(t[k], t'[k]);
    }
  }

  /** The table filled by inserting the operations in order. */
  function TableOf(h: History): Table
  {
    if h == [] then map[]
    else Push(TableOf(h[..|h| - 1]), h[|h| - 1].key, Version(h[|h| - 1]))
  }

  // -------------------------------------------------------------------------
  // Histories
  // -------------------------------------------------------------------------

  ghost predicate Increasing(h: History)
  {
    forall i, j :: 0 <= i < j < |h| ==> h[i].sequence < h[j].sequence
  }

  /** The specification of every read: the last operation on `k` at or below `s`. */
  function Latest(h: History, k: Key, s: nat): (r: Option<VersionedEntry>)
    ensures r.Some? ==> Op(r.value.sequence, k, r.value.value) in h && r.value.sequence <= s
    ensures r.None? ==> forall o :: o in h && o.key == k ==> o.sequence > s
  {
    if h == [] then None
    else
      var o := h[|h| - 1];
      if o.key == k && o.sequence <= s then Some(Version(o)) else Latest(h[..|h| - 1], k, s)
  }

  lemma {:induction false} LatestIsNewest(h: History, k: Key, s: nat, o: Op)
    requires Increasing(h) && o in h && o.key == k && o.sequence <= s
    ensures Latest(h, k, s).Some? && Latest(h, k, s).value.sequence >= o.sequence
  {
    var p := h[|h| - 1];
    if !(p.key == k && p.sequence <= s) {
      assert o in h[..|h| - 1];
      LatestIsNewest(h[..|h| - 1], k, s, o);
    }
  }

  lemma SequencesIdentify(h: History, o: Op, p: Op)
    requires Increasing(h) && o in h && p in h && o.sequence == p.sequence
    ensures o == p
  {
  }

  /** A table filled from a history holds exactly the history's operations. */
  lemma {:induction false} TableOfHas(h: History, k: Key, v: VersionedEntry)
    ensures Has(TableOf(h), k, v) <==> Op(v.sequence, k, v.value) in h
  {
    if h != [] {
      var g, o := h[..|h| - 1], h[|h| - 1];
      TableOfHas(g, k, v);
      assert h == g + [o];
    }
  }

  lemma {:induction false} TableOfStrict(h: History)
    requires Increasing(h)
    ensures Strict(TableOf(h))
  {
    if h != [] {
      var g, o := h[..|h| - 1], h[|h| - 1];
      TableOfStrict(g);
      forall v | Has(TableOf(g), o.key, v)
        ensures v.sequence < o.sequence
      {
        TableOfHas(g, o.key, v);
      }
    }
  }
}
