/**
 * Compaction merges all segments into one. The rule that decides which versions of a key
 * survive is modelled twice: as the code has it (`Retain`) and as its documentation has
 * it (`RetainDocumented`).
 */
module Compaction {
  import opened Encoding
  import opened Options
  import opened Versions
  import opened Layers

  // -------------------------------------------------------------------------
  // Merging the chains of one key
  // -------------------------------------------------------------------------

  /** Adds a version to a chain, newest first, unless its sequence is there already. */
  function Insert(c: Chain, v: VersionedEntry): Chain
  {
    if c == [] || c[0].sequence < v.sequence then [v] + c
    else if c[0].sequence == v.sequence then c
    else [c[0]] + Insert(c[1..], v)
  }

  function InsertAll(c: Chain, vs: Chain): Chain
  {
    if vs == [] then c else Insert(InsertAll(c, vs[..|vs| - 1]), vs[|vs| - 1])
  }

  ghost predicate HasSequence(c: Chain, n: nat)
  {
    exists w :: w in c && w.sequence == n
  }

  lemma DescendingCons(head: VersionedEntry, rest: Chain)
    requires Descending(rest) && forall v :: v in rest ==> v.sequence < head.sequence
    ensures Descending([head] + rest)
  {
  }

  lemma DescendingTail(c: Chain)
    requires c != [] && Descending(c)
    ensures Descending(c[1..]) && forall v :: v in c[1..] ==> v.sequence < c[0].sequence
  {
  }

  lemma {:induction false} InsertHas(c: Chain, v: VersionedEntry)
    requires Descending(c)
    ensures Descending(Insert(c, v))
    ensures forall x :: x in Insert(c, v) <==> x in c || (x == v && !HasSequence(c, v.sequence))
  {
    if c != [] && c[0].sequence >= v.sequence {
      assert c[0] in c;
      assert forall x :: x in c <==> x == c[0] || x in c[1..];
      if c[0].sequence > v.sequence {
        InsertHas(c[1..], v);
        DescendingTail(c);
        DescendingCons(c[0], Insert(c[1..], v));
        assert HasSequence(c[1..], v.sequence) <==> HasSequence(c, v.sequence);
      }
    }
  }

  /** Whatever order the versions come in, the chain stays strictly newest first, with one version for each
      sequence there is. */
  lemma {:induction false} InsertAllHas(c: Chain, vs: Chain)
    requires Descending(c)
    ensures Descending(InsertAll(c, vs))
    ensures forall x :: x in InsertAll(c, vs) ==> x in c || x in vs
    ensures forall x :: x in c ==> x in InsertAll(c, vs)
    ensures forall x :: x in vs ==> HasSequence(InsertAll(c, vs), x.sequence)
  {
    if vs != [] {
      var before, v := InsertAll(c, vs[..|vs| - 1]), vs[|vs| - 1];
      InsertAllHas(c, vs[..|vs| - 1]);
      InsertHas(before, v);
      assert forall x :: x in vs ==> x in vs[..|vs| - 1] || x == v;
      forall x | x in vs
        ensures HasSequence(InsertAll(c, vs), x.sequence)
      {
        if HasSequence(before, x.sequence) {
          var w :| w in before && w.sequence == x.sequence;
          assert w in InsertAll(c, vs);
        } else {
          assert x in InsertAll(c, vs);
        }
      }
    }
  }

  /** All versions of `k` in the tables, newest first; of two with the same sequence the first met. */
  function FullChain(ts: LayerList, k: Key): Chain
  {
    if ts == [] then [] else InsertAll(FullChain(ts[..|ts| - 1], k), ChainOf(ts[|ts| - 1], k))
  }

  lemma OneChain(c: Chain, v: VersionedEntry)
    ensures InsertAll(c, [v]) == Insert(c, v)
  {
    var none: Chain := [v][..0];
    assert none == [] && InsertAll(c, none) == c;
  }

  /** The chain of a key with one version in each of the last two tables and none before. */
  lemma TwoVersions(ts: LayerList, k: Key, w: VersionedEntry, v: VersionedEntry)
    requires |ts| >= 2 && w.sequence > v.sequence
    requires ChainOf(ts[|ts| - 2], k) == [w] && ChainOf(ts[|ts| - 1], k) == [v]
    requires FullChain(ts[..|ts| - 2], k) == []
    ensures FullChain(ts, k) == [w, v]
  {
    var front := ts[..|ts| - 1];
    assert front[..|front| - 1] == ts[..|ts| - 2] && front[|front| - 1] == ts[|ts| - 2];
    OneChain([], w);
    assert Insert([], w) == [w] + [] == [w];
    assert FullChain(front, k) == [w];
    OneChain([w], v);
    var c: Chain := [w];
    assert c[1..] == [];
  }

  lemma {:induction false} FullChainDescending(ts: LayerList, k: Key)
    ensures Descending(FullChain(ts, k))
  {
    if ts != [] {
      FullChainDescending(ts[..|ts| - 1], k);
      InsertAllHas(FullChain(ts[..|ts| - 1], k), ChainOf(ts[|ts| - 1], k));
    }
  }

  lemma {:induction false} FullChainHas(ts: LayerList, h: History, k: Key)
    requires Increasing(h)
    requires forall m :: 0 <= m < |ts| ==> Strict(ts[m]) && Sound(ts[m], h)
    ensures Descending(FullChain(ts, k))
    ensures forall v :: v in FullChain(ts, k) ==> Op(v.sequence, k, v.value) in h
    ensures forall v :: v in FullChain(ts, k) <==> InSome(ts, k, v)
  {
    if ts == [] {
      assert forall v :: !InSome(ts, k, v);
    } else {
      var front, last := ts[..|ts| - 1], ts[|ts| - 1];
      FullChainHas(front, h, k);
      assert Sound(last, h) && front + [last] == ts;
      ChainJoin(front, last, h, k);
    }
  }

  lemma ChainJoin(front: LayerList, last: Table, h: History, k: Key)
    requires Increasing(h) && Sound(last, h) && Descending(FullChain(front, k))
    requires forall v :: v in FullChain(front, k) ==> Op(v.sequence, k, v.value) in h
    requires forall v :: v in FullChain(front, k) <==> InSome(front, k, v)
    ensures var c := InsertAll(FullChain(front, k), ChainOf(last, k));
            && Descending(c)
            && (forall v :: v in c ==> Op(v.sequence, k, v.value) in h)
            && (forall v :: v in c <==> InSome(front + [last], k, v))
  {
    var a, b := FullChain(front, k), ChainOf(last, k);
    var c := InsertAll(a, b);
    InsertAllHas(a, b);
    assert forall v :: v in b <==> Has(last, k, v);
    InSomeLast(front, last, k);
    hide FullChain;
    hide InsertAll;
    hide ChainOf;
    hide InSome;
    forall v | v in b
      ensures v in c
    {
      var w :| w in c && w.sequence == v.sequence;
      assert Op(w.sequence, k, w.value) in h;
      SequencesIdentify(h, Op(w.sequence, k, w.value), Op(v.sequence, k, v.value));
    }
  }

  lemma InSomeLast(front: LayerList, last: Table, k: Key)
    ensures forall v :: InSome(front + [last], k, v) <==> InSome(front, k, v) || Has(last, k, v)
  {
    var ts := front + [last];
    forall v
      ensures InSome(ts, k, v) <==> InSome(front, k, v) || Has(last, k, v)
    {
      if InSome(front, k, v) {
        var m :| 0 <= m < |front| && Has(front[m], k, v);
        assert Has(ts[m], k, v);
      }
      assert ts[|front|] == last;
    }
  }

  lemma InSomeSplit(ts: LayerList, k: Key)
    requires ts != []
    ensures forall v :: InSome(ts, k, v) <==> Has(ts[0], k, v) || InSome(ts[1..], k, v)
  {
    forall v
      ensures InSome(ts, k, v) <==> Has(ts[0], k, v) || InSome(ts[1..], k, v)
    {
      if InSome(ts, k, v) {
        var m :| 0 <= m < |ts| && Has(ts[m], k, v);
        assert m > 0 ==> Has(ts[1..][m - 1], k, v);
      }
      if InSome(ts[1..], k, v) {
        var m :| 0 <= m < |ts[1..]| && Has(ts[1..][m], k, v);
        assert Has(ts[m + 1], k, v);
      }
    }
  }

  // -------------------------------------------------------------------------
  // Which versions survive
  // -------------------------------------------------------------------------

  /** The first position, from the newest version on, at or above `floor`. */
  function PositionAtOrAbove(c: Chain, floor: nat): Option<nat>
  {
    if c == [] then None
    else if c[0].sequence >= floor then Some(0)
    else
      match PositionAtOrAbove(c[1..], floor)
      case Some(i) => Some(i + 1)
      case None => None
  }

  /** As coded: cut after the first position at or above `floor`, else keep one version. */
  function Retain(c: Chain, floor: nat): Chain
    requires c != []
  {
    match PositionAtOrAbove(c, floor)
    case Some(i) => if i < |c| then c[..i + 1] else c
    case None => c[..1]
  }

  /** As documented: keep everything above `floor` and the newest version at or below it. */
  function RetainDocumented(c: Chain, floor: nat): Chain
  {
    if c == [] then []
    else if c[0].sequence <= floor then [c[0]]
    else [c[0]] + RetainDocumented(c[1..], floor)
  }

  /** The chain is sorted newest first, so the coded rule keeps the newest version and nothing else. */
  lemma {:induction false} RetainKeepsOne(c: Chain, floor: nat)
    requires c != [] && Descending(c)
    ensures Retain(c, floor) == [c[0]]
  {
    NoPositionBelow(c, floor);
    assert c[..1] == [c[0]];
  }

  lemma {:induction false} NoPositionBelow(c: Chain, floor: nat)
    requires c != [] && Descending(c)
    ensures PositionAtOrAbove(c, floor) == if c[0].sequence >= floor then Some(0) else None
  {
    if c[0].sequence < floor && |c| > 1 {
      NoPositionBelow(c[1..], floor);
    }
  }

  lemma {:induction false} RetainDocumentedHas(c: Chain, floor: nat)
    requires Descending(c)
    ensures c != [] ==> RetainDocumented(c, floor) != []
    ensures Descending(RetainDocumented(c, floor))
    ensures forall v :: v in RetainDocumented(c, floor) <==>
              v in c && (v.sequence > floor || forall w :: w in c && w.sequence <= floor ==> w.sequence <= v.sequence)
  {
    if c != [] && c[0].sequence > floor {
      var tail := c[1..];
      RetainDocumentedHas(tail, floor);
      HeadAndTail(c);
      hide Descending;
      RetainedAbove(c, floor);
    }
  }

  lemma HeadAndTail(c: Chain)
    requires c != [] && Descending(c)
    ensures Descending(c[1..]) && c == [c[0]] + c[1..]
    ensures forall w :: w in c <==> w == c[0] || w in c[1..]
    ensures forall w :: w in c[1..] ==> w.sequence < c[0].sequence
  {
  }

  /** The head is kept, and stands above what is kept of the rest. */
  lemma RetainedAbove(c: Chain, floor: nat)
    requires c != [] && c[0].sequence > floor && Descending(RetainDocumented(c[1..], floor))
    requires forall v :: v in RetainDocumented(c[1..], floor) ==> v.sequence < c[0].sequence
    ensures Descending(RetainDocumented(c, floor))
    ensures forall v :: v in RetainDocumented(c, floor) <==> v == c[0] || v in RetainDocumented(c[1..], floor)
  {
    var r := RetainDocumented(c[1..], floor);
    assert RetainDocumented(c, floor) == [c[0]] + r;
  }

  function Keys(ts: LayerList): set<Key>
  {
    set t, k | t in ts && k in t :: k
  }

  /** The merged table as coded. */
  function Merged(ts: LayerList, floor: nat): Table
  {
    map k | k in Keys(ts) && FullChain(ts, k) != [] :: Retain(FullChain(ts, k), floor)
  }

  /** The merged table under the documented rule. */
  function MergedDocumented(ts: LayerList, floor: nat): Table
  {
    map k | k in Keys(ts) && FullChain(ts, k) != [] :: RetainDocumented(FullChain(ts, k), floor)
  }

  lemma KeysHas(ts: LayerList, k: Key, v: VersionedEntry)
    requires InSome(ts, k, v)
    ensures k in Keys(ts)
  {
    var m :| 0 <= m < |ts| && Has(ts[m], k, v);
    assert ts[m] in ts;
  }

  /** What the merged table holds: for each key the newest version of any segment, tombstones included. */
  lemma MergedHas(ts: LayerList, h: History, keep: nat, k: Key, v: VersionedEntry)
    requires Increasing(h)
    requires forall m :: 0 <= m < |ts| ==> Strict(ts[m]) && Sound(ts[m], h)
    ensures Has(Merged(ts, keep), k, v) <==>
              InSome(ts, k, v) && forall w :: InSome(ts, k, w) ==> w.sequence <= v.sequence
  {
    FullChainHas(ts, h, k);
    var c := FullChain(ts, k);
    if c != [] {
      KeysHas(ts, k, c[0]);
      RetainKeepsOne(c, keep);
      assert Has(Merged(ts, keep), k, v) <==> v == c[0];
      assert v in c && v != c[0] ==> v.sequence < c[0].sequence;
    }
  }

  lemma MergedDocumentedHas(ts: LayerList, h: History, keep: nat, k: Key, v: VersionedEntry)
    requires Increasing(h)
    requires forall m :: 0 <= m < |ts| ==> Strict(ts[m]) && Sound(ts[m], h)
    ensures Has(MergedDocumented(ts, keep), k, v) <==>
              InSome(ts, k, v)
              && (v.sequence > keep || forall w :: InSome(ts, k, w) && w.sequence <= keep ==> w.sequence <= v.sequence)
  {
    FullChainHas(ts, h, k);
    var c := FullChain(ts, k);
    RetainDocumentedHas(c, keep);
    if c != [] {
      KeysHas(ts, k, c[0]);
    }
  }

  lemma MergedStrict(ts: LayerList, h: History, keep: nat)
    requires Increasing(h)
    requires forall m :: 0 <= m < |ts| ==> Strict(ts[m]) && Sound(ts[m], h)
    ensures Strict(Merged(ts, keep)) && Sound(Merged(ts, keep), h)
    ensures Strict(MergedDocumented(ts, keep)) && Sound(MergedDocumented(ts, keep), h)
  {
    forall k | k in Merged(ts, keep)
      ensures Merged(ts, keep)[k] != [] && Descending(Merged(ts, keep)[k])
      ensures MergedDocumented(ts, keep)[k] != [] && Descending(MergedDocumented(ts, keep)[k])
    {
      FullChainHas(ts, h, k);
      RetainKeepsOne(FullChain(ts, k), keep);
      RetainDocumentedHas(FullChain(ts, k), keep);
    }
    forall k, v | Has(Merged(ts, keep), k, v) || Has(MergedDocumented(ts, keep), k, v)
      ensures Op(v.sequence, k, v.value) in h
    {
      MergedHas(ts, h, keep, k, v);
      MergedDocumentedHas(ts, h, keep, k, v);
      FullChainHas(ts, h, k);
    }
  }

  // -------------------------------------------------------------------------
  // Compaction preserves current reads
  // -------------------------------------------------------------------------

  /** The version owed to a reader at or above the whole history is in the merged table. */
  lemma MergedHasLatest(ts: LayerList, h: History, floor: nat, keep: nat, k: Key, s: nat)
    requires LayersOK(ts, h, floor) && s >= floor
    requires h != [] ==> s >= h[|h| - 1].sequence
    requires Latest(h, k, s).Some?
    ensures Has(Merged(ts, keep), k, Latest(h, k, s).value)
  {
    var x := Latest(h, k, s).value;
    assert InSome(ts, k, x);
    hide Merged;
    hide FullChain;
    NoneNewer(ts, h, floor, k, s);
    MergedHas(ts, h, keep, k, x);
  }

  /** No version that the layers hold is newer than the last operation at or below the end. */
  lemma NoneNewer(ts: LayerList, h: History, floor: nat, k: Key, s: nat)
    requires LayersOK(ts, h, floor) && (h != [] ==> s >= h[|h| - 1].sequence) && Latest(h, k, s).Some?
    ensures forall w :: InSome(ts, k, w) ==> w.sequence <= Latest(h, k, s).value.sequence
  {
    hide Solid;
    hide Complete;
    hide Latest;
    hide InSome;
    hide Ordered;
    forall w | InSome(ts, k, w)
      ensures w.sequence <= Latest(h, k, s).value.sequence
    {
      InSomeWritten(ts, h, k, w);
      LatestIsNewest(h, k, s, Op(w.sequence, k, w.value));
    }
  }

  lemma InSomeWritten(ts: LayerList, h: History, k: Key, w: VersionedEntry)
    requires InSome(ts, k, w) && forall m :: 0 <= m < |ts| ==> Sound(ts[m], h)
    ensures Op(w.sequence, k, w.value) in h
  {
    var m :| 0 <= m < |ts| && Has(ts[m], k, w);
    assert Sound(ts[m], h);
  }

  /**
   * Compaction preserves meaning: over layers that cover `h`, the merged table alone covers
   * `h` for every reader at or above `h`'s last sequence. No deleted key reappears, since
   * tombstones are versions like any other. Its greatest sequence is the last of `h`.
   */
  lemma MergedOK(ts: LayerList, h: History, floor: nat, floor': nat, keep: nat)
    requires LayersOK(ts, h, floor)
    requires floor <= floor' && (h != [] ==> h[|h| - 1].sequence <= floor')
    ensures LayersOK([Merged(ts, keep)], h, floor')
    ensures Hi(Merged(ts, keep)) == if h == [] then 0 else h[|h| - 1].sequence
    ensures Merged(ts, keep) == map[] ==> h == []
  {
    var t := Merged(ts, keep);
    MergedStrict(ts, h, keep);
    HiBelowLast(t, h);
    if h != [] {
      var o := h[|h| - 1];
      LatestIsNewest(h, o.key, floor', o);
      MergedHasLatest(ts, h, floor, keep, o.key, floor');
      HasBelowHi(t, o.key, Latest(h, o.key, floor').value);
    }
    forall k, v, o | Has(t, k, v) && o in h && o.key == k && v.sequence <= o.sequence <= Hi(t)
      ensures Answers(t, k, o.sequence, floor')
    {
      LatestIsNewest(h, k, floor', o);
      MergedHasLatest(ts, h, floor, keep, k, floor');
    }
    forall k, s: nat | s >= floor' && Latest(h, k, s).Some?
      ensures InSome([t], k, Latest(h, k, s).value)
    {
      MergedHasLatest(ts, h, floor, keep, k, s);
      assert Has([t][0], k, Latest(h, k, s).value);
    }
  }

  /**
   * Publication is safe at every record boundary: the merged table together with any of the
   * old segments not yet removed still covers `h`. Both sort orders of equal maxima are
   * covered by `Layers.Rearrange`.
   */
  lemma MergedWithRest(ts: LayerList, h: History, floor: nat, floor': nat, keep: nat, r: nat)
    requires LayersOK(ts, h, floor) && r <= |ts|
    requires floor <= floor' && (h != [] ==> h[|h| - 1].sequence <= floor')
    ensures LayersOK([Merged(ts, keep)] + ts[r..], h, floor')
  {
    hide LayerOK;
    hide Ordered;
    hide Precedes;
    hide Complete;
    hide Merged;
    var t := Merged(ts, keep);
    var all := [t] + ts[r..];
    MergedOK(ts, h, floor, floor', keep);
    assert LayerOK([t][0], h, floor');
    RaiseFloor(ts, h, floor, floor');
    SuffixOrdered(ts, r, floor');
    forall m | 0 <= m < |ts[r..]|
      ensures Precedes(t, ts[r..][m], floor')
    {
      assert ts[r..][m] == ts[r + m];
      LayerBelowLast(ts[r + m], h, floor');
      HigherPrecedes(t, ts[r + m], h, floor');
    }
    PrependOrdered(ts[r..], t, floor');
    forall m | 0 <= m < |all|
      ensures LayerOK(all[m], h, floor')
    {
      assert m > 0 ==> all[m] == ts[r + m - 1];
    }
    MergedComplete(ts, h, floor, floor', keep, ts[r..]);
  }

  lemma SuffixOrdered(ts: LayerList, r: nat, floor: nat)
    requires r <= |ts| && Ordered(ts, floor)
    ensures Ordered(ts[r..], floor)
  {
    hide Precedes;
    forall i, j | 0 <= i < j < |ts[r..]|
      ensures Precedes(ts[r..][i], ts[r..][j], floor)
    {
      assert ts[r..][i] == ts[r + i] && ts[r..][j] == ts[r + j];
    }
  }

  lemma MergedComplete(ts: LayerList, h: History, floor: nat, floor': nat, keep: nat, rest: LayerList)
    requires LayersOK(ts, h, floor) && floor <= floor' && (h != [] ==> h[|h| - 1].sequence <= floor')
    ensures Complete([Merged(ts, keep)] + rest, h, floor')
  {
    var all := [Merged(ts, keep)] + rest;
    hide Merged;
    hide LayersOK;
    forall k, s: nat | s >= floor' && Latest(h, k, s).Some?
      ensures InSome(all, k, Latest(h, k, s).value)
    {
      MergedHasLatest(ts, h, floor, keep, k, s);
      assert Has(all[0], k, Latest(h, k, s).value);
    }
  }

  // -------------------------------------------------------------------------
  // Older snapshots
  // -------------------------------------------------------------------------

  lemma SingleLayer(t: Table, k: Key, s: nat)
    ensures ReadAt([t], k, s) == Visible(t, k, s)
  {
    assert ReadAt([t][1..], k, s).None?;
  }

  /**
   * Under the documented rule every snapshot at or above the retention floor keeps its reads.
   */
  lemma DocumentedRuleKeepsSnapshots(ts: LayerList, h: History, floor: nat, keep: nat, k: Key, s: nat)
    requires LayersOK(ts, h, floor)
    requires s >= floor && s >= keep
    ensures ReadAt([MergedDocumented(ts, keep)], k, s) == ReadAt(ts, k, s)
  {
    var t := MergedDocumented(ts, keep);
    LayeredRead(ts, h, floor, k, s);
    MergedStrict(ts, h, keep);
    SingleLayer(t, k, s);
    if Latest(h, k, s).Some? {
      var x := Latest(h, k, s).value;
      assert InSome(ts, k, x);
      forall w | InSome(ts, k, w) && w.sequence <= keep
        ensures w.sequence <= x.sequence
      {
        FullChainHas(ts, h, k);
        LatestIsNewest(h, k, s, Op(w.sequence, k, w.value));
      }
      MergedDocumentedHas(ts, h, keep, k, x);
      FirstVisibleIsNewest(t[k], s, x);
    }
    if Visible(t, k, s).Some? {
      var v := Visible(t, k, s).value;
      assert Has(t, k, v);
      var o := Op(v.sequence, k, v.value);
      LatestIsNewest(h, k, s, o);
      var x := Latest(h, k, s).value;
      SequencesIdentify(h, o, Op(x.sequence, k, x.value));
    }
  }

  /**
   * Exactly when the coded rule keeps a snapshot's read of `k`: the newest version of `k` in
   * the segments is within the snapshot, or the snapshot reads nothing there anyway.
   */
  lemma CodedRuleKeepsSnapshotIff(ts: LayerList, h: History, floor: nat, keep: nat, k: Key, s: nat)
    requires LayersOK(ts, h, floor) && s >= floor
    ensures Live(ReadAt([Merged(ts, keep)], k, s)) == Live(ReadAt(ts, k, s)) <==>
              FullChain(ts, k) == [] || FullChain(ts, k)[0].sequence <= s || Live(ReadAt(ts, k, s)).None?
  {
    var t := Merged(ts, keep);
    SingleLayer(t, k, s);
    FullChainHas(ts, h, k);
    LayeredRead(ts, h, floor, k, s);
    var c := FullChain(ts, k);
    if c != [] {
      KeysHas(ts, k, c[0]);
      RetainKeepsOne(c, keep);
      assert t[k] == [c[0]];
      assert InSome(ts, k, c[0]);
      if c[0].sequence <= s {
        LatestIsNewest(h, k, s, Op(c[0].sequence, k, c[0].value));
        var x := Latest(h, k, s).value;
        assert InSome(ts, k, x);
        SequencesIdentify(h, Op(c[0].sequence, k, c[0].value), Op(x.sequence, k, x.value));
      }
    }
  }

  /**
   * The coded rule loses a live snapshot's value. The key was written at 1 and at 2, each
   * version in a segment of its own; the snapshot at 1 holds the retention floor at 1, so its
   * read is not refused, but compaction dropped the only version it can see. The documented
   * rule keeps it.
   */
  lemma CodedRuleLosesSnapshot(k: Key, a: Bytes, b: Bytes)
    ensures var ts: LayerList := [map[k := [VersionedEntry(2, Value(b))]], map[k := [VersionedEntry(1, Value(a))]]];
            && Live(ReadAt(ts, k, 1)) == Some(a)
            && Live(ReadAt([Merged(ts, 1)], k, 1)) == None
            && Live(ReadAt([MergedDocumented(ts, 1)], k, 1)) == Some(a)
  {
    var w, v := VersionedEntry(2, Value(b)), VersionedEntry(1, Value(a));
    var t0: Table, t1: Table := map[k := [w]], map[k := [v]];
    var ts: LayerList := [t0, t1];
    assert ts[1..] == [t1];
    assert FirstVisible([w], 1).None?;
    SingleLayer(t1, k, 1);
    TwoVersions(ts, k, w, v);
    assert t0 in ts && k in Keys(ts);
    var c: Chain := [w, v];
    RetainKeepsOne(c, 1);
    SingleLayer(Merged(ts, 1), k, 1);
    SingleLayer(MergedDocumented(ts, 1), k, 1);
    assert c[1..] == [v];
    assert RetainDocumented(c, 1) == [w] + RetainDocumented([v], 1);
    assert FirstVisible(c, 1) == FirstVisible([v], 1);
  }
}
