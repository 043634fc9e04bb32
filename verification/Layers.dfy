/**
 * Reads over a list of layers, newest first, and the conditions under which such a read
 * is a read of the history.
 *
 * `floor` is the retention watermark: below it compaction may have dropped versions, at
 * and above it every read must be exact. It is 0 until the first compaction.
 */
module Layers {
  import opened Encoding
  import opened Options
  import opened Versions

  type LayerList = seq<Table>

  /** The snapshot read: the first layer with a visible version decides. */
  function ReadAt(layers: LayerList, k: Key, s: nat): Option<VersionedEntry>
  {
    if layers == [] then None
    else if Visible(layers[0], k, s).Some? then Visible(layers[0], k, s)
    else ReadAt(layers[1..], k, s)
  }

  /** The read without a snapshot: the first layer that holds the key decides. */
  function ReadCurrent(layers: LayerList, k: Key): Option<VersionedEntry>
  {
    if layers == [] then None
    else if Front(layers[0], k).Some? then Front(layers[0], k)
    else ReadCurrent(layers[1..], k)
  }

  // -------------------------------------------------------------------------
  // Layer conditions
  // -------------------------------------------------------------------------

  /** Every version of the table was written. */
  ghost predicate Sound(t: Table, h: History)
  {
    forall k, v :: Has(t, k, v) ==> Op(v.sequence, k, v.value) in h
  }

  /** The table stands in, for key `k`, for the operation at sequence `n`: it holds a version at or after it
      that no reader at or above `max(floor, n)` can tell apart from it by being too new. */
  ghost predicate Answers(t: Table, k: Key, n: nat, floor: nat)
  {
    exists v :: Has(t, k, v) && n <= v.sequence && (v.sequence <= floor || v.sequence == n)
  }

  /** From any of its versions of a key up to its greatest sequence, the table misses no later operation
      on that key that a reader at or above `floor` needs. */
  ghost predicate Solid(t: Table, h: History, floor: nat)
  {
    forall k, v, o :: Has(t, k, v) && o in h && o.key == k && v.sequence <= o.sequence <= Hi(t) ==>
      Answers(t, k, o.sequence, floor)
  }

  /** A reader at or above `floor` that looks into `a` first is never given an older version than `b` would. */
  ghost predicate Precedes(a: Table, b: Table, floor: nat)
  {
    forall k, s: nat :: s >= floor && Visible(a, k, s).Some? && Visible(b, k, s).Some? ==>
      Visible(a, k, s).value.sequence >= Visible(b, k, s).value.sequence
  }

  ghost predicate Ordered(layers: LayerList, floor: nat)
  {
    forall a, b :: 0 <= a < b < |layers| ==> Precedes(layers[a], layers[b], floor)
  }

  ghost predicate InSome(layers: LayerList, k: Key, v: VersionedEntry)
  {
    exists m :: 0 <= m < |layers| && Has(layers[m], k, v)
  }

  /** Every version that a reader at or above `floor` is owed is in some layer. */
  ghost predicate Complete(layers: LayerList, h: History, floor: nat)
  {
    forall k, s: nat :: s >= floor && Latest(h, k, s).Some? ==> InSome(layers, k, Latest(h, k, s).value)
  }

  ghost predicate LayerOK(t: Table, h: History, floor: nat)
  {
    Strict(t) && Sound(t, h) && Solid(t, h, floor)
  }

  /** Proper layers in order. Nothing is said of what they cover together. */
  ghost predicate Layered(layers: LayerList, h: History, floor: nat)
  {
    && Increasing(h)
    && (forall m :: 0 <= m < |layers| ==> LayerOK(layers[m], h, floor))
    && Ordered(layers, floor)
  }

  ghost predicate LayersOK(layers: LayerList, h: History, floor: nat)
  {
    Layered(layers, h, floor) && Complete(layers, h, floor)
  }

  // -------------------------------------------------------------------------
  // Layered reads are reads of the history
  // -------------------------------------------------------------------------

  /** Where a snapshot read found its answer. */
  lemma {:induction false} ReadAtFinds(layers: LayerList, k: Key, s: nat) returns (m: nat)
    ensures m <= |layers|
    ensures forall j :: 0 <= j < m ==> Visible(layers[j], k, s).None?
    ensures if m < |layers| then Visible(layers[m], k, s).Some? && ReadAt(layers, k, s) == Visible(layers[m], k, s)
            else ReadAt(layers, k, s).None?
  {
    if layers == [] || Visible(layers[0], k, s).Some? {
      m := 0;
    } else {
      var n := ReadAtFinds(layers[1..], k, s);
      m := n + 1;
    }
  }

  lemma HasBelowHi(t: Table, k: Key, v: VersionedEntry)
    requires Has(t, k, v)
    ensures v.sequence <= Hi(t)
  {
    assert AtMost(t, Hi(t));
  }

  /** Of two proper layers the one that reaches further up may stand in front. */
  lemma HigherPrecedes(a: Table, b: Table, h: History, floor: nat)
    requires LayerOK(a, h, floor) && LayerOK(b, h, floor) && Hi(a) >= Hi(b)
    ensures Precedes(a, b, floor)
  {
    forall k, s: nat | s >= floor && Visible(a, k, s).Some? && Visible(b, k, s).Some?
      ensures Visible(a, k, s).value.sequence >= Visible(b, k, s).value.sequence
    {
      var v, w := Visible(a, k, s).value, Visible(b, k, s).value;
      if v.sequence < w.sequence {
        HasBelowHi(b, k, w);
        AnsweredAbove(a, h, floor, k, s, v, w);
      }
    }
  }

  /** A proper layer that shows `v` shows nothing older than an operation within its reach. */
  lemma AnsweredAbove(t: Table, h: History, floor: nat, k: Key, s: nat, v: VersionedEntry, w: VersionedEntry)
    requires LayerOK(t, h, floor) && s >= floor && Visible(t, k, s) == Some(v)
    requires Op(w.sequence, k, w.value) in h && v.sequence <= w.sequence <= s && w.sequence <= Hi(t)
    ensures v.sequence >= w.sequence
  {
    var o := Op(w.sequence, k, w.value);
    assert Has(t, k, v);
    assert Answers(t, k, o.sequence, floor);
    var y :| Has(t, k, y) && w.sequence <= y.sequence && (y.sequence <= floor || y.sequence == w.sequence);
    FirstVisibleIsNewest(t[k], s, y);
  }

  lemma EmptyPrecedes(t: Table, floor: nat)
    ensures Precedes(map[], t, floor) && Precedes(t, map[], floor)
  {
  }

  /**
   * Exactly when a walk over proper layers, newest first, returns the operation with the
   * greatest sequence at or below the snapshot: when that operation is in some layer.
   */
  lemma LayeredReadIff(layers: LayerList, h: History, floor: nat, k: Key, s: nat)
    requires Layered(layers, h, floor) && s >= floor
    ensures ReadAt(layers, k, s) == Latest(h, k, s) <==>
              (Latest(h, k, s).Some? ==> InSome(layers, k, Latest(h, k, s).value))
  {
    var m := ReadAtFinds(layers, k, s);
    if m < |layers| {
      var v := Visible(layers[m], k, s).value;
      assert Has(layers[m], k, v);
      LatestIsNewest(h, k, s, Op(v.sequence, k, v.value));
    }
    if Latest(h, k, s).Some? && InSome(layers, k, Latest(h, k, s).value) {
      var x := Latest(h, k, s).value;
      var b :| 0 <= b < |layers| && Has(layers[b], k, x);
      FirstVisibleIsNewest(layers[b][k], s, x);
      assert m < b ==> Precedes(layers[m], layers[b], floor);
      var v := Visible(layers[m], k, s).value;
      assert Has(layers[m], k, v);
      SequencesIdentify(h, Op(v.sequence, k, v.value), Op(x.sequence, k, x.value));
    }
  }

  /** Layered reads equal the history when the layers cover it. */
  lemma LayeredRead(layers: LayerList, h: History, floor: nat, k: Key, s: nat)
    requires LayersOK(layers, h, floor) && s >= floor
    ensures ReadAt(layers, k, s) == Latest(h, k, s)
  {
    LayeredReadIff(layers, h, floor, k, s);
  }

  /** The fast path that skips the sequence comparison gives the same answer. */
  lemma {:induction false} CurrentIsLatest(layers: LayerList, k: Key)
    requires forall m :: 0 <= m < |layers| ==> Strict(layers[m]) && AtMost(layers[m], LATEST)
    ensures ReadCurrent(layers, k) == ReadAt(layers, k, LATEST)
  {
    if layers != [] {
      var t := layers[0];
      assert Strict(t) && AtMost(t, LATEST);
      if k in t {
        assert Has(t, k, t[k][0]);
      }
      CurrentIsLatest(layers[1..], k);
    }
  }

  // -------------------------------------------------------------------------
  // How the conditions carry over
  // -------------------------------------------------------------------------

  /** Raising the watermark only weakens what is asked of a layer. */
  lemma RaiseFloor(layers: LayerList, h: History, floor: nat, floor': nat)
    requires LayersOK(layers, h, floor) && floor <= floor'
    ensures LayersOK(layers, h, floor')
  {
    forall m | 0 <= m < |layers|
      ensures LayerOK(layers[m], h, floor')
    {
      RaiseFloorOne(layers[m], h, floor, floor');
    }
    forall a, b | 0 <= a < b < |layers|
      ensures Precedes(layers[a], layers[b], floor')
    {
      assert Precedes(layers[a], layers[b], floor);
    }
  }

  lemma RaiseFloorOne(t: Table, h: History, floor: nat, floor': nat)
    requires LayerOK(t, h, floor) && floor <= floor'
    ensures LayerOK(t, h, floor')
  {
    forall k, v, o | Has(t, k, v) && o in h && o.key == k && v.sequence <= o.sequence <= Hi(t)
      ensures Answers(t, k, o.sequence, floor')
    {
      assert Answers(t, k, o.sequence, floor);
    }
  }

  lemma EmptyTableOK(h: History, floor: nat)
    ensures LayerOK(map[], h, floor) && Hi(map[]) == 0
  {
  }

  /** The operations after the first `c` lie above every table filled from the first `c`. */
  lemma LaterIsAbove(t: Table, h: History, c: nat, i: nat)
    requires Increasing(h) && c <= |h| && i < |h| && Sound(t, h[..c])
    ensures i >= c ==> forall k, v :: Has(t, k, v) ==> v.sequence < h[i].sequence
    ensures i >= c ==> Hi(t) == 0 || Hi(t) < h[i].sequence
  {
    forall k, v | Has(t, k, v)
      ensures i >= c ==> v.sequence < h[i].sequence
    {
      var j :| 0 <= j < c && h[..c][j] == Op(v.sequence, k, v.value);
    }
  }

  /** A layer over the first `c` operations is a layer over any longer part of the history. */
  lemma ExtendHistory(t: Table, h: History, c: nat, b: nat, floor: nat)
    requires Increasing(h) && c <= b <= |h|
    requires LayerOK(t, h[..c], floor)
    ensures LayerOK(t, h[..b], floor)
  {
    assert h[..c] <= h[..b];
    forall k, v, o | Has(t, k, v) && o in h[..b] && o.key == k && v.sequence <= o.sequence <= Hi(t)
      ensures Answers(t, k, o.sequence, floor)
    {
      var i :| 0 <= i < b && h[..b][i] == o;
      LaterIsAbove(t, h, c, i);
      assert h[..c][i] == o;
    }
  }

  /** The operations from index `a` up to index `b`. */
  function Window(h: History, a: nat, b: nat): Table
    requires a <= b <= |h|
  {
    TableOf(h[a..b])
  }

  lemma WindowHas(h: History, a: nat, b: nat, k: Key, v: VersionedEntry)
    requires a <= b <= |h|
    ensures Has(Window(h, a, b), k, v) <==> exists i :: a <= i < b && h[i] == Op(v.sequence, k, v.value)
  {
    var o := Op(v.sequence, k, v.value);
    TableOfHas(h[a..b], k, v);
    if o in h[a..b] {
      var j :| 0 <= j < b - a && h[a..b][j] == o;
      assert h[a + j] == o;
    }
    if i :| a <= i < b && h[i] == o {
      assert h[a..b][i - a] == o;
    }
  }

  /** A window reaches up to its last operation. */
  lemma WindowHi(h: History, a: nat, b: nat)
    requires Increasing(h) && a <= b <= |h|
    ensures Hi(Window(h, a, b)) == if a < b then h[b - 1].sequence else 0
    ensures Window(h, a, b) == map[] <==> a == b
  {
    var t := Window(h, a, b);
    if a < b {
      var o := h[b - 1];
      WindowHas(h, a, b, o.key, Version(o));
      assert Has(t, o.key, Version(o));
      forall k, v | Has(t, k, v)
        ensures v.sequence <= o.sequence
      {
        WindowHas(h, a, b, k, v);
      }
      MaxSequenceUnique(t, Hi(t), o.sequence);
    } else {
      assert h[a..b] == [];
    }
  }

  lemma WindowSound(h: History, a: nat, b: nat)
    requires a <= b <= |h|
    ensures Sound(Window(h, a, b), h[..b])
  {
    hide Window;
    forall k, v | Has(Window(h, a, b), k, v)
      ensures Op(v.sequence, k, v.value) in h[..b]
    {
      WindowHas(h, a, b, k, v);
      var i :| a <= i < b && h[i] == Op(v.sequence, k, v.value);
      assert h[..b][i] == h[i];
    }
  }

  /** It misses nothing between its ends. */
  lemma WindowSolid(h: History, a: nat, b: nat, floor: nat)
    requires Increasing(h) && a <= b <= |h|
    ensures Solid(Window(h, a, b), h[..b], floor)
  {
    hide Window;
    var t := Window(h, a, b);
    forall k, v, o | Has(t, k, v) && o in h[..b] && o.key == k && v.sequence <= o.sequence <= Hi(t)
      ensures Answers(t, k, o.sequence, floor)
    {
      WindowHas(h, a, b, k, v);
      var j :| 0 <= j < b && h[..b][j] == o;
      assert h[j] == o && j >= a;
      WindowHas(h, a, b, k, Version(o));
      assert Has(t, k, Version(o));
    }
  }

  /** Every window is a proper layer, whatever the watermark. */
  lemma WindowOK(h: History, a: nat, b: nat, floor: nat)
    requires Increasing(h) && a <= b <= |h|
    ensures LayerOK(Window(h, a, b), h[..b], floor)
  {
    SliceIncreasing(h, a, b);
    TableOfStrict(h[a..b]);
    WindowSound(h, a, b);
    WindowSolid(h, a, b, floor);
    hide Sound;
    hide Solid;
    hide Strict;
  }

  lemma SliceIncreasing(h: History, a: nat, b: nat)
    requires Increasing(h) && a <= b <= |h|
    ensures Increasing(h[a..b])
  {
  }

  /**
   * Putting a window on top of layers that cover the history below it: the layers cover the
   * first `c` operations, the window starts at or before `c` and ends at `b`.
   */
  lemma PrependWindow(layers: LayerList, h: History, a: nat, c: nat, b: nat, floor: nat)
    requires Increasing(h) && a <= c <= b <= |h|
    requires LayersOK(layers, h[..c], floor)
    ensures LayersOK([Window(h, a, b)] + layers, h[..b], floor)
  {
    var t := Window(h, a, b);
    WindowOK(h, a, b, floor);
    ExtendAll(layers, h, a, c, b, floor);
    PrependOrdered(layers, t, floor);
    PrependComplete(layers, h, a, c, b, floor);
  }

  lemma ExtendAll(layers: LayerList, h: History, a: nat, c: nat, b: nat, floor: nat)
    requires Increasing(h) && a <= c <= b <= |h|
    requires forall m :: 0 <= m < |layers| ==> LayerOK(layers[m], h[..c], floor)
    ensures forall m :: 0 <= m < |layers| ==> LayerOK(layers[m], h[..b], floor)
    ensures forall m :: 0 <= m < |layers| ==> Precedes(Window(h, a, b), layers[m], floor)
  {
    WindowHi(h, a, b);
    WindowOK(h, a, b, floor);
    hide LayerOK;
    hide Window;
    forall m | 0 <= m < |layers|
      ensures LayerOK(layers[m], h[..b], floor) && Precedes(Window(h, a, b), layers[m], floor)
    {
      ExtendHistory(layers[m], h, c, b, floor);
      LayerBelowLast(layers[m], h[..b], floor);
      if a < b {
        HigherPrecedes(Window(h, a, b), layers[m], h[..b], floor);
      } else {
        EmptyPrecedes(layers[m], floor);
      }
    }
  }

  lemma LayerBelowLast(t: Table, h: History, floor: nat)
    requires Increasing(h) && LayerOK(t, h, floor)
    ensures Hi(t) <= if h == [] then 0 else h[|h| - 1].sequence
  {
    HiBelowLast(t, h);
  }

  lemma PrependOrdered(layers: LayerList, t: Table, floor: nat)
    requires Ordered(layers, floor)
    requires forall m :: 0 <= m < |layers| ==> Precedes(t, layers[m], floor)
    ensures Ordered([t] + layers, floor)
  {
    hide Precedes;
    var all := [t] + layers;
    forall i, j | 0 <= i < j < |all|
      ensures Precedes(all[i], all[j], floor)
    {
      assert all[j] == layers[j - 1] && (i > 0 ==> all[i] == layers[i - 1]);
    }
  }

  lemma HiBelowLast(t: Table, h: History)
    requires Increasing(h) && Sound(t, h)
    ensures h == [] ==> Hi(t) == 0
    ensures h != [] ==> Hi(t) <= h[|h| - 1].sequence
  {
    if Hi(t) != 0 {
      var k, v :| Has(t, k, v) && v.sequence == Hi(t);
      assert Op(v.sequence, k, v.value) in h;
    }
  }

  lemma PrependComplete(layers: LayerList, h: History, a: nat, c: nat, b: nat, floor: nat)
    requires Increasing(h) && a <= c <= b <= |h|
    requires Complete(layers, h[..c], floor)
    ensures Complete([Window(h, a, b)] + layers, h[..b], floor)
  {
    var t := Window(h, a, b);
    var all := [t] + layers;
    forall k, s: nat | s >= floor && Latest(h[..b], k, s).Some?
      ensures InSome(all, k, Latest(h[..b], k, s).value)
    {
      var x := Latest(h[..b], k, s).value;
      var i :| 0 <= i < b && h[..b][i] == Op(x.sequence, k, x.value);
      if i >= a {
        WindowHas(h, a, b, k, x);
        assert Has(all[0], k, x);
      } else {
        LatestWithin(h, c, b, k, s);
        var m :| 0 <= m < |layers| && Has(layers[m], k, x);
        assert Has(all[m + 1], k, x);
      }
    }
  }

  /** If the last operation on `k` up to index `b` stands before index `c`, it is the last up to `c`. */
  lemma LatestWithin(h: History, c: nat, b: nat, k: Key, s: nat)
    requires Increasing(h) && c <= b <= |h|
    requires Latest(h[..b], k, s).Some?
    requires Op(Latest(h[..b], k, s).value.sequence, k, Latest(h[..b], k, s).value.value) in h[..c]
    ensures Latest(h[..c], k, s) == Latest(h[..b], k, s)
  {
    var x := Latest(h[..b], k, s).value;
    var o := Op(x.sequence, k, x.value);
    LatestIsNewest(h[..c], k, s, o);
    var y := Latest(h[..c], k, s).value;
    var p := Op(y.sequence, k, y.value);
    var i :| 0 <= i < c && h[..c][i] == p;
    assert h[..b][i] == p;
    LatestIsNewest(h[..b], k, s, p);
    SequencesIdentify(h[..b], o, p);
  }

  /** The layer list does not depend on the order in which equal maxima were sorted, nor on repetitions. */
  lemma Rearrange(layers: LayerList, layers': LayerList, h: History, floor: nat)
    requires LayersOK(layers, h, floor)
    requires forall m :: 0 <= m < |layers'| ==> layers'[m] in layers
    requires forall m :: 0 <= m < |layers| ==> layers[m] in layers'
    requires Ordered(layers', floor)
    ensures LayersOK(layers', h, floor)
  {
    forall k, s: nat | s >= floor && Latest(h, k, s).Some?
      ensures InSome(layers', k, Latest(h, k, s).value)
    {
      var x := Latest(h, k, s).value;
      var m :| 0 <= m < |layers| && Has(layers[m], k, x);
      assert layers[m] in layers';
    }
  }

  // -------------------------------------------------------------------------
  // Stacks of windows
  // -------------------------------------------------------------------------

  /** `below` with the tables of `mem` pushed on top, oldest first. */
  function Stack<T>(mem: seq<T>, below: seq<T>): (r: seq<T>)
    ensures |r| == |mem| + |below|
  {
    if mem == [] then below else Stack(mem[1..], [mem[0]] + below)
  }

  lemma {:induction false} StackAppend<T>(a: seq<T>, b: seq<T>, below: seq<T>)
    ensures Stack(a + b, below) == Stack(b, Stack(a, below))
  {
    if a == [] {
      assert a + b == b;
    } else {
      assert (a + b)[1..] == a[1..] + b;
      StackAppend(a[1..], b, [a[0]] + below);
    }
  }

  lemma StackIsOne(t: Table, below: LayerList)
    ensures Stack([t], below) == [t] + below
  {
    assert [t][1..] == [];
  }

  /** The tables are consecutive windows of the history, ending at its end. */
  ghost predicate Windows(mem: seq<Table>, cuts: seq<nat>, h: History)
  {
    && |cuts| == |mem| + 1
    && (forall i :: 0 <= i < |cuts| ==> cuts[i] <= |h|)
    && (forall i :: 0 <= i < |mem| ==> cuts[i] <= cuts[i + 1] && mem[i] == Window(h, cuts[i], cuts[i + 1]))
    && cuts[|mem|] == |h|
  }

  /**
   * Layers that cover the first `c` operations, with consecutive windows on top of which the
   * lowest starts at or before `c`, cover the history up to the end of the last window.
   */
  lemma {:induction false} StackOK(mem: seq<Table>, cuts: seq<nat>, below: LayerList, h: History, c: nat, floor: nat)
    requires Increasing(h)
    requires |cuts| == |mem| + 1 && cuts[0] <= c <= |h| && (mem == [] ==> c == cuts[0]) && (mem != [] ==> c <= cuts[1])
    requires forall i :: 0 <= i < |cuts| ==> cuts[i] <= |h|
    requires forall i :: 0 <= i < |mem| ==> cuts[i] <= cuts[i + 1] && mem[i] == Window(h, cuts[i], cuts[i + 1])
    requires LayersOK(below, h[..c], floor)
    ensures LayersOK(Stack(mem, below), h[..cuts[|mem|]], floor)
  {
    hide LayersOK;
    hide Window;
    if mem != [] {
      PrependWindow(below, h, cuts[0], c, cuts[1], floor);
      assert mem[0] == Window(h, cuts[0], cuts[1]);
      StackOK(mem[1..], cuts[1..], [mem[0]] + below, h, cuts[1], floor);
    }
  }
}
