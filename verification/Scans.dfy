/** Range scans over layers: newest layer first, the first version met of a key decides. */
module Scans {
  import opened Encoding
  import opened Options
  import opened Versions
  import opened Layers
  import opened Sorting
  import opened MemTables

  type Range = (Option<Key>, Option<Key>)

  predicate Within(k: Key, r: Range)
  {
    InRange(k, r.0, r.1)
  }

  /** What a scan owes: strictly sorted by key, without duplicates, exactly the keys of the range that a read
      at `s` finds, with the value it finds. */
  ghost predicate IsScan(out: seq<Pair<Bytes>>, layers: LayerList, r: Range, s: nat)
  {
    && KeySorted(out)
    && forall k, b :: (k, b) in out <==> Between(k, r.0, r.1) && Live(ReadAt(layers, k, s)) == Some(b)
  }

  /** The state of a scan that has been through `layers`. */
  ghost predicate Gathered(seen: set<Key>, found: seq<Pair<Bytes>>, layers: LayerList, r: Range, s: nat)
  {
    && DistinctKeys(found)
    && (forall k :: k in seen <==> Within(k, r) && ReadAt(layers, k, s).Some?)
    && (forall k, b :: (k, b) in found <==> Within(k, r) && Live(ReadAt(layers, k, s)) == Some(b))
  }

  lemma {:induction false} ReadAtLast(layers: LayerList, t: Table, k: Key, s: nat)
    ensures ReadAt(layers + [t], k, s) == if ReadAt(layers, k, s).Some? then ReadAt(layers, k, s) else Visible(t, k, s)
  {
    if layers == [] {
      assert (layers + [t])[1..] == [] && (layers + [t])[0] == t;
    } else {
      assert (layers + [t])[1..] == layers[1..] + [t] && (layers + [t])[0] == layers[0];
      ReadAtLast(layers[1..], t, k, s);
    }
  }

  lemma {:induction false} FirstVisibleLast(c: Chain, v: VersionedEntry, s: nat)
    ensures FirstVisible(c + [v], s) ==
            if FirstVisible(c, s).Some? then FirstVisible(c, s) else if v.sequence <= s then Some(v) else None
  {
    if c == [] {
      assert (c + [v])[1..] == [];
    } else {
      assert (c + [v])[1..] == c[1..] + [v];
      FirstVisibleLast(c[1..], v, s);
    }
  }

  /** Tables that look alike to this scan. */
  ghost predicate SameVisible(t: Table, u: Table, r: Range, s: nat)
  {
    forall k :: Within(k, r) ==> Visible(t, k, s) == Visible(u, k, s)
  }

  lemma GatheredSame(seen: set<Key>, found: seq<Pair<Bytes>>, layers: LayerList, t: Table, u: Table, r: Range, s: nat)
    requires Gathered(seen, found, layers + [t], r, s) && SameVisible(t, u, r, s)
    ensures Gathered(seen, found, layers + [u], r, s)
  {
    hide Within;
    hide Visible;
    hide ReadAt;
    forall k
      ensures Within(k, r) ==> ReadAt(layers + [t], k, s) == ReadAt(layers + [u], k, s)
    {
      ReadAtLast(layers, t, k, s);
      ReadAtLast(layers, u, k, s);
    }
  }

  lemma GatheredNone(seen: set<Key>, found: seq<Pair<Bytes>>, layers: LayerList, r: Range, s: nat)
    requires Gathered(seen, found, layers, r, s)
    ensures Gathered(seen, found, layers + [map[]], r, s)
  {
    hide Within;
    hide ReadAt;
    forall k
      ensures ReadAt(layers + [map[]], k, s) == ReadAt(layers, k, s)
    {
      ReadAtLast(layers, map[], k, s);
    }
  }

  lemma StartsEmpty(r: Range, s: nat)
    ensures Gathered({}, [], [], r, s)
  {
  }

  /** One more version of key `x.0` at the end of the last table. */
  lemma OneMoreVersion(layers: LayerList, xs: seq<MemTables.Version>, i: nat, k: Key, s: nat)
    requires i < |xs|
    ensures var before, after := ReadAt(layers + [Group(xs[..i])], k, s), ReadAt(layers + [Group(xs[..i + 1])], k, s);
            after == if before.Some? || k != xs[i].0 || xs[i].1.sequence > s then before else Some(xs[i].1)
  {
    var t, u, x := Group(xs[..i]), Group(xs[..i + 1]), xs[i];
    assert xs[..i + 1][..i] == xs[..i];
    assert u == t[x.0 := ChainOf(t, x.0) + [x.1]];
    ReadAtLast(layers, t, k, s);
    ReadAtLast(layers, u, k, s);
    hide ReadAt;
    hide Group;
    if k == x.0 {
      FirstVisibleLast(ChainOf(t, k), x.1, s);
    }
  }

  /** Goes through the entries of one layer. */
  method Gather(seen0: set<Key>, found0: seq<Pair<Bytes>>, xs: seq<MemTables.Version>, s: nat, ghost layers: LayerList, ghost r: Range)
    returns (seen: set<Key>, found: seq<Pair<Bytes>>)
    requires Gathered(seen0, found0, layers, r, s)
    requires forall x :: x in xs ==> Within(x.0, r)
    ensures Gathered(seen, found, layers + [Group(xs)], r, s)
  {
    hide ReadAt;
    hide Within;
    hide Group;
    hide Gathered;
    seen, found := seen0, found0;
    GatheredNone(seen, found, layers, r, s);
    GroupNothing(xs);
    for i := 0 to |xs|
      invariant Gathered(seen, found, layers + [Group(xs[..i])], r, s)
    {
      var (key, entry) := xs[i];
      assert xs[i] in xs;
      GatherOne(seen, found, layers, xs, i, r, s);
      if entry.sequence <= s && key !in seen {
        seen := seen + {key};
        if entry.value.Value? {
          found := found + [(key, entry.value.bytes)];
        }
      }
    }
    assert xs[..|xs|] == xs;
  }

  lemma GroupNothing(xs: seq<MemTables.Version>)
    ensures Group(xs[..0]) == map[]
  {
  }

  /** The scan's state, with what reads give as a function of the key. */
  ghost predicate GatheredBy(seen: set<Key>, found: seq<Pair<Bytes>>, read: Key -> Option<VersionedEntry>, r: Range)
  {
    && DistinctKeys(found)
    && (forall k :: k in seen <==> Within(k, r) && read(k).Some?)
    && (forall k, b :: (k, b) in found <==> Within(k, r) && Live(read(k)) == Some(b))
  }

  /** One entry met: it decides for its key unless the key was decided before. */
  lemma DecideOne(seen: set<Key>, found: seq<Pair<Bytes>>, read: Key -> Option<VersionedEntry>,
                  read': Key -> Option<VersionedEntry>, key: Key, entry: VersionedEntry, r: Range, s: nat)
    requires GatheredBy(seen, found, read, r) && Within(key, r)
    requires forall k :: read'(k) == if read(k).Some? || k != key || entry.sequence > s then read(k) else Some(entry)
    ensures var adds := entry.sequence <= s && key !in seen;
            GatheredBy(if adds then seen + {key} else seen,
                       if adds && entry.value.Value? then found + [(key, entry.value.bytes)] else found, read', r)
  {
    hide Within;
    assert key in seen <==> read(key).Some?;
    if entry.sequence <= s && key !in seen {
      forall x | x in found
        ensures x.0 != key
      {
        assert (x.0, x.1) in found;
      }
      assert Live(read'(key)) == if entry.value.Value? then Some(entry.value.bytes) else None;
      assert forall k :: k != key ==> read'(k) == read(k);
    } else {
      assert forall k :: read'(k) == read(k);
    }
  }

  lemma GatherOne(seen: set<Key>, found: seq<Pair<Bytes>>, layers: LayerList, xs: seq<MemTables.Version>, i: nat, r: Range, s: nat)
    requires i < |xs| && Within(xs[i].0, r) && Gathered(seen, found, layers + [Group(xs[..i])], r, s)
    ensures var (key, entry) := xs[i];
            var adds := entry.sequence <= s && key !in seen;
            Gathered(if adds then seen + {key} else seen,
                     if adds && entry.value.Value? then found + [(key, entry.value.bytes)] else found,
                     layers + [Group(xs[..i + 1])], r, s)
  {
    var (key, entry) := xs[i];
    hide ReadAt;
    hide Within;
    hide Group;
    var before := (k: Key) => ReadAt(layers + [Group(xs[..i])], k, s);
    var after := (k: Key) => ReadAt(layers + [Group(xs[..i + 1])], k, s);
    forall k
      ensures after(k) == if before(k).Some? || k != key || entry.sequence > s then before(k) else Some(entry)
    {
      OneMoreVersion(layers, xs, i, k, s);
    }
    AsFunction(seen, found, layers + [Group(xs[..i])], r, s, before);
    hide Gathered;
    hide GatheredBy;
    DecideOne(seen, found, before, after, key, entry, r, s);
    var adds := entry.sequence <= s && key !in seen;
    AsFunction(if adds then seen + {key} else seen,
               if adds && entry.value.Value? then found + [(key, entry.value.bytes)] else found,
               layers + [Group(xs[..i + 1])], r, s, after);
  }

  lemma AsFunction(seen: set<Key>, found: seq<Pair<Bytes>>, layers: LayerList, r: Range, s: nat, read: Key -> Option<VersionedEntry>)
    requires forall k :: read(k) == ReadAt(layers, k, s)
    ensures Gathered(seen, found, layers, r, s) <==> GatheredBy(seen, found, read, r)
  {
    hide ReadAt;
    hide Within;
  }

  /** The list of visible versions stands for the table. */
  lemma VisibleListSame(xs: seq<MemTables.Version>, t: Table, r: Range, s: nat)
    requires forall k, v :: (k, v) in xs <==> Within(k, r) && Visible(t, k, s) == Some(v)
    ensures SameVisible(Group(xs), t, r, s) && forall x :: x in xs ==> Within(x.0, r)
  {
    hide Within;
    hide Group;
    forall k | Within(k, r)
      ensures Visible(Group(xs), k, s) == Visible(t, k, s)
    {
      var c := ChainOf(Group(xs), k);
      forall v
        ensures v in c <==> Visible(t, k, s) == Some(v)
      {
        GroupHas(xs, k, v);
      }
      VisibleIsChain(Group(xs), k, s);
    }
    forall x | x in xs
      ensures Within(x.0, r)
    {
      assert (x.0, x.1) in xs;
    }
  }

  lemma VisibleIsChain(t: Table, k: Key, s: nat)
    ensures Visible(t, k, s) == FirstVisible(ChainOf(t, k), s)
  {
  }

  /** What the list holds once the keys in `left` remain to be visited. */
  ghost predicate Visited(xs: seq<MemTables.Version>, t: Table, r: Range, left: set<Key>)
  {
    && (forall x :: x in xs ==> Within(x.0, r))
    && forall k :: ChainOf(Group(xs), k) == if k in left || !Within(k, r) then [] else ChainOf(t, k)
  }

  lemma VisitKey(xs: seq<MemTables.Version>, t: Table, r: Range, left: set<Key>, key: Key)
    requires Visited(xs, t, r, left) && key in left && key in t
    ensures Visited(if Within(key, r) then xs + Tagged(key, t[key]) else xs, t, r, left - {key})
  {
    hide Within;
    hide Group;
    hide Tagged;
    if Within(key, r) {
      var tagged := Tagged(key, t[key]);
      forall k
        ensures ChainOf(Group(xs + tagged), k) == ChainOf(Group(xs), k) + if k == key then t[key] else []
      {
        GroupTagged(xs, key, t[key], k);
      }
      TaggedKeys(key, t[key]);
      hide ChainOf;
      AllVisited(xs, tagged, t, r, left, key);
    }
  }

  lemma AllVisited(xs: seq<MemTables.Version>, tagged: seq<MemTables.Version>, t: Table, r: Range, left: set<Key>, key: Key)
    requires Visited(xs, t, r, left) && key in left && key in t && Within(key, r)
    requires forall x :: x in tagged ==> x.0 == key
    requires forall k :: ChainOf(Group(xs + tagged), k) == ChainOf(Group(xs), k) + if k == key then t[key] else []
    ensures Visited(xs + tagged, t, r, left - {key})
  {
    hide Within;
    hide Group;
    forall k
      ensures ChainOf(Group(xs + tagged), k) == if k in left - {key} || !Within(k, r) then [] else ChainOf(t, k)
    {
    }
  }

  lemma NothingVisited(t: Table, r: Range)
    ensures Visited([], t, r, t.Keys)
  {
    hide Within;
    GroupNothing([]);
  }

  lemma AllIsSame(xs: seq<MemTables.Version>, t: Table, r: Range)
    requires Visited(xs, t, r, {})
    ensures SameVisibleAlways(Group(xs), t, r)
  {
    hide Within;
    hide Group;
    forall k, s: nat | Within(k, r)
      ensures Visible(Group(xs), k, s) == Visible(t, k, s)
    {
      VisibleIsChain(Group(xs), k, s);
      VisibleIsChain(t, k, s);
    }
  }

  /** All versions of the keys in the range, each key's in chain order. */
  method SegmentEntries(t: Table, r: Range) returns (xs: seq<MemTables.Version>)
    ensures SameVisibleAlways(Group(xs), t, r)
    ensures forall x :: x in xs ==> Within(x.0, r)
  {
    hide Within;
    hide Group;
    hide Tagged;
    hide SameVisibleAlways;
    xs := [];
    var keys := t.Keys;
    NothingVisited(t, r);
    while keys != {}
      invariant keys <= t.Keys && Visited(xs, t, r, keys)
      decreases |keys|
    {
      var key :| key in keys;
      VisitKey(xs, t, r, keys, key);
      keys := keys - {key};
      if Within(key, r) {
        xs := xs + Tagged(key, t[key]);
      }
    }
    AllIsSame(xs, t, r);
  }

  ghost predicate SameVisibleAlways(t: Table, u: Table, r: Range)
  {
    forall k, s: nat :: Within(k, r) ==> Visible(t, k, s) == Visible(u, k, s)
  }

  lemma {:induction false} TaggedKeys(k: Key, c: Chain)
    ensures forall x :: x in Tagged(k, c) ==> x.0 == k
  {
    if c != [] {
      TaggedKeys(k, c[1..]);
    }
  }

  lemma GroupLast(xs: seq<MemTables.Version>, x: MemTables.Version, k: Key)
    ensures ChainOf(Group(xs + [x]), k) == ChainOf(Group(xs), k) + if k == x.0 then [x.1] else []
  {
    assert (xs + [x])[..|xs|] == xs;
  }

  lemma {:induction false} GroupTagged(xs: seq<MemTables.Version>, key: Key, c: Chain, k: Key)
    ensures ChainOf(Group(xs + Tagged(key, c)), k) == ChainOf(Group(xs), k) + if k == key then c else []
    decreases |c|
  {
    hide Group;
    if c == [] {
      assert xs + Tagged(key, c) == xs;
    } else {
      var x := (key, c[0]);
      GroupLast(xs, x, k);
      GroupTagged(xs + [x], key, c[1..], k);
      assert xs + Tagged(key, c) == xs + [x] + Tagged(key, c[1..]);
      assert [c[0]] + c[1..] == c;
    }
  }

  /** The end of a scan: sorting by key. */
  method Finish(seen: set<Key>, found: seq<Pair<Bytes>>, s: nat, ghost layers: LayerList, ghost r: Range)
    returns (out: seq<Pair<Bytes>>)
    requires Gathered(seen, found, layers, r, s)
    ensures IsScan(out, layers, r, s)
  {
    hide ReadAt;
    hide InRange;
    hide Between;
    hide KeySorted;
    SortsByKey(found);
    out := Sort(ByKey(), found);
  }

  lemma Inhabited<T(!new)>(a: seq<T>)
    requires a != []
    ensures exists x :: x in a
  {
    assert a[0] in a;
  }

  lemma NotBoth(a: Key, b: Key)
    ensures !(ComesBefore(a, b) && ComesBefore(b, a))
  {
    LessIsComesBefore(a, b);
    LessIsComesBefore(b, a);
    hide ComesBefore;
    LessEqTotal(a, b);
    LessIrreflexive(a);
  }

  /** A scan is determined by what it owes. */
  lemma {:induction false} ScanUnique(a: seq<Pair<Bytes>>, b: seq<Pair<Bytes>>)
    requires KeySorted(a) && KeySorted(b) && forall x :: x in a <==> x in b
    ensures a == b
    decreases |a|
  {
    if a == [] {
      if b != [] {
        Inhabited(b);
      }
    } else {
      assert a[0] in b && b != [] && b[0] in a;
      NotBoth(a[0].0, b[0].0);
      NotBoth(a[0].0, a[0].0);
      hide ComesBefore;
      assert a[0] == b[0];
      forall x
        ensures x in a[1..] <==> x in b[1..]
      {
        assert x in a <==> x == a[0] || x in a[1..];
        assert x in b <==> x == b[0] || x in b[1..];
      }
      ScanUnique(a[1..], b[1..]);
      assert a == [a[0]] + a[1..] && b == [b[0]] + b[1..];
    }
  }
}
