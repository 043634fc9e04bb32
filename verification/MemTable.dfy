/** The in-memory table: a version chain for each key, newest first. */
module MemTables {
  import opened Encoding
  import opened Options
  import opened Versions
  import opened Sorting

  const MAX_KEY_SIZE: nat := 0x100_0000
  const MAX_VALUE_SIZE: nat := 0x100_0000

  predicate ValidPut(key: Key, value: Bytes)
  {
    |key| <= MAX_KEY_SIZE && |value| <= MAX_VALUE_SIZE
  }

  predicate ValidDelete(key: Key)
  {
    |key| <= MAX_KEY_SIZE
  }

  /** The half-open key range `[start, end)`: not before `start` and before `end`, if they are given. */
  ghost predicate Between(k: Key, start: Option<Key>, end: Option<Key>)
  {
    (start.Some? ==> !ComesBefore(k, start.value)) && (end.Some? ==> ComesBefore(k, end.value))
  }

  /** The test for it. */
  predicate InRange(k: Key, start: Option<Key>, end: Option<Key>): (r: bool)
    ensures r <==> Between(k, start, end)
  {
    && (start.Some? ==> (LessIsComesBefore(k, start.value); LessEq(start.value, k)))
    && (end.Some? ==> (LessIsComesBefore(k, end.value); Less(k, end.value)))
  }

  // -------------------------------------------------------------------------
  // Flat lists of versions
  // -------------------------------------------------------------------------

  type Version = Pair<VersionedEntry>

  /** By key and, within a key, newest first. */
  ghost predicate VersionsSorted(xs: seq<Version>)
  {
    forall i, j :: 0 <= i < j < |xs| ==>
      ComesBefore(xs[i].0, xs[j].0) || (xs[i].0 == xs[j].0 && xs[i].1.sequence >= xs[j].1.sequence)
  }

  lemma SortedIsVersionsSorted(xs: seq<Version>)
    requires Sorted(NewestFirst(), xs)
    ensures VersionsSorted(xs)
  {
    hide ComesBefore;
    forall i, j | 0 <= i < j < |xs|
      ensures ComesBefore(xs[i].0, xs[j].0) || (xs[i].0 == xs[j].0 && xs[i].1.sequence >= xs[j].1.sequence)
    {
      assert NewestFirst()(xs[i], xs[j]);
      LessIsComesBefore(xs[i].0, xs[j].0);
    }
  }

  function NewestFirst(): Order<Version>
  {
    (a: Version, b: Version) => Less(a.0, b.0) || (a.0 == b.0 && a.1.sequence >= b.1.sequence)
  }

  lemma NewestFirstOrders()
    ensures TotalPreorder(NewestFirst())
  {
    forall a: Version, b: Version
      ensures NewestFirst()(a, b) || NewestFirst()(b, a)
    {
      LessTotal(a.0, b.0);
    }
    forall a: Version, b: Version, c: Version | NewestFirst()(a, b) && NewestFirst()(b, c)
      ensures NewestFirst()(a, c)
    {
      if Less(a.0, b.0) && Less(b.0, c.0) {
        LessTransitive(a.0, b.0, c.0);
      }
    }
  }

  /** The table that a flat list of versions makes, each chain in list order. */
  function Group(xs: seq<Version>): Table
  {
    if xs == [] then map[]
    else
      var t, x := Group(xs[..|xs| - 1]), xs[|xs| - 1];
      t[x.0 := ChainOf(t, x.0) + [x.1]]
  }

  lemma GroupLast(xs: seq<Version>, k: Key)
    requires xs != []
    ensures var rest, x := xs[..|xs| - 1], xs[|xs| - 1];
            && ChainOf(Group(xs), k) == (if x.0 == k then ChainOf(Group(rest), k) + [x.1] else ChainOf(Group(rest), k))
            && (k in Group(xs) <==> k in Group(rest) || x.0 == k)
  {
  }

  lemma {:induction false} GroupHas(xs: seq<Version>, k: Key, v: VersionedEntry)
    ensures multiset(ChainOf(Group(xs), k))[v] == multiset(xs)[(k, v)]
    ensures k in Group(xs) <==> ChainOf(Group(xs), k) != []
    ensures v in ChainOf(Group(xs), k) <==> (k, v) in xs
  {
    if xs != [] {
      var rest, x := xs[..|xs| - 1], xs[|xs| - 1];
      GroupHas(rest, k, v);
      GroupLast(xs, k);
      assert xs == rest + [x];
      Snoc(rest, x, ChainOf(Group(rest), k), k, v);
      hide Group;
      hide ChainOf;
    }
  }

  lemma Snoc(rest: seq<Version>, x: Version, c: Chain, k: Key, v: VersionedEntry)
    requires multiset(c)[v] == multiset(rest)[(k, v)] && (v in c <==> (k, v) in rest)
    ensures var d := if x.0 == k then c + [x.1] else c;
            multiset(d)[v] == multiset(rest + [x])[(k, v)] && (v in d <==> (k, v) in rest + [x])
  {
    assert x == (x.0, x.1);
  }

  /** A list sorted newest first makes chains sorted newest first. */
  lemma {:induction false} GroupDescends(xs: seq<Version>, k: Key)
    requires Sorted(NewestFirst(), xs)
    ensures WeaklyDescending(ChainOf(Group(xs), k))
  {
    if xs != [] {
      var rest, x := xs[..|xs| - 1], xs[|xs| - 1];
      GroupDescends(rest, k);
      GroupLast(xs, k);
      if x.0 == k {
        LastIsLeast(xs, k);
      }
      hide Group;
      hide ChainOf;
      hide Sorted;
    }
  }

  lemma LastIsLeast(xs: seq<Version>, k: Key)
    requires Sorted(NewestFirst(), xs) && xs != [] && xs[|xs| - 1].0 == k
    ensures var c := ChainOf(Group(xs[..|xs| - 1]), k);
            forall i :: 0 <= i < |c| ==> c[i].sequence >= xs[|xs| - 1].1.sequence
  {
    hide Group;
    hide ChainOf;
    var rest, x := xs[..|xs| - 1], xs[|xs| - 1];
    var c := ChainOf(Group(rest), k);
    LessIrreflexive(k);
    forall i | 0 <= i < |c|
      ensures c[i].sequence >= x.1.sequence
    {
      GroupHas(rest, k, c[i]);
      var j :| 0 <= j < |rest| && rest[j] == (k, c[i]);
      assert NewestFirst()(xs[j], xs[|xs| - 1]);
    }
  }

  /** The list holds exactly the versions of the table, as often as the table does. */
  ghost predicate Flattens(xs: seq<Version>, t: Table)
  {
    forall k, v {:trigger multiset(xs)[(k, v)]} :: multiset(xs)[(k, v)] == multiset(ChainOf(t, k))[v]
  }

  /** A flat list of a table, sorted newest first, groups into the table with its chains sorted. */
  lemma GroupIsSortedVersion(xs: seq<Version>, t: Table)
    requires Sorted(NewestFirst(), xs) && Flattens(xs, t)
    requires NoEmptyChains(t)
    ensures SortedVersion(Group(xs), t)
  {
    forall k
      ensures multiset(ChainOf(Group(xs), k)) == multiset(ChainOf(t, k))
      ensures WeaklyDescending(ChainOf(Group(xs), k))
      ensures k in Group(xs) <==> k in t
    {
      GroupDescends(xs, k);
      GroupHas(xs, k, VersionedEntry(0, Tombstone));
      forall v
        ensures multiset(ChainOf(Group(xs), k))[v] == multiset(ChainOf(t, k))[v]
      {
        GroupHas(xs, k, v);
        assert multiset(xs)[(k, v)] == multiset(ChainOf(t, k))[v];
      }
      SameSize(ChainOf(Group(xs), k), ChainOf(t, k));
    }
  }

  lemma SameSize<T>(a: seq<T>, b: seq<T>)
    requires multiset(a) == multiset(b)
    ensures |a| == |b|
  {
    assert |multiset(a)| == |a| && |multiset(b)| == |b|;
  }

  lemma FrontMaxIs(t: Table, m: nat)
    requires forall k :: k in t && t[k] != [] ==> t[k][0].sequence <= m
    requires m == 0 || exists k :: k in t && t[k] != [] && t[k][0].sequence == m
    ensures FrontMax(t) == m
  {
  }

  ghost predicate NoEmptyChains(t: Table)
  {
    forall k :: k in t ==> t[k] != []
  }

  // -------------------------------------------------------------------------
  // Reading a table
  // -------------------------------------------------------------------------

  /** `r` is the first version of the chain at or below `s`, if there is one. */
  ghost predicate FirstBelow(c: Chain, s: nat, r: Option<VersionedEntry>)
  {
    match r
    case None => forall i :: 0 <= i < |c| ==> c[i].sequence > s
    case Some(v) => exists i :: 0 <= i < |c| && c[i] == v && v.sequence <= s && forall j :: 0 <= j < i ==> c[j].sequence > s
  }

  /** The first version of the chain at or below `s`. */
  method VisibleIn(data: Table, key: Key, s: nat) returns (r: Option<VersionedEntry>)
    ensures r == Visible(data, key, s) && FirstBelow(if key in data then data[key] else [], s, r)
  {
    r := None;
    if key in data {
      var chain := data[key];
      var i := 0;
      while i < |chain| && chain[i].sequence > s
        invariant 0 <= i <= |chain| && FirstVisible(chain, s) == FirstVisible(chain[i..], s)
        invariant forall j :: 0 <= j < i ==> chain[j].sequence > s
      {
        assert chain[i..][1..] == chain[i + 1..];
        i := i + 1;
      }
      if i < |chain| {
        r := Some(chain[i]);
      }
    }
  }

  /**
   * The newest version visible at `s` of every key in the range: strictly sorted by key, and
   * exactly those keys that have one.
   */
  method VisibleEntries(data: Table, start: Option<Key>, end: Option<Key>, s: nat) returns (out: seq<Version>)
    ensures KeySorted(out)
    ensures forall k, v :: (k, v) in out <==> Between(k, start, end) && Visible(data, k, s) == Some(v)
  {
    var found: seq<Version> := [];
    var keys := data.Keys;
    hide InRange;
    hide Between;
    hide Visible;
    while keys != {}
      invariant keys <= data.Keys && DistinctKeys(found)
      invariant forall x :: x in found ==> x.0 in data.Keys - keys
      invariant forall k, v :: (k, v) in found <==> k in data.Keys - keys && InRange(k, start, end) && Visible(data, k, s) == Some(v)
      decreases |keys|
    {
      var key :| key in keys;
      keys := keys - {key};
      if InRange(key, start, end) {
        var visible := VisibleIn(data, key, s);
        if visible.Some? {
          found := found + [(key, visible.value)];
        }
      }
    }
    NoneElsewhere(data, s);
    SortsByKey(found);
    out := Sort(ByKey(), found);
  }

  /** Every version of every key, sorted by key and then newest first; equal sequences in any order. */
  method AllVersions(data: Table) returns (out: seq<Version>)
    requires NoEmptyChains(data)
    ensures Sorted(NewestFirst(), out) && Flattens(out, data)
    ensures SortedVersion(Group(out), data)
  {
    var flat: seq<Version> := [];
    var keys := data.Keys;
    while keys != {}
      invariant keys <= data.Keys
      invariant forall k, v :: multiset(flat)[(k, v)] == if k in keys then 0 else multiset(ChainOf(data, k))[v]
      decreases |keys|
    {
      var key :| key in keys;
      keys := keys - {key};
      var tagged := Tagged(key, data[key]);
      TaggedHas(key, data[key]);
      flat := flat + tagged;
    }
    NewestFirstOrders();
    SortSorts(NewestFirst(), flat);
    SortPermutes(NewestFirst(), flat);
    out := Sort(NewestFirst(), flat);
    GroupIsSortedVersion(out, data);
  }

  /** The greatest sequence among the chain fronts. */
  method MaxSequenceOf(data: Table) returns (r: Option<nat>)
    requires NoEmptyChains(data)
    ensures r.None? <==> data == map[]
    ensures (if r.Some? then r.value else 0) == FrontMax(data)
  {
    r := None;
    var keys := data.Keys;
    while keys != {}
      invariant keys <= data.Keys
      invariant r.None? <==> keys == data.Keys
      invariant r.Some? ==> forall k :: k in data.Keys - keys ==> data[k][0].sequence <= r.value
      invariant r.Some? ==> exists k :: k in data.Keys - keys && data[k][0].sequence == r.value
      decreases |keys|
    {
      var key :| key in keys;
      keys := keys - {key};
      var sequence := data[key][0].sequence;
      if r.None? || sequence > r.value {
        r := Some(sequence);
      }
    }
    FrontMaxIs(data, if r.Some? then r.value else 0);
  }

  // -------------------------------------------------------------------------
  // The table
  // -------------------------------------------------------------------------

  class MemTable {
    var data: Table

    constructor ()
      ensures data == map[]
    {
      data := map[];
    }

    ghost predicate Valid()
      reads this
    {
      NoEmptyChains(data)
    }

    method PushVersion(key: Key, version: VersionedEntry)
      requires Valid()
      modifies this
      ensures Valid() && data == Push(old(data), key, version)
      ensures data == old(data)[key := [version] + if key in old(data) then old(data)[key] else []]
    {
      if key in data {
        data := data[key := [version] + data[key]];
      } else {
        data := data[key := [version]];
        assert [version] + [] == [version];
      }
    }

    method InsertWithSeq(key: Key, value: Bytes, sequence: nat) returns (ok: bool)
      requires Valid()
      modifies this
      ensures Valid() && (ok <==> |key| <= 0x100_0000 && |value| <= 0x100_0000)
      ensures data == if ok then Push(old(data), key, VersionedEntry(sequence, Value(value))) else old(data)
    {
      ok := ValidPut(key, value);
      if ok {
        PushVersion(key, VersionedEntry(sequence, Value(value)));
      }
    }

    method DeleteWithSeq(key: Key, sequence: nat) returns (ok: bool)
      requires Valid()
      modifies this
      ensures Valid() && (ok <==> |key| <= 0x100_0000)
      ensures data == if ok then Push(old(data), key, VersionedEntry(sequence, Tombstone)) else old(data)
    {
      ok := ValidDelete(key);
      if ok {
        PushVersion(key, VersionedEntry(sequence, Tombstone));
      }
    }

    method GetVisible(key: Key, s: nat) returns (r: Option<VersionedEntry>)
      ensures r == Visible(data, key, s) && FirstBelow(if key in data then data[key] else [], s, r)
    {
      r := VisibleIn(data, key, s);
    }

    method ScanEntriesVisible(start: Option<Key>, end: Option<Key>, s: nat) returns (out: seq<Version>)
      ensures KeySorted(out)
      ensures forall k, v :: (k, v) in out <==> Between(k, start, end) && Visible(data, k, s) == Some(v)
    {
      hide Between;
      out := VisibleEntries(data, start, end, s);
    }

    method ScanAllVersions() returns (out: seq<Version>)
      requires Valid()
      ensures VersionsSorted(out) && Flattens(out, data) && SortedVersion(Group(out), data)
    {
      out := AllVersions(data);
      SortedIsVersionsSorted(out);
    }

    method MaxSequence() returns (r: Option<nat>)
      requires Valid()
      ensures r.None? <==> data == map[]
      ensures (if r.Some? then r.value else 0) == FrontMax(data)
    {
      r := MaxSequenceOf(data);
    }
  }

  lemma NoneElsewhere(t: Table, s: nat)
    ensures forall k :: k !in t ==> Visible(t, k, s).None?
  {
  }

  function Tagged(k: Key, c: Chain): (xs: seq<Version>)
    ensures |xs| == |c|
  {
    if c == [] then [] else [(k, c[0])] + Tagged(k, c[1..])
  }

  lemma {:induction false} TaggedHas(k: Key, c: Chain)
    ensures forall j, v :: multiset(Tagged(k, c))[(j, v)] == if j == k then multiset(c)[v] else 0
  {
    if c != [] {
      TaggedHas(k, c[1..]);
      assert c == [c[0]] + c[1..];
    }
  }
}
