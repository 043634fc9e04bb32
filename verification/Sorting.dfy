/** Sorting, as the library sorts that the store calls behave, and the orders it sorts by. */
module Sorting {
  import opened Encoding
  import opened Versions

  type Order<!T> = (T, T) -> bool

  ghost predicate TotalPreorder<T(!new)>(le: Order<T>)
  {
    && (forall a, b :: le(a, b) || le(b, a))
    && (forall a, b, c :: le(a, b) && le(b, c) ==> le(a, c))
  }

  ghost predicate Sorted<T>(le: Order<T>, xs: seq<T>)
  {
    forall i, j :: 0 <= i < j < |xs| ==> le(xs[i], xs[j])
  }

  function InsertInto<T>(le: Order<T>, x: T, ys: seq<T>): seq<T>
  {
    if ys == [] || le(x, ys[0]) then [x] + ys else [ys[0]] + InsertInto(le, x, ys[1..])
  }

  function Sort<T>(le: Order<T>, xs: seq<T>): seq<T>
  {
    if xs == [] then [] else InsertInto(le, xs[0], Sort(le, xs[1..]))
  }

  lemma {:induction false} InsertPermutes<T>(le: Order<T>, x: T, ys: seq<T>)
    ensures multiset(InsertInto(le, x, ys)) == multiset{x} + multiset(ys)
  {
    if ys != [] && !le(x, ys[0]) {
      InsertPermutes(le, x, ys[1..]);
      assert ys == [ys[0]] + ys[1..];
    }
  }

  lemma {:induction false} SortPermutes<T>(le: Order<T>, xs: seq<T>)
    ensures multiset(Sort(le, xs)) == multiset(xs)
    ensures |Sort(le, xs)| == |xs|
    ensures forall x :: x in Sort(le, xs) <==> x in xs
  {
    if xs != [] {
      SortPermutes(le, xs[1..]);
      InsertPermutes(le, xs[0], Sort(le, xs[1..]));
      assert xs == [xs[0]] + xs[1..];
    }
    hide Sort;
    SameElements(Sort(le, xs), xs);
  }

  lemma SameElements<T>(a: seq<T>, b: seq<T>)
    requires multiset(a) == multiset(b)
    ensures |a| == |b| && forall x :: x in a <==> x in b
  {
    assert |multiset(a)| == |a| && |multiset(b)| == |b|;
    forall x
      ensures x in a <==> x in b
    {
      assert x in a <==> x in multiset(a);
      assert x in b <==> x in multiset(b);
    }
  }

  lemma {:induction false} InsertSorted<T(!new)>(le: Order<T>, x: T, ys: seq<T>)
    requires TotalPreorder(le) && Sorted(le, ys)
    ensures Sorted(le, InsertInto(le, x, ys))
    ensures forall y :: y in InsertInto(le, x, ys) ==> y == x || y in ys
  {
    if ys != [] && !le(x, ys[0]) {
      InsertSorted(le, x, ys[1..]);
      var rest := InsertInto(le, x, ys[1..]);
      forall y | y in rest
        ensures le(ys[0], y)
      {
        assert y == x || y in ys[1..];
      }
    }
  }

  lemma {:induction false} SortSorts<T(!new)>(le: Order<T>, xs: seq<T>)
    requires TotalPreorder(le)
    ensures Sorted(le, Sort(le, xs))
  {
    if xs != [] {
      SortSorts(le, xs[1..]);
      InsertSorted(le, xs[0], Sort(le, xs[1..]));
    }
  }

  // -------------------------------------------------------------------------
  // Orders on keys
  // -------------------------------------------------------------------------

  lemma LessEqTransitive(a: Key, b: Key, c: Key)
    requires LessEq(a, b) && LessEq(b, c)
    ensures LessEq(a, c)
  {
    LessTotal(a, b);
    if Less(c, a) && Less(a, b) {
      LessTransitive(c, a, b);
    }
  }

  lemma LessEqTotal(a: Key, b: Key)
    ensures LessEq(a, b) || LessEq(b, a)
    ensures LessEq(a, b) && a != b ==> Less(a, b)
  {
    LessTotal(a, b);
    if Less(a, b) && Less(b, a) {
      LessTransitive(a, b, a);
      LessIrreflexive(a);
    }
  }

  type Pair<T> = (Key, T)

  function ByKey<T>(): Order<Pair<T>>
  {
    (a: Pair<T>, b: Pair<T>) => LessEq(a.0, b.0)
  }

  lemma ByKeyOrders<T(!new)>()
    ensures TotalPreorder(ByKey<T>())
  {
    forall a: Pair<T>, b: Pair<T>
      ensures LessEq(a.0, b.0) || LessEq(b.0, a.0)
    {
      LessEqTotal(a.0, b.0);
    }
    forall a: Pair<T>, b: Pair<T>, c: Pair<T> | LessEq(a.0, b.0) && LessEq(b.0, c.0)
      ensures LessEq(a.0, c.0)
    {
      LessEqTransitive(a.0, b.0, c.0);
    }
  }

  ghost predicate DistinctKeys<T>(xs: seq<Pair<T>>)
  {
    forall i, j :: 0 <= i < j < |xs| ==> xs[i].0 != xs[j].0
  }

  /** Strictly sorted by key, so also without duplicates. */
  ghost predicate KeySorted<T>(xs: seq<Pair<T>>)
  {
    forall i, j :: 0 <= i < j < |xs| ==> ComesBefore(xs[i].0, xs[j].0)
  }

  ghost predicate DistinctBy<T, K>(key: T -> K, xs: seq<T>)
  {
    forall i, j :: 0 <= i < j < |xs| ==> key(xs[i]) != key(xs[j])
  }

  lemma {:induction false} InsertDistinct<T, K>(le: Order<T>, key: T -> K, x: T, ys: seq<T>)
    requires DistinctBy(key, ys) && forall y :: y in ys ==> key(y) != key(x)
    ensures DistinctBy(key, InsertInto(le, x, ys))
    ensures forall y :: y in InsertInto(le, x, ys) ==> y == x || y in ys
  {
    if ys != [] && !le(x, ys[0]) {
      InsertDistinct(le, key, x, ys[1..]);
      forall y | y in InsertInto(le, x, ys[1..])
        ensures key(y) != key(ys[0])
      {
      }
    }
  }

  /** Sorting keeps what tells the elements apart. */
  lemma {:induction false} SortDistinct<T, K>(le: Order<T>, key: T -> K, xs: seq<T>)
    requires DistinctBy(key, xs)
    ensures DistinctBy(key, Sort(le, xs))
  {
    if xs != [] {
      SortDistinct(le, key, xs[1..]);
      SortPermutes(le, xs[1..]);
      forall y | y in Sort(le, xs[1..])
        ensures key(y) != key(xs[0])
      {
        assert y in multiset(Sort(le, xs[1..])) && y in multiset(xs[1..]);
        var j :| 0 <= j < |xs[1..]| && xs[1..][j] == y;
        assert xs[j + 1] == y;
      }
      InsertDistinct(le, key, xs[0], Sort(le, xs[1..]));
    }
  }

  /** Pairs of distinct keys come out strictly sorted by key. */
  lemma SortsByKey<T(!new)>(xs: seq<Pair<T>>)
    requires DistinctKeys(xs)
    ensures KeySorted(Sort(ByKey(), xs))
    ensures forall x :: x in Sort(ByKey(), xs) <==> x in xs
  {
    var le, ys := ByKey<T>(), Sort(ByKey<T>(), xs);
    ByKeyOrders<T>();
    SortSorts(le, xs);
    var key := (x: Pair<T>) => x.0;
    assert DistinctBy(key, xs);
    SortDistinct(le, key, xs);
    assert DistinctKeys(ys) by {
      forall i, j | 0 <= i < j < |ys|
        ensures ys[i].0 != ys[j].0
      {
        assert key(ys[i]) != key(ys[j]);
      }
    }
    SortPermutes(le, xs);
    hide Sort;
    hide ComesBefore;
    forall i, j | 0 <= i < j < |ys|
      ensures ComesBefore(ys[i].0, ys[j].0)
    {
      assert le(ys[i], ys[j]);
      LessEqTotal(ys[i].0, ys[j].0);
      LessIsComesBefore(ys[i].0, ys[j].0);
    }
    forall x: Pair<T>
      ensures x in ys <==> x in xs
    {
      assert x in ys <==> x in multiset(ys);
      assert x in xs <==> x in multiset(xs);
    }
  }
}
