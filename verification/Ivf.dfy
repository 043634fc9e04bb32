/**
 * The inverted-file vector index against brute force. Distances and scores are real numbers
 * given by functions of two vectors; nothing else is used of them.
 */
module Ivf {
  import opened Options
  import opened Sorting

  type Vector = seq<real>
  type Stored = (nat, Vector)
  type Scored = (nat, real)
  type Measure = (Vector, Vector) -> real

  // -------------------------------------------------------------------------
  // Top k
  // -------------------------------------------------------------------------

  /** Best score first. */
  function Best(): Order<Scored>
  {
    (a: Scored, b: Scored) => a.1 >= b.1
  }

  lemma BestOrders()
    ensures TotalPreorder(Best())
  {
  }

  function Least(a: nat, b: nat): nat
  {
    if a < b then a else b
  }

  /** Sorted by score and cut to `k`. */
  function Cut(l: seq<Scored>, k: nat): (r: seq<Scored>)
  {
    var s := Sort(Best(), l);
    if k < |s| then s[..k] else s
  }

  ghost predicate Falling(r: seq<Scored>)
  {
    forall i, j :: 0 <= i < j < |r| ==> r[i].1 >= r[j].1
  }

  /** `r` is a top `k` of `l`: sorted, as many as there can be, and nothing left out scores higher. */
  ghost predicate IsTopK(r: seq<Scored>, l: multiset<Scored>, k: nat)
  {
    && Falling(r)
    && |r| == Least(k, |l|) && multiset(r) <= l
    && forall x, y :: x in r && y in l - multiset(r) ==> x.1 >= y.1
  }

  lemma SplitAt(s: seq<Scored>, k: nat)
    requires k <= |s|
    ensures multiset(s) - multiset(s[..k]) == multiset(s[k..]) && multiset(s[..k]) <= multiset(s)
  {
    assert s == s[..k] + s[k..];
  }

  lemma MultisetSize(s: seq<Scored>)
    ensures |multiset(s)| == |s|
  {
  }

  lemma FrontAbove(s: seq<Scored>, n: nat)
    requires Falling(s) && n <= |s|
    ensures Falling(s[..n])
    ensures forall x: Scored, y: Scored :: x in s[..n] && y in multiset(s[n..]) ==> x.1 >= y.1
  {
    forall x: Scored, y: Scored | x in s[..n] && y in multiset(s[n..])
      ensures x.1 >= y.1
    {
      var i :| 0 <= i < n && s[..n][i] == x;
      assert y in s[n..];
      var j :| 0 <= j < |s| - n && s[n..][j] == y;
      assert s[i].1 >= s[n + j].1;
    }
  }

  /** The front of a sorted list is a top `k`. */
  lemma FrontIsTopK(s: seq<Scored>, k: nat)
    requires Falling(s)
    ensures IsTopK(if k < |s| then s[..k] else s, multiset(s), k)
  {
    hide Falling;
    var n := Least(k, |s|);
    MultisetSize(s);
    assert s[..|s|] == s;
    SplitAt(s, n);
    FrontAbove(s, n);
  }

  lemma CutIsTopK(l: seq<Scored>, k: nat)
    ensures IsTopK(Cut(l, k), multiset(l), k)
  {
    var s := Sort(Best(), l);
    BestOrders();
    SortSorts(Best(), l);
    SortPermutes(Best(), l);
    hide IsTopK;
    hide Sort;
    forall i, j | 0 <= i < j < |s|
      ensures s[i].1 >= s[j].1
    {
      assert Best()(s[i], s[j]);
    }
    FrontIsTopK(s, k);
  }

  /** At least `k` of `t` score as high as `y`. */
  ghost predicate Dominated(y: Scored, t: multiset<Scored>, k: nat)
  {
    exists d: multiset<Scored> :: d <= t && |d| >= k && forall e :: e in d ==> e.1 >= y.1
  }

  /** `t` is enough of `l` to find a top `k` in. */
  ghost predicate Enough(t: multiset<Scored>, l: multiset<Scored>, k: nat)
  {
    t <= l && forall y :: y in l - t ==> Dominated(y, t, k)
  }

  lemma CutIsEnough(l: seq<Scored>, k: nat)
    ensures Enough(multiset(Cut(l, k)), multiset(l), k)
  {
    var r := Cut(l, k);
    CutIsTopK(l, k);
    hide Cut;
    var t := multiset(r);
    forall y | y in multiset(l) - t
      ensures Dominated(y, t, k)
    {
      SomeLeft(t, multiset(l), y);
      assert |t| == |r| == k;
      assert forall e :: e in t ==> e in r;
    }
  }

  lemma SomeLeft(t: multiset<Scored>, l: multiset<Scored>, y: Scored)
    requires t <= l && y in l - t
    ensures |t| < |l|
  {
    assert l == t + (l - t);
  }

  lemma JoinIsEnough(t: multiset<Scored>, l: multiset<Scored>, t': multiset<Scored>, l': multiset<Scored>, k: nat)
    requires Enough(t, l, k) && Enough(t', l', k)
    ensures Enough(t + t', l + l', k)
  {
    forall y | y in l + l' - (t + t')
      ensures Dominated(y, t + t', k)
    {
      if y in l - t {
        var d: multiset<Scored> :| d <= t && |d| >= k && forall e :: e in d ==> e.1 >= y.1;
        assert d <= t + t';
      } else {
        assert y in l' - t';
        var d: multiset<Scored> :| d <= t' && |d| >= k && forall e :: e in d ==> e.1 >= y.1;
        assert d <= t + t';
      }
    }
  }

  lemma Smaller(a: multiset<Scored>, b: multiset<Scored>)
    requires a <= b
    ensures |a| <= |b|
  {
    assert b == a + (b - a);
  }

  /** A top `k` of enough is a top `k` of all. */
  lemma TopOfEnough(r: seq<Scored>, t: multiset<Scored>, l: multiset<Scored>, k: nat)
    requires Enough(t, l, k) && IsTopK(r, t, k)
    ensures IsTopK(r, l, k)
  {
    Smaller(t, l);
    if |t| < |l| && |t| < k {
      MustLeave(t, l);
      var y :| y in l - t;
      var d: multiset<Scored> :| d <= t && |d| >= k && forall e :: e in d ==> e.1 >= y.1;
      Smaller(d, t);
    }
    forall x: Scored, y: Scored | x in r && y in l - multiset(r)
      ensures x.1 >= y.1
    {
      if y in t - multiset(r) {
      } else {
        assert y in l - t;
        var d: multiset<Scored> :| d <= t && |d| >= k && forall e :: e in d ==> e.1 >= y.1;
        NotBelow(r, t, d, x, y, k);
      }
    }
  }

  lemma MustLeave(t: multiset<Scored>, l: multiset<Scored>)
    requires t <= l && |t| < |l|
    ensures exists y :: y in l - t
  {
    assert l == t + (l - t);
    var y :| y in l - t;
  }

  /** Elements that score above a listed one are listed. */
  lemma AboveAreListed(r: seq<Scored>, t: multiset<Scored>, d: multiset<Scored>, x: Scored, k: nat)
    requires IsTopK(r, t, k) && d <= t && x in r && forall e :: e in d ==> e.1 > x.1
    ensures |d| + 1 <= |r|
  {
    var m := multiset(r);
    assert forall e :: e in d ==> e !in t - m;
    assert d + multiset{x} <= m;
    Smaller(d + multiset{x}, m);
    MultisetSize(r);
  }

  lemma NotBelow(r: seq<Scored>, t: multiset<Scored>, d: multiset<Scored>, x: Scored, y: Scored, k: nat)
    requires IsTopK(r, t, k) && d <= t && |d| >= k && x in r && forall e :: e in d ==> e.1 >= y.1
    ensures x.1 >= y.1
  {
    if x.1 < y.1 {
      AboveAreListed(r, t, d, x, k);
    }
  }

  /** Two top `k` lists of the same vectors have the same scores, place by place: only ties may differ. */
  lemma SameScores(a: seq<Scored>, b: seq<Scored>, l: multiset<Scored>, k: nat)
    requires IsTopK(a, l, k) && IsTopK(b, l, k)
    ensures |a| == |b| && forall i :: 0 <= i < |a| ==> a[i].1 == b[i].1
  {
    forall i | 0 <= i < |a|
      ensures a[i].1 == b[i].1
    {
      NotAbove(a, b, l, k, i);
      NotAbove(b, a, l, k, i);
    }
  }

  lemma NotAbove(a: seq<Scored>, b: seq<Scored>, l: multiset<Scored>, k: nat, i: nat)
    requires IsTopK(a, l, k) && IsTopK(b, l, k) && i < |a| == |b|
    ensures a[i].1 <= b[i].1
  {
    var p := FirstOnes(a, l, i);
    hide IsTopK;
    hide Falling;
    if a[i].1 > b[i].1 {
      HighInFront(b, l, k, p, a[i].1, i);
    }
  }

  lemma FirstOnes(a: seq<Scored>, l: multiset<Scored>, i: nat) returns (p: multiset<Scored>)
    requires Falling(a) && multiset(a) <= l && i < |a|
    ensures p <= l && |p| == i + 1 && forall e :: e in p ==> e.1 >= a[i].1
  {
    var front := a[..i + 1];
    p := multiset(front);
    SplitAt(a, i + 1);
    MultisetSize(front);
    forall e | e in p
      ensures e.1 >= a[i].1
    {
      assert e in front;
      var j :| 0 <= j < |front| && front[j] == e;
      assert a[j] == e;
    }
  }

  /** Elements scoring above the `i`-th of a top `k` are among the `i` before it. */
  lemma HighInFront(b: seq<Scored>, l: multiset<Scored>, k: nat, p: multiset<Scored>, score: real, i: nat)
    requires IsTopK(b, l, k) && i < |b| && p <= l && score > b[i].1 && forall e :: e in p ==> e.1 >= score
    ensures |p| <= i
  {
    SplitAt(b, i);
    MultisetSize(b[..i]);
    assert forall e :: e in multiset(b[i..]) ==> e in b[i..] && e.1 <= b[i].1;
    assert b[i] in b;
    forall e | e in p
      ensures p[e] <= multiset(b[..i])[e]
    {
      assert e !in multiset(b[i..]);
      assert e !in l - multiset(b);
    }
    Smaller(p, multiset(b[..i]));
  }

  // -------------------------------------------------------------------------
  // Scores
  // -------------------------------------------------------------------------

  datatype Metric = Cosine | Euclidean | Manhattan

  /** The three measures of the vector functions. */
  datatype Measures = Measures(cosine: Measure, euclidean: Measure, manhattan: Measure)

  function Distance(m: Metric, f: Measures, a: Vector, b: Vector): real
  {
    match m
    case Cosine => 1.0 - f.cosine(a, b)
    case Euclidean => f.euclidean(a, b)
    case Manhattan => f.manhattan(a, b)
  }

  /** Vector `a` is strictly closer to the query than `b`: at a smaller distance, or more similar. */
  ghost predicate StrictlyCloser(m: Metric, f: Measures, q: Vector, a: Vector, b: Vector)
  {
    match m
    case Cosine => f.cosine(q, a) > f.cosine(q, b)
    case Euclidean => f.euclidean(q, a) < f.euclidean(q, b)
    case Manhattan => f.manhattan(q, a) < f.manhattan(q, b)
  }

  /** The score that an answer gives to a vector: its similarity, or its distance negated. */
  ghost predicate IsScore(m: Metric, f: Measures, q: Vector, v: Vector, score: real)
  {
    match m
    case Cosine => score == f.cosine(q, v)
    case Euclidean => score == -f.euclidean(q, v)
    case Manhattan => score == -f.manhattan(q, v)
  }

  /** The score that the inverted file gives. */
  function Score(m: Metric, f: Measures, q: Vector, v: Vector): real
  {
    if m.Cosine? then 1.0 - Distance(m, f, q, v) else -Distance(m, f, q, v)
  }

  /** The score that brute force gives; over the reals the same. */
  function BruteScore(m: Metric, f: Measures, q: Vector, v: Vector): (r: real)
    ensures r == Score(m, f, q, v)
  {
    match m
    case Cosine => f.cosine(q, v)
    case Euclidean => -f.euclidean(q, v)
    case Manhattan => -f.manhattan(q, v)
  }

  function Each<A, B>(f: A -> B, l: seq<A>): (r: seq<B>)
    ensures |r| == |l| && forall i :: 0 <= i < |l| ==> r[i] == f(l[i])
  {
    seq(|l|, i requires 0 <= i < |l| => f(l[i]))
  }

  lemma RemoveAt<T>(b: seq<T>, j: nat)
    requires j < |b|
    ensures multiset(b[..j] + b[j + 1..]) == multiset(b) - multiset{b[j]}
    ensures multiset(b) == multiset(b[..j] + b[j + 1..]) + multiset{b[j]}
  {
    assert b == b[..j] + [b[j]] + b[j + 1..];
  }

  lemma EachWithout<A, B>(f: A -> B, l: seq<A>, j: nat)
    requires j < |l|
    ensures multiset(Each(f, l)) == multiset(Each(f, l[..j] + l[j + 1..])) + multiset{f(l[j])}
  {
    RemoveAt(Each(f, l), j);
    assert Each(f, l)[..j] + Each(f, l)[j + 1..] == Each(f, l[..j] + l[j + 1..]);
  }

  /** Applying a function to each element of a permuted list permutes the results. */
  lemma {:induction false} EachPermutes<A, B>(f: A -> B, a: seq<A>, b: seq<A>)
    requires multiset(a) == multiset(b)
    ensures multiset(Each(f, a)) == multiset(Each(f, b))
    decreases |a|
  {
    hide Each;
    if a == [] {
      assert |multiset(a)| == |a| && |multiset(b)| == |b|;
    } else {
      var j := PlaceIn(0, a, b);
      EachWithout(f, a, 0);
      EachWithout(f, b, j);
      EachPermutes(f, a[..0] + a[1..], b[..j] + b[j + 1..]);
    }
  }

  /** Where an element of a list stands in a permutation of it. */
  lemma PlaceIn<T>(i: nat, a: seq<T>, b: seq<T>) returns (j: nat)
    requires i < |a| && multiset(a) == multiset(b)
    ensures j < |b| && b[j] == a[i]
    ensures multiset(a[..i] + a[i + 1..]) == multiset(b[..j] + b[j + 1..])
  {
    assert a[i] in multiset(b);
    j :| 0 <= j < |b| && b[j] == a[i];
    RemoveAt(a, i);
    RemoveAt(b, j);
  }

  function Scorer(m: Metric, f: Measures, q: Vector): Stored -> Scored
  {
    (s: Stored) => (s.0, Score(m, f, q, s.1))
  }

  function ScoredOf(m: Metric, f: Measures, q: Vector, l: seq<Stored>): (r: seq<Scored>)
    ensures |r| == |l|
  {
    Each(Scorer(m, f, q), l)
  }

  /** What the clusters at the given places hold, one cluster after the other. */
  function Gathered(clusters: seq<seq<Stored>>, places: seq<nat>): seq<Stored>
    requires forall i :: 0 <= i < |places| ==> places[i] < |clusters|
  {
    if places == [] then [] else Gathered(clusters, places[..|places| - 1]) + clusters[places[|places| - 1]]
  }

  /** What is gathered is held by one of them. */
  lemma {:induction false} HeldBySome(clusters: seq<seq<Stored>>, places: seq<nat>, x: Stored) returns (i: nat)
    requires (forall i :: 0 <= i < |places| ==> places[i] < |clusters|) && x in Gathered(clusters, places)
    ensures i < |places| && x in clusters[places[i]]
  {
    i := |places| - 1;
    if x !in clusters[places[i]] {
      i := HeldBySome(clusters, places[..i], x);
    }
  }

  /** What one of them holds is gathered. */
  lemma {:induction false} HeldIsGathered(clusters: seq<seq<Stored>>, places: seq<nat>, x: Stored, i: nat)
    requires (forall i :: 0 <= i < |places| ==> places[i] < |clusters|) && i < |places| && x in clusters[places[i]]
    ensures x in Gathered(clusters, places)
  {
    if i < |places| - 1 {
      HeldIsGathered(clusters, places[..|places| - 1], x, i);
    }
  }

  lemma {:induction false} GatheredWithout(clusters: seq<seq<Stored>>, places: seq<nat>, j: nat)
    requires (forall i :: 0 <= i < |places| ==> places[i] < |clusters|) && j < |places|
    ensures multiset(Gathered(clusters, places)) ==
            multiset(Gathered(clusters, places[..j] + places[j + 1..])) + multiset(clusters[places[j]])
  {
    var without := places[..j] + places[j + 1..];
    if j == |places| - 1 {
      assert without == places[..j];
    } else {
      var front := places[..|places| - 1];
      FrontWithout(places, j);
      GatheredWithout(clusters, front, j);
      MultisetSwap(multiset(Gathered(clusters, front[..j] + front[j + 1..])), multiset(clusters[places[j]]),
                   multiset(clusters[places[|places| - 1]]));
    }
  }

  lemma MultisetSwap<T>(a: multiset<T>, b: multiset<T>, c: multiset<T>)
    ensures a + b + c == a + c + b
  {
  }

  lemma FrontWithout<T>(l: seq<T>, j: nat)
    requires j < |l| - 1
    ensures var without, front := l[..j] + l[j + 1..], l[..|l| - 1];
            && without != [] && without[|without| - 1] == l[|l| - 1] && without[..|without| - 1] == front[..j] + front[j + 1..]
            && front[j] == l[j]
  {
  }

  /** The order in which clusters are probed does not matter for what they hold together. */
  lemma {:induction false} GatheredPermutes(clusters: seq<seq<Stored>>, a: seq<nat>, b: seq<nat>)
    requires (forall i :: 0 <= i < |a| ==> a[i] < |clusters|) && (forall i :: 0 <= i < |b| ==> b[i] < |clusters|)
    requires multiset(a) == multiset(b)
    ensures multiset(Gathered(clusters, a)) == multiset(Gathered(clusters, b))
    decreases |a|
  {
    hide Gathered;
    if a == [] {
      assert |multiset(a)| == |a| && |multiset(b)| == |b|;
    } else {
      var n := |a| - 1;
      var j := PlaceIn(n, a, b);
      GatheredWithout(clusters, a, n);
      GatheredWithout(clusters, b, j);
      GatheredPermutes(clusters, a[..n] + a[n + 1..], b[..j] + b[j + 1..]);
    }
  }

  /** All clusters one after the other. */
  function Concat(clusters: seq<seq<Stored>>): seq<Stored>
  {
    if clusters == [] then [] else Concat(clusters[..|clusters| - 1]) + clusters[|clusters| - 1]
  }

  function UpTo(n: nat): (r: seq<nat>)
    ensures |r| == n && forall i :: 0 <= i < n ==> r[i] == i
  {
    seq(n, i => i)
  }

  lemma {:induction false} GatheredAll(clusters: seq<seq<Stored>>, n: nat)
    requires n <= |clusters|
    ensures Gathered(clusters, UpTo(n)) == Concat(clusters[..n])
  {
    if n == 0 {
      assert clusters[..0] == [];
    } else {
      GatheredAll(clusters, n - 1);
      assert UpTo(n)[..n - 1] == UpTo(n - 1);
      assert clusters[..n][..n - 1] == clusters[..n - 1];
    }
  }

  lemma ScoredAppend(m: Metric, f: Measures, q: Vector, a: seq<Stored>, b: seq<Stored>)
    ensures ScoredOf(m, f, q, a + b) == ScoredOf(m, f, q, a) + ScoredOf(m, f, q, b)
  {
  }

  lemma ScoredPermutes(m: Metric, f: Measures, q: Vector, a: seq<Stored>, b: seq<Stored>)
    requires multiset(a) == multiset(b)
    ensures multiset(ScoredOf(m, f, q, a)) == multiset(ScoredOf(m, f, q, b))
  {
    EachPermutes(Scorer(m, f, q), a, b);
  }

  // -------------------------------------------------------------------------
  // Answers, by distance
  // -------------------------------------------------------------------------

  ghost predicate ClosestFirst(m: Metric, f: Measures, q: Vector, chosen: seq<Stored>)
  {
    forall i, j :: 0 <= i < j < |chosen| ==> !StrictlyCloser(m, f, q, chosen[j].1, chosen[i].1)
  }

  ghost predicate NoneCloser(m: Metric, f: Measures, q: Vector, chosen: seq<Stored>, left: multiset<Stored>)
  {
    forall x, y :: x in chosen && y in left ==> !StrictlyCloser(m, f, q, y.1, x.1)
  }

  /**
   * The listed vectors are `k` closest of those held, closest first: as many as there can be,
   * none of them closer than one listed before it, and none left out closer than any of them.
   */
  ghost predicate ClosestOf(m: Metric, f: Measures, q: Vector, held: multiset<Stored>, k: nat, chosen: seq<Stored>)
  {
    && multiset(chosen) <= held
    && (|chosen| == k <= |held| || |chosen| == |held| < k)
    && ClosestFirst(m, f, q, chosen)
    && NoneCloser(m, f, q, chosen, held - multiset(chosen))
  }

  /** Each listed vector lies in one of the first `n` of the clusters at the given places. */
  ghost predicate FromFirst(clusters: seq<seq<Stored>>, places: seq<nat>, n: nat, chosen: seq<Stored>)
    requires forall i :: 0 <= i < |places| ==> places[i] < |clusters|
  {
    forall x :: x in chosen ==> exists i :: 0 <= i < |places| && i < n && x in clusters[places[i]]
  }

  /** What those hold besides is no closer than any of them. */
  ghost predicate NoneCloserInFirst(m: Metric, f: Measures, q: Vector, clusters: seq<seq<Stored>>, places: seq<nat>, n: nat,
                                    chosen: seq<Stored>)
    requires forall i :: 0 <= i < |places| ==> places[i] < |clusters|
  {
    forall i, x, y :: 0 <= i < |places| && i < n && x in chosen && y in clusters[places[i]] ==>
      y in chosen || !StrictlyCloser(m, f, q, y.1, x.1)
  }

  /** The answer gives the listed vectors in their order, each with its score. */
  ghost predicate Listed(m: Metric, f: Measures, q: Vector, chosen: seq<Stored>, r: seq<Scored>)
  {
    && |r| == |chosen|
    && forall i :: 0 <= i < |r| ==> r[i].0 == chosen[i].0 && IsScore(m, f, q, chosen[i].1, r[i].1)
  }

  /** The same of a map of vectors, where an id tells the vector. */
  ghost predicate Answers(m: Metric, f: Measures, q: Vector, all: map<nat, Vector>, k: nat, r: seq<Scored>)
  {
    && (|r| == k <= |all| || |r| == |all| < k)
    && (forall i :: 0 <= i < |r| ==> r[i].0 in all && IsScore(m, f, q, all[r[i].0], r[i].1))
    && (forall i, j :: 0 <= i < j < |r| ==> r[i].0 != r[j].0 && !StrictlyCloser(m, f, q, all[r[j].0], all[r[i].0]))
    && forall id, i :: id in all && 0 <= i < |r| && (forall j :: 0 <= j < |r| ==> r[j].0 != id) ==>
         !StrictlyCloser(m, f, q, all[id], all[r[i].0])
  }

  /** A vector scores higher exactly when it is closer. */
  lemma ScoreIsCloseness(m: Metric, f: Measures, q: Vector, a: Vector, b: Vector)
    ensures StrictlyCloser(m, f, q, a, b) <==> Score(m, f, q, a) > Score(m, f, q, b)
    ensures StrictlyCloser(m, f, q, a, b) <==> Distance(m, f, q, a) < Distance(m, f, q, b)
    ensures IsScore(m, f, q, a, Score(m, f, q, a))
  {
  }

  lemma FewerOf<T>(a: multiset<T>, b: multiset<T>, x: T)
    requires a + multiset{x} <= b + multiset{x}
    ensures a <= b
  {
    assert a == (a + multiset{x}) - multiset{x} && b == (b + multiset{x}) - multiset{x};
  }

  /** Which elements a part of the results came from, and the others. */
  lemma {:induction false} Picked<A, B>(g: A -> B, l: seq<A>, r: seq<B>) returns (chosen: seq<A>, rest: seq<A>)
    requires multiset(r) <= multiset(Each(g, l))
    ensures Each(g, chosen) == r && multiset(chosen) + multiset(rest) == multiset(l)
    decreases |r|
  {
    if r == [] {
      chosen, rest := [], l;
      assert Each(g, chosen) == r;
    } else {
      var n := |r| - 1;
      assert r == r[..n] + [r[n]];
      assert r[n] in multiset(Each(g, l));
      var j :| 0 <= j < |l| && Each(g, l)[j] == r[n];
      EachWithout(g, l, j);
      RemoveAt(l, j);
      FewerOf(multiset(r[..n]), multiset(Each(g, l[..j] + l[j + 1..])), r[n]);
      chosen, rest := Picked(g, l[..j] + l[j + 1..], r[..n]);
      chosen := chosen + [l[j]];
      assert Each(g, chosen) == r;
    }
  }

  lemma OthersResults<A, B>(g: A -> B, l: seq<A>, chosen: seq<A>, rest: seq<A>)
    requires multiset(chosen) + multiset(rest) == multiset(l)
    ensures multiset(Each(g, rest)) == multiset(Each(g, l)) - multiset(Each(g, chosen))
  {
    EachPermutes(g, l, chosen + rest);
    assert Each(g, chosen + rest) == Each(g, chosen) + Each(g, rest);
  }

  /** The vectors of a top `k`, and those it leaves out. */
  lemma TopPicks(g: Stored -> Scored, l: seq<Stored>, k: nat, r: seq<Scored>) returns (chosen: seq<Stored>, rest: seq<Stored>)
    requires IsTopK(r, multiset(Each(g, l)), k)
    ensures multiset(chosen) + multiset(rest) == multiset(l) && |r| == |chosen| == Least(k, |l|)
    ensures forall i :: 0 <= i < |r| ==> r[i] == g(chosen[i])
    ensures forall i, j :: 0 <= i < j < |chosen| ==> g(chosen[i]).1 >= g(chosen[j]).1
    ensures forall i, j :: 0 <= i < |chosen| && 0 <= j < |rest| ==> g(chosen[i]).1 >= g(rest[j]).1
  {
    chosen, rest := Picked(g, l, r);
    OthersResults(g, l, chosen, rest);
    MultisetSize(Each(g, l));
    assert forall i :: 0 <= i < |r| ==> r[i] == Each(g, chosen)[i];
    forall i, j | 0 <= i < |chosen| && 0 <= j < |rest|
      ensures g(chosen[i]).1 >= g(rest[j]).1
    {
      assert r[i] in r && Each(g, rest)[j] in multiset(Each(g, rest));
    }
  }

  lemma HigherIsFirst(m: Metric, f: Measures, q: Vector, chosen: seq<Stored>)
    requires forall i, j :: 0 <= i < j < |chosen| ==> Score(m, f, q, chosen[i].1) >= Score(m, f, q, chosen[j].1)
    ensures ClosestFirst(m, f, q, chosen)
  {
    hide Score;
    hide StrictlyCloser;
    forall i, j | 0 <= i < j < |chosen|
      ensures !StrictlyCloser(m, f, q, chosen[j].1, chosen[i].1)
    {
      ScoreIsCloseness(m, f, q, chosen[j].1, chosen[i].1);
    }
  }

  lemma LowerIsNotCloser(m: Metric, f: Measures, q: Vector, chosen: seq<Stored>, rest: seq<Stored>)
    requires forall i, j :: 0 <= i < |chosen| && 0 <= j < |rest| ==> Score(m, f, q, chosen[i].1) >= Score(m, f, q, rest[j].1)
    ensures NoneCloser(m, f, q, chosen, multiset(rest))
  {
    hide Score;
    hide StrictlyCloser;
    forall x, y | x in chosen && y in multiset(rest)
      ensures !StrictlyCloser(m, f, q, y.1, x.1)
    {
      ScoreIsCloseness(m, f, q, y.1, x.1);
      assert y in rest;
      var i :| 0 <= i < |chosen| && chosen[i] == x;
      var j :| 0 <= j < |rest| && rest[j] == y;
    }
  }

  lemma MultisetSizes(l: seq<Stored>)
    ensures |multiset(l)| == |l|
  {
  }

  lemma ScoresAreListed(m: Metric, f: Measures, q: Vector, chosen: seq<Stored>, r: seq<Scored>)
    requires |r| == |chosen| && forall i :: 0 <= i < |r| ==> r[i] == (chosen[i].0, Score(m, f, q, chosen[i].1))
    ensures Listed(m, f, q, chosen, r)
  {
  }

  /** A top `k` by score lists `k` closest vectors. */
  lemma TopIsClosest(m: Metric, f: Measures, q: Vector, l: seq<Stored>, k: nat, r: seq<Scored>) returns (chosen: seq<Stored>)
    requires IsTopK(r, multiset(ScoredOf(m, f, q, l)), k)
    ensures ClosestOf(m, f, q, multiset(l), k, chosen) && Listed(m, f, q, chosen, r)
  {
    hide Score;
    hide ClosestFirst;
    hide NoneCloser;
    hide Listed;
    hide Each;
    hide IsTopK;
    var rest;
    chosen, rest := TopPicks(Scorer(m, f, q), l, k, r);
    assert multiset(l) - multiset(chosen) == multiset(rest);
    MultisetSizes(l);
    HigherIsFirst(m, f, q, chosen);
    LowerIsNotCloser(m, f, q, chosen, rest);
    ScoresAreListed(m, f, q, chosen, r);
  }

  // -------------------------------------------------------------------------
  // The index
  // -------------------------------------------------------------------------

  /** The list holds each stored vector once and nothing else. */
  ghost predicate Lists(l: seq<Stored>, all: map<nat, Vector>)
  {
    forall s: Stored {:trigger multiset(l)[s]} :: multiset(l)[s] == if s.0 in all && all[s.0] == s.1 then 1 else 0
  }

  lemma {:induction false} ListsSize(l: seq<Stored>, all: map<nat, Vector>)
    requires Lists(l, all)
    ensures |l| == |all|
    decreases |l|
  {
    if l == [] {
      forall id
        ensures id !in all
      {
        assert id in all ==> multiset(l)[(id, all[id])] == 1;
      }
      assert all == map[];
    } else {
      var n := |l| - 1;
      var s := l[n];
      assert l == l[..n] + [s];
      assert multiset(l)[s] >= 1;
      ListsLess(l, all);
      ListsSize(l[..n], all - {s.0});
      assert all.Keys == (all - {s.0}).Keys + {s.0};
    }
  }

  lemma ListsLess(l: seq<Stored>, all: map<nat, Vector>)
    requires Lists(l, all) && l != []
    ensures var s := l[|l| - 1]; s.0 in all && Lists(l[..|l| - 1], all - {s.0})
  {
    var n := |l| - 1;
    var s := l[n];
    assert l == l[..n] + [s];
    assert multiset(l) == multiset(l[..n]) + multiset{s};
    assert multiset(l)[s] == 1;
    forall x: Stored
      ensures multiset(l[..n])[x] == if x.0 in all - {s.0} && all[x.0] == x.1 then 1 else 0
    {
      assert multiset(l)[x] == multiset(l[..n])[x] + if x == s then 1 else 0;
    }
  }

  /** What is listed of a listing is stored, each vector once. */
  lemma ListedOnce(l: seq<Stored>, all: map<nat, Vector>, chosen: seq<Stored>)
    requires Lists(l, all) && multiset(chosen) <= multiset(l)
    ensures forall i :: 0 <= i < |chosen| ==> chosen[i].0 in all && all[chosen[i].0] == chosen[i].1
    ensures forall i, j :: 0 <= i < j < |chosen| ==> chosen[i].0 != chosen[j].0
  {
    forall i | 0 <= i < |chosen|
      ensures chosen[i].0 in all && all[chosen[i].0] == chosen[i].1
    {
      assert multiset(chosen)[chosen[i]] >= 1;
      assert multiset(l)[chosen[i]] >= 1;
    }
    forall i, j | 0 <= i < j < |chosen|
      ensures chosen[i].0 != chosen[j].0
    {
      assert multiset(l)[chosen[i]] <= 1;
      OnlyOnce(chosen, i, j);
    }
  }

  lemma OtherIsLeft(l: seq<Stored>, all: map<nat, Vector>, chosen: seq<Stored>, id: nat)
    requires Lists(l, all) && id in all && forall i :: 0 <= i < |chosen| ==> chosen[i].0 != id
    ensures (id, all[id]) in multiset(l) - multiset(chosen)
  {
    var y: Stored := (id, all[id]);
    assert multiset(l)[y] == 1;
    assert y !in chosen;
  }

  lemma AnyIsNotCloser(m: Metric, f: Measures, q: Vector, chosen: seq<Stored>, left: multiset<Stored>, x: Stored, y: Stored)
    requires NoneCloser(m, f, q, chosen, left) && x in chosen && y in left
    ensures !StrictlyCloser(m, f, q, y.1, x.1)
  {
  }

  /** Of a listing of a map, the closest are the closest of the map. */
  lemma ClosestAnswers(m: Metric, f: Measures, q: Vector, l: seq<Stored>, all: map<nat, Vector>, k: nat, chosen: seq<Stored>,
                       r: seq<Scored>)
    requires Lists(l, all) && ClosestOf(m, f, q, multiset(l), k, chosen) && Listed(m, f, q, chosen, r)
    ensures Answers(m, f, q, all, k, r)
  {
    hide StrictlyCloser;
    hide IsScore;
    hide Lists;
    hide NoneCloser;
    ListsSize(l, all);
    MultisetSizes(l);
    ListedOnce(l, all, chosen);
    forall id, i | id in all && 0 <= i < |r| && forall j :: 0 <= j < |r| ==> r[j].0 != id
      ensures !StrictlyCloser(m, f, q, all[id], all[r[i].0])
    {
      OtherIsLeft(l, all, chosen, id);
      AnyIsNotCloser(m, f, q, chosen, multiset(l) - multiset(chosen), chosen[i], (id, all[id]));
    }
  }

  lemma OnlyOnce<T>(l: seq<T>, i: nat, j: nat)
    requires i < j < |l| && multiset(l)[l[i]] <= 1
    ensures l[i] != l[j]
  {
    assert l == l[..i + 1] + l[i + 1..];
    assert l[i] == l[..i + 1][i] && l[j] == l[i + 1..][j - i - 1];
    assert l[i] in multiset(l[..i + 1]) && l[j] in multiset(l[i + 1..]);
  }

  lemma {:induction false} ConcatPush(clusters: seq<seq<Stored>>, i: nat, s: Stored)
    requires i < |clusters|
    ensures multiset(Concat(clusters[i := clusters[i] + [s]])) == multiset(Concat(clusters)) + multiset{s}
  {
    var n := |clusters| - 1;
    var pushed := clusters[i := clusters[i] + [s]];
    if i == n {
      assert pushed[..n] == clusters[..n];
    } else {
      ConcatPush(clusters[..n], i, s);
      assert pushed[..n] == clusters[..n][i := clusters[i] + [s]];
    }
  }

  /** The first of the first `n` centroids at the least distance below `far`, with that distance; place 0 if
      there is none. */
  function Nearest(m: Metric, f: Measures, far: real, cs: seq<Vector>, v: Vector, n: nat): (r: Scored)
    requires n <= |cs|
    ensures r.0 < n || r.0 == 0
  {
    if n == 0 then (0, far)
    else
      var r, d := Nearest(m, f, far, cs, v, n - 1), Distance(m, f, v, cs[n - 1]);
      if d < r.1 then (n - 1, d) else r
  }

  /** No centroid is closer than the nearest, and none before it is as close. */
  lemma {:induction false} NearestIsClosest(m: Metric, f: Measures, far: real, cs: seq<Vector>, v: Vector, n: nat, j: nat)
    requires j < n <= |cs| && Distance(m, f, v, cs[j]) < far
    ensures var r := Nearest(m, f, far, cs, v, n);
            && r.0 < n && r.1 == Distance(m, f, v, cs[r.0]) <= Distance(m, f, v, cs[j])
            && (j < r.0 ==> r.1 < Distance(m, f, v, cs[j]))
    decreases n
  {
    NearestBelow(m, f, far, cs, v, n - 1);
    if j < n - 1 {
      NearestIsClosest(m, f, far, cs, v, n - 1, j);
    }
  }

  lemma {:induction false} NearestBelow(m: Metric, f: Measures, far: real, cs: seq<Vector>, v: Vector, n: nat)
    requires n <= |cs|
    ensures var r := Nearest(m, f, far, cs, v, n);
            r.1 <= far && (r.1 < far ==> r.0 < n && r.1 == Distance(m, f, v, cs[r.0]))
  {
    if n > 0 {
      NearestBelow(m, f, far, cs, v, n - 1);
    }
  }

  /** Closer than the distance that the search starts from. */
  ghost predicate InReach(m: Metric, f: Measures, far: real, c: Vector, v: Vector)
  {
    match m
    case Cosine => 1.0 - f.cosine(v, c) < far
    case Euclidean => f.euclidean(v, c) < far
    case Manhattan => f.manhattan(v, c) < far
  }

  /** The cluster a vector belongs to: that of a centroid in reach with none strictly closer and all before it
      strictly farther, or the first cluster when no centroid is in reach. */
  ghost predicate BelongsAt(m: Metric, f: Measures, far: real, cs: seq<Vector>, v: Vector, at: nat)
  {
    if forall j :: 0 <= j < |cs| ==> !InReach(m, f, far, cs[j], v) then at == 0
    else
      && at < |cs| && InReach(m, f, far, cs[at], v)
      && (forall j :: 0 <= j < |cs| ==> !StrictlyCloser(m, f, v, cs[j], cs[at]))
      && forall j :: 0 <= j < at ==> StrictlyCloser(m, f, v, cs[at], cs[j])
  }

  lemma ReachIsDistance(m: Metric, f: Measures, far: real, c: Vector, v: Vector)
    ensures InReach(m, f, far, c, v) <==> Distance(m, f, v, c) < far
  {
  }

  /** The vector has joined the cluster it belongs to, and nothing else has changed. */
  ghost predicate Joined(m: Metric, f: Measures, far: real, cs: seq<Vector>, before: seq<seq<Stored>>, s: Stored,
                         after: seq<seq<Stored>>)
  {
    exists at: nat :: at < |before| && BelongsAt(m, f, far, cs, s.1, at) && after == before[at := before[at] + [s]]
  }

  /** The search finds that cluster, and there is only one. */
  lemma NearestBelongs(m: Metric, f: Measures, far: real, cs: seq<Vector>, v: Vector, at: nat)
    ensures BelongsAt(m, f, far, cs, v, at) <==> at == Nearest(m, f, far, cs, v, |cs|).0
  {
    hide StrictlyCloser;
    hide InReach;
    hide Distance;
    var r := Nearest(m, f, far, cs, v, |cs|);
    forall j | 0 <= j < |cs|
      ensures InReach(m, f, far, cs[j], v) <==> Distance(m, f, v, cs[j]) < far
    {
      ReachIsDistance(m, f, far, cs[j], v);
    }
    if k :| 0 <= k < |cs| && InReach(m, f, far, cs[k], v) {
      FoundBelongs(m, f, far, cs, v, k);
      if BelongsAt(m, f, far, cs, v, at) {
        ScoreIsCloseness(m, f, v, cs[at], cs[r.0]);
        ScoreIsCloseness(m, f, v, cs[r.0], cs[at]);
      }
    } else {
      NoneNear(m, f, far, cs, v, |cs|);
    }
  }

  lemma FoundBelongs(m: Metric, f: Measures, far: real, cs: seq<Vector>, v: Vector, k: nat)
    requires k < |cs| && InReach(m, f, far, cs[k], v)
    ensures BelongsAt(m, f, far, cs, v, Nearest(m, f, far, cs, v, |cs|).0)
  {
    hide StrictlyCloser;
    hide InReach;
    hide Distance;
    hide Nearest;
    var r := Nearest(m, f, far, cs, v, |cs|);
    ReachIsDistance(m, f, far, cs[k], v);
    NearestIsClosest(m, f, far, cs, v, |cs|, k);
    ReachIsDistance(m, f, far, cs[r.0], v);
    forall j | 0 <= j < |cs|
      ensures !StrictlyCloser(m, f, v, cs[j], cs[r.0]) && (j < r.0 ==> StrictlyCloser(m, f, v, cs[r.0], cs[j]))
    {
      ScoreIsCloseness(m, f, v, cs[j], cs[r.0]);
      ScoreIsCloseness(m, f, v, cs[r.0], cs[j]);
      if Distance(m, f, v, cs[j]) < far {
        NearestIsClosest(m, f, far, cs, v, |cs|, j);
      }
    }
  }

  lemma {:induction false} NoneNear(m: Metric, f: Measures, far: real, cs: seq<Vector>, v: Vector, n: nat)
    requires n <= |cs| && forall j :: 0 <= j < n ==> Distance(m, f, v, cs[j]) >= far
    ensures Nearest(m, f, far, cs, v, n) == (0, far)
  {
    if n > 0 {
      NoneNear(m, f, far, cs, v, n - 1);
    }
  }

  /** The clusters after each vector has joined that of its nearest centroid. */
  function Placed(m: Metric, f: Measures, far: real, cs: seq<Vector>, clusters: seq<seq<Stored>>, vs: seq<Stored>)
    : (r: seq<seq<Stored>>)
    requires |cs| <= |clusters| && clusters != []
    ensures |r| == |clusters|
  {
    if vs == [] then clusters
    else
      var before, s := Placed(m, f, far, cs, clusters, vs[..|vs| - 1]), vs[|vs| - 1];
      var i := Nearest(m, f, far, cs, s.1, |cs|).0;
      before[i := before[i] + [s]]
  }

  /** Wherever they go, together the clusters hold what they held and the vectors. */
  lemma {:induction false} PlacedHold(m: Metric, f: Measures, far: real, cs: seq<Vector>, clusters: seq<seq<Stored>>, vs: seq<Stored>)
    requires |cs| <= |clusters| && clusters != []
    ensures multiset(Concat(Placed(m, f, far, cs, clusters, vs))) == multiset(Concat(clusters)) + multiset(vs)
    decreases |vs|
  {
    hide Concat;
    hide Nearest;
    if vs != [] {
      var front, s := vs[..|vs| - 1], vs[|vs| - 1];
      PlacedHold(m, f, far, cs, clusters, front);
      ConcatPush(Placed(m, f, far, cs, clusters, front), Nearest(m, f, far, cs, s.1, |cs|).0, s);
      assert vs == front + [s];
    }
  }

  /** Where they go: a cluster gains exactly the vectors whose nearest centroid is its own, each as often as it
      is listed. */
  lemma {:induction false} PlacedCount(m: Metric, f: Measures, far: real, cs: seq<Vector>, clusters: seq<seq<Stored>>, vs: seq<Stored>,
                                       i: nat, x: Stored)
    requires |cs| <= |clusters| && clusters != [] && i < |clusters|
    ensures multiset(Placed(m, f, far, cs, clusters, vs)[i])[x] ==
            multiset(clusters[i])[x] + if Nearest(m, f, far, cs, x.1, |cs|).0 == i then multiset(vs)[x] else 0
    decreases |vs|
  {
    hide Nearest;
    if vs != [] {
      var front, s := vs[..|vs| - 1], vs[|vs| - 1];
      PlacedCount(m, f, far, cs, clusters, front, i, x);
      assert vs == front + [s];
    }
  }

  /** The clusters hold what they held and the vectors whose nearest centroid is theirs. */
  ghost predicate ByNearest(m: Metric, f: Measures, far: real, cs: seq<Vector>, before: seq<seq<Stored>>, vs: multiset<Stored>,
                            after: seq<seq<Stored>>)
  {
    && |after| == |before|
    && forall i, x: Stored :: 0 <= i < |after| ==>
         multiset(after[i])[x] == multiset(before[i])[x] + if BelongsAt(m, f, far, cs, x.1, i) then vs[x] else 0
  }

  lemma PlacedByNearest(m: Metric, f: Measures, far: real, cs: seq<Vector>, clusters: seq<seq<Stored>>, vs: seq<Stored>)
    requires |cs| <= |clusters| && clusters != []
    ensures ByNearest(m, f, far, cs, clusters, multiset(vs), Placed(m, f, far, cs, clusters, vs))
  {
    hide Nearest;
    hide Placed;
    hide BelongsAt;
    forall i, x: Stored | 0 <= i < |clusters|
      ensures multiset(Placed(m, f, far, cs, clusters, vs)[i])[x] ==
              multiset(clusters[i])[x] + if BelongsAt(m, f, far, cs, x.1, i) then multiset(vs)[x] else 0
    {
      PlacedCount(m, f, far, cs, clusters, vs, i, x);
      NearestBelongs(m, f, far, cs, x.1, i);
    }
  }

  /** In clusters built from nothing a stored vector is in exactly the cluster of its nearest centroid. */
  lemma BuiltByNearest(m: Metric, f: Measures, far: real, cs: seq<Vector>, n: nat, vs: seq<Stored>, all: map<nat, Vector>,
                       id: nat, v: Vector, i: nat)
    requires |cs| <= n && i < n && Lists(vs, all)
    ensures (id, v) in Placed(m, f, far, cs, NoVectors(n), vs)[i] <==>
              id in all && all[id] == v && BelongsAt(m, f, far, cs, v, i)
  {
    hide Nearest;
    hide Placed;
    hide BelongsAt;
    NearestBelongs(m, f, far, cs, v, i);
    var x: Stored := (id, v);
    PlacedCount(m, f, far, cs, NoVectors(n), vs, i, x);
    assert x in Placed(m, f, far, cs, NoVectors(n), vs)[i] <==> multiset(Placed(m, f, far, cs, NoVectors(n), vs)[i])[x] > 0;
    assert multiset(NoVectors(n)[i])[x] == 0;
  }

  /** Every stored vector is in the cluster of its nearest centroid and in no other. */
  ghost predicate InNearest(m: Metric, f: Measures, far: real, cs: seq<Vector>, clusters: seq<seq<Stored>>, all: map<nat, Vector>)
  {
    forall i, id: nat, v: Vector :: 0 <= i < |clusters| ==>
      ((id, v) in clusters[i] <==> id in all && all[id] == v && BelongsAt(m, f, far, cs, v, i))
  }

  lemma AllInNearest(m: Metric, f: Measures, far: real, cs: seq<Vector>, n: nat, vs: seq<Stored>, all: map<nat, Vector>)
    requires |cs| <= n && n > 0 && Lists(vs, all)
    ensures InNearest(m, f, far, cs, Placed(m, f, far, cs, NoVectors(n), vs), all)
  {
    hide BelongsAt;
    hide Placed;
    hide Lists;
    forall i, id: nat, v: Vector | 0 <= i < n
      ensures (id, v) in Placed(m, f, far, cs, NoVectors(n), vs)[i] <==>
                id in all && all[id] == v && BelongsAt(m, f, far, cs, v, i)
    {
      BuiltByNearest(m, f, far, cs, n, vs, all, id, v, i);
    }
  }

  lemma PlacedNone(m: Metric, f: Measures, far: real, cs: seq<Vector>, clusters: seq<seq<Stored>>, vs: seq<Stored>)
    requires |cs| <= |clusters| && clusters != []
    ensures Placed(m, f, far, cs, clusters, vs[..0]) == clusters
  {
  }

  lemma PlacedOne(m: Metric, f: Measures, far: real, cs: seq<Vector>, clusters: seq<seq<Stored>>, vs: seq<Stored>, i: nat)
    requires |cs| <= |clusters| && clusters != [] && i < |vs|
    ensures var before, at := Placed(m, f, far, cs, clusters, vs[..i]), Nearest(m, f, far, cs, vs[i].1, |cs|).0;
            Placed(m, f, far, cs, clusters, vs[..i + 1]) == before[at := before[at] + [vs[i]]]
  {
    assert vs[..i + 1][..i] == vs[..i];
  }

  function NoVectors(n: nat): (clusters: seq<seq<Stored>>)
    ensures |clusters| == n
  {
    seq(n, i => [])
  }

  /** The centroids moved to the means of their clusters; an empty cluster leaves its own where it is. */
  ghost predicate AtMeans(mean: seq<Stored> -> Vector, before: seq<Vector>, clusters: seq<seq<Stored>>, after: seq<Vector>)
  {
    && |before| == |clusters| == |after|
    && forall i :: 0 <= i < |clusters| ==> after[i] == if clusters[i] == [] then before[i] else mean(clusters[i])
  }

  /** Round after round, every vector is in the cluster of its nearest centroid, and the centroids move to the means. */
  ghost predicate Moved(m: Metric, f: Measures, far: real, mean: seq<Stored> -> Vector, all: map<nat, Vector>,
                        trail: seq<seq<Vector>>, stages: seq<seq<seq<Stored>>>)
  {
    && |trail| == |stages| + 1
    && forall i :: 0 <= i < |stages| ==>
         InNearest(m, f, far, trail[i], stages[i], all) && AtMeans(mean, trail[i], stages[i], trail[i + 1])
  }

  lemma NothingMoved(m: Metric, f: Measures, far: real, mean: seq<Stored> -> Vector, all: map<nat, Vector>, cs: seq<Vector>)
    ensures Moved(m, f, far, mean, all, [cs], [])
  {
  }

  lemma MovedOnce(m: Metric, f: Measures, far: real, mean: seq<Stored> -> Vector, all: map<nat, Vector>,
                  trail: seq<seq<Vector>>, stages: seq<seq<seq<Stored>>>, clusters: seq<seq<Stored>>, cs: seq<Vector>)
    requires Moved(m, f, far, mean, all, trail, stages)
    requires InNearest(m, f, far, trail[|stages|], clusters, all) && AtMeans(mean, trail[|stages|], clusters, cs)
    ensures Moved(m, f, far, mean, all, trail + [cs], stages + [clusters])
  {
    hide InNearest;
    hide AtMeans;
  }

  /** All places, the closest centroid first. */
  ghost predicate ByDistance(m: Metric, f: Measures, cs: seq<Vector>, q: Vector, places: seq<nat>)
  {
    && multiset(places) == multiset(UpTo(|cs|)) && |places| == |cs|
    && (forall i :: 0 <= i < |places| ==> places[i] < |cs|)
    && forall i, j :: 0 <= i < j < |places| ==> !StrictlyCloser(m, f, q, cs[places[j]], cs[places[i]])
  }

  function Without(l: seq<Stored>, id: nat): seq<Stored>
  {
    if l == [] then [] else Without(l[..|l| - 1], id) + if l[|l| - 1].0 == id then [] else [l[|l| - 1]]
  }

  lemma {:induction false} WithoutHas(l: seq<Stored>, id: nat, s: Stored)
    ensures multiset(Without(l, id))[s] == if s.0 == id then 0 else multiset(l)[s]
  {
    if l != [] {
      WithoutHas(l[..|l| - 1], id, s);
      assert l == l[..|l| - 1] + [l[|l| - 1]];
    }
  }

  lemma {:induction false} ConcatWithout(a: seq<seq<Stored>>, b: seq<seq<Stored>>, id: nat, s: Stored)
    requires |a| == |b| && forall i :: 0 <= i < |a| ==> b[i] == Without(a[i], id)
    ensures multiset(Concat(b))[s] == if s.0 == id then 0 else multiset(Concat(a))[s]
  {
    hide Without;
    if a != [] {
      var n := |a| - 1;
      ConcatWithout(a[..n], b[..n], id, s);
      WithoutHas(a[n], id, s);
    }
  }

  lemma {:induction false} ConcatEmpty(clusters: seq<seq<Stored>>)
    requires forall i :: 0 <= i < |clusters| ==> clusters[i] == []
    ensures Concat(clusters) == []
  {
    if clusters != [] {
      ConcatEmpty(clusters[..|clusters| - 1]);
    }
  }

  /** The best `k` of each probed cluster, merged and cut to `k`. */
  method MergeBest(m: Metric, f: Measures, q: Vector, clusters: seq<seq<Stored>>, places: seq<nat>, k: nat)
    returns (best: seq<Scored>)
    requires forall i :: 0 <= i < |places| ==> places[i] < |clusters|
    ensures IsTopK(best, multiset(ScoredOf(m, f, q, Gathered(clusters, places))), k)
  {
    hide IsTopK;
    hide Enough;
    hide ScoredOf;
    hide Cut;
    var found: seq<Scored> := [];
    ghost var held: seq<Scored> := [];
    EnoughOfNothing(k);
    assert places[..0] == [];
    ScoredNothing(m, f, q);
    for i := 0 to |places|
      invariant held == ScoredOf(m, f, q, Gathered(clusters, places[..i])) && Enough(multiset(found), multiset(held), k)
    {
      var l := ScoredOf(m, f, q, clusters[places[i]]);
      CutIsEnough(l, k);
      assert places[..i + 1][..i] == places[..i];
      JoinIsEnough(multiset(found), multiset(held), multiset(Cut(l, k)), multiset(l), k);
      ScoredAppend(m, f, q, Gathered(clusters, places[..i]), clusters[places[i]]);
      found := found + Cut(l, k);
      held := held + l;
    }
    assert places[..|places|] == places;
    best := Cut(found, k);
    CutIsTopK(found, k);
    TopOfEnough(best, multiset(found), multiset(held), k);
  }

  lemma ScoredNothing(m: Metric, f: Measures, q: Vector)
    ensures ScoredOf(m, f, q, []) == []
  {
  }

  lemma EnoughOfNothing(k: nat)
    ensures Enough(multiset{}, multiset{}, k)
  {
  }

  class IvfIndex {
    const nlist: nat
    const nprobe: nat
    const dimension: nat
    const metric: Metric
    const measures: Measures
    /** The distance that the search for the closest centroid starts from. */
    const far: real
    var centroids: seq<Vector>
    var clusters: seq<seq<Stored>>
    var all: map<nat, Vector>

    ghost predicate Valid()
      reads this
    {
      nlist > 0 && |clusters| == nlist && (centroids == [] ==> all == map[]) && (centroids != [] ==> |centroids| == nlist)
    }

    /** The clusters partition the stored vectors. */
    ghost predicate Partition()
      reads this
    {
      Lists(Concat(clusters), all)
    }

    constructor (nlist: nat, nprobe: nat, dimension: nat, metric: Metric, measures: Measures, far: real)
      requires nlist > 0
      ensures Valid() && Partition() && all == map[]
      ensures this.nlist == nlist && this.nprobe == nprobe && this.dimension == dimension && this.metric == metric
      ensures this.measures == measures
    {
      this.nlist := nlist;
      this.nprobe := nprobe;
      this.dimension := dimension;
      this.metric := metric;
      this.measures := measures;
      this.far := far;
      centroids := [];
      clusters := seq(nlist, i => []);
      all := map[];
      new;
      ConcatEmpty(clusters);
    }

    /** The first centroid at the least distance. */
    method Closest(v: Vector) returns (closest: nat)
      requires Valid()
      ensures closest == Nearest(metric, measures, far, centroids, v, |centroids|).0 < nlist
      ensures BelongsAt(metric, measures, far, centroids, v, closest)
    {
      hide BelongsAt;
      hide Distance;
      var least := far;
      closest := 0;
      for i := 0 to |centroids|
        invariant (closest, least) == Nearest(metric, measures, far, centroids, v, i)
      {
        var d := Distance(metric, measures, v, centroids[i]);
        if d < least {
          least, closest := d, i;
        }
      }
      NearestBelongs(metric, measures, far, centroids, v, closest);
    }

    /** Stores a vector in the closest cluster. Adding an id a second time leaves its old vector in the
        clusters: the partition is kept exactly when the id is new. */
    method Add(id: nat, v: Vector, seeds: seq<Vector>) returns (ok: bool)
      requires Valid() && |seeds| == nlist
      modifies this
      ensures Valid() && (ok <==> |v| == dimension)
      ensures all == if ok then old(all)[id := v] else old(all)
      ensures centroids == if ok && old(centroids) == [] then seeds else old(centroids)
      ensures !ok ==> clusters == old(clusters)
      ensures ok ==> Joined(metric, measures, far, centroids, old(clusters), (id, v), clusters)
      ensures old(Partition()) ==> (Partition() <==> !ok || id !in old(all))
    {
      if |v| != dimension {
        return false;
      }
      hide Nearest;
      hide BelongsAt;
      hide Concat;
      hide Lists;
      ghost var before, stored := clusters, all;
      all := all[id := v];
      if centroids == [] {
        centroids := seeds;
      }
      var closest := Closest(v);
      ConcatPush(clusters, closest, (id, v));
      clusters := clusters[closest := clusters[closest] + [(id, v)]];
      ok := true;
      assert Joined(metric, measures, far, centroids, before, (id, v), clusters);
      if Lists(Concat(before), stored) {
        AddedIff(Concat(before), Concat(clusters), stored, id, v);
      }
    }

    /** Drops the vector from the map and from every cluster, in however many it is. */
    method Remove(id: nat)
      requires Valid()
      modifies this
      ensures Valid() && all == old(all) - {id}
      ensures old(Partition()) ==> Partition()
      ensures |clusters| == |old(clusters)|
      ensures forall i, s: Stored :: 0 <= i < |clusters| ==>
                multiset(clusters[i])[s] == if s.0 == id then 0 else multiset(old(clusters)[i])[s]
    {
      hide Without;
      hide Concat;
      ghost var before := clusters;
      var kept := [];
      for i := 0 to |clusters|
        invariant |kept| == i && clusters == before
        invariant forall j :: 0 <= j < i ==> kept[j] == Without(clusters[j], id)
      {
        kept := kept + [Without(clusters[i], id)];
      }
      forall s: Stored
        ensures multiset(Concat(kept))[s] == if s.0 == id then 0 else multiset(Concat(before))[s]
      {
        ConcatWithout(before, kept, id, s);
      }
      forall i, s: Stored | 0 <= i < |kept|
        ensures multiset(kept[i])[s] == if s.0 == id then 0 else multiset(before[i])[s]
      {
        WithoutHas(before[i], id, s);
      }
      all := all - {id};
      clusters := kept;
    }

    /** One pass over the vectors: each goes to its closest cluster. */
    method AssignToClusters(vectors: seq<Stored>)
      requires Valid()
      modifies this`clusters
      ensures Valid() && clusters == Placed(metric, measures, far, centroids, old(clusters), vectors)
      ensures ByNearest(metric, measures, far, centroids, old(clusters), multiset(vectors), clusters)
    {
      hide Nearest;
      hide Placed;
      hide ByNearest;
      ghost var before := clusters;
      PlacedNone(metric, measures, far, centroids, before, vectors);
      for i := 0 to |vectors|
        invariant Valid() && clusters == Placed(metric, measures, far, centroids, before, vectors[..i])
      {
        var closest := Closest(vectors[i].1);
        PlacedOne(metric, measures, far, centroids, before, vectors, i);
        clusters := clusters[closest := clusters[closest] + [vectors[i]]];
      }
      assert vectors[..|vectors|] == vectors;
      PlacedByNearest(metric, measures, far, centroids, before, vectors);
    }

    /** The mean of a non-empty cluster becomes its centroid. */
    method UpdateCentroids(mean: seq<Stored> -> Vector)
      requires Valid() && centroids != []
      modifies this`centroids
      ensures Valid() && AtMeans(mean, old(centroids), clusters, centroids)
    {
      ghost var before := centroids;
      for i := 0 to |clusters|
        invariant Valid() && |centroids| == |clusters| == |before|
        invariant forall j :: 0 <= j < i ==> centroids[j] == if clusters[j] == [] then before[j] else mean(clusters[j])
        invariant forall j :: i <= j < |centroids| ==> centroids[j] == before[j]
      {
        if clusters[i] != [] {
          centroids := centroids[i := mean(clusters[i])];
        }
      }
    }

    /** One round: the clusters are filled anew, and the centroids move to the means. */
    method MoveAll(vectors: seq<Stored>, mean: seq<Stored> -> Vector)
      requires Valid() && centroids != [] && Lists(vectors, all)
      modifies this`centroids, this`clusters
      ensures Valid() && centroids != [] && Lists(Concat(clusters), all)
      ensures InNearest(metric, measures, far, old(centroids), clusters, all) && AtMeans(mean, old(centroids), clusters, centroids)
    {
      hide Placed;
      hide InNearest;
      hide ByNearest;
      hide AtMeans;
      hide Lists;
      hide Concat;
      ghost var cs := centroids;
      clusters := NoVectors(nlist);
      AssignToClusters(vectors);
      UpdateCentroids(mean);
      PlacedHold(metric, measures, far, cs, NoVectors(nlist), vectors);
      ConcatEmpty(NoVectors(nlist));
      SameLists(vectors, Concat(clusters), all);
      AllInNearest(metric, measures, far, cs, nlist, vectors, all);
    }

    /**
     * Seeds the centroids anew and, twenty times, moves every vector to its closest cluster and the
     * centroids to the means. `trail` is where the centroids stood, `stages` what the clusters held.
     */
    method Build(seeds: seq<Vector>, mean: seq<Stored> -> Vector)
      returns (ghost trail: seq<seq<Vector>>, ghost stages: seq<seq<seq<Stored>>>)
      requires Valid() && |seeds| == nlist
      modifies this`centroids, this`clusters
      ensures Valid() && (old(Partition()) || all != map[] ==> Partition())
      ensures all == map[] ==> centroids == old(centroids) && clusters == old(clusters)
      ensures all != map[] ==>
                && |trail| == 21 && |stages| == 20 && trail[0] == seeds && trail[20] == centroids && stages[19] == clusters
                && Moved(metric, measures, far, mean, all, trail, stages)
    {
      trail, stages := [], [];
      if all == map[] {
        return;
      }
      hide Moved;
      hide InNearest;
      hide AtMeans;
      hide Lists;
      hide Concat;
      var vectors := Entries(all);
      centroids := seeds;
      trail := [seeds];
      NothingMoved(metric, measures, far, mean, all, seeds);
      for n := 0 to 20
        invariant Valid() && centroids != [] && all == old(all)
        invariant |trail| == n + 1 && |stages| == n && trail[0] == seeds && trail[n] == centroids
        invariant n > 0 ==> stages[n - 1] == clusters && Lists(Concat(clusters), all)
        invariant Moved(metric, measures, far, mean, all, trail, stages)
      {
        MoveAll(vectors, mean);
        MovedOnce(metric, measures, far, mean, all, trail, stages, clusters, centroids);
        trail, stages := trail + [centroids], stages + [clusters];
      }
    }

    /**
     * The best of the clusters whose centroids are closest, best first: what is returned lies in
     * them, and nothing else that lies in them is closer to the query. With all of them probed and
     * the clusters a partition, that is so of all stored vectors.
     */
    method Search(query: Vector, k: nat) returns (r: Option<seq<Scored>>, ghost places: seq<nat>, ghost chosen: seq<Stored>)
      requires Valid()
      ensures r.None? <==> |query| != dimension
      ensures r.Some? ==> ByDistance(metric, measures, centroids, query, places)
      ensures r.Some? ==> Listed(metric, measures, query, chosen, r.value)
      ensures r.Some? ==> FromFirst(clusters, places, nprobe, chosen)
      ensures r.Some? ==> NoneCloserInFirst(metric, measures, query, clusters, places, nprobe, chosen)
      ensures r.Some? ==>
                ClosestOf(metric, measures, query, multiset(Gathered(clusters, places[..Least(nprobe, |places|)])), k, chosen)
      ensures r.Some? && nprobe >= nlist && Partition() ==> Answers(metric, measures, query, all, k, r.value)
      ensures r.Some? && nprobe >= nlist && centroids != [] ==>
                IsTopK(r.value, multiset(ScoredOf(metric, measures, query, Concat(clusters))), k)
      ensures r.Some? && centroids == [] ==> r.value == [] && all == map[]
    {
      hide IsTopK;
      hide ScoredOf;
      hide Gathered;
      hide StrictlyCloser;
      hide Listed;
      hide Lists;
      hide ClosestOf;
      hide FromFirst;
      hide NoneCloserInFirst;
      hide Answers;
      places, chosen := [], [];
      if |query| != dimension {
        return None, [], [];
      }
      var order := OrderOfCentroids(query);
      var probed := order[..Least(nprobe, |centroids|)];
      var best := MergeBest(metric, measures, query, clusters, probed, k);
      places := order;
      chosen := TopIsClosest(metric, measures, query, Gathered(clusters, probed), k, best);
      ChosenAreProbed(metric, measures, query, clusters, order, nprobe, k, chosen);
      if nprobe >= nlist && centroids != [] {
        assert probed == order;
        AllProbed(metric, measures, query, clusters, order, k, chosen, best);
        if Lists(Concat(clusters), all) {
          ClosestAnswers(metric, measures, query, Concat(clusters), all, k, chosen, best);
        }
      }
      if centroids == [] {
        GatheredNothing(clusters, probed);
        NothingAnswers(metric, measures, query, k, chosen, best);
      }
      r := Some(best);
    }

    /** The places of the clusters, closest centroid first. */
    method OrderOfCentroids(query: Vector) returns (places: seq<nat>)
      requires Valid()
      ensures ByDistance(metric, measures, centroids, query, places)
    {
      hide Distance;
      var distances: seq<Scored> := [];
      for i := 0 to |centroids|
        invariant |distances| == i
        invariant forall j :: 0 <= j < i ==> distances[j] == (j, Distance(metric, measures, query, centroids[j]))
      {
        distances := distances + [(i, Distance(metric, measures, query, centroids[i]))];
      }
      places := Each(PlaceOf(), Sort(Closer(), distances));
      OrderedByDistance(metric, measures, centroids, query, distances);
    }
  }

  lemma GatheredNothing(clusters: seq<seq<Stored>>, places: seq<nat>)
    requires places == []
    ensures Gathered(clusters, places) == []
  {
  }

  lemma NothingAnswers(m: Metric, f: Measures, q: Vector, k: nat, chosen: seq<Stored>, r: seq<Scored>)
    requires ClosestOf(m, f, q, multiset([]), k, chosen) && Listed(m, f, q, chosen, r)
    ensures r == [] && Answers(m, f, q, map[], k, r)
  {
  }

  /** What is listed lies in a probed cluster, and what else lies in one is no closer. */
  lemma ChosenAreProbed(m: Metric, f: Measures, q: Vector, clusters: seq<seq<Stored>>, places: seq<nat>, n: nat, k: nat,
                        chosen: seq<Stored>)
    requires forall i :: 0 <= i < |places| ==> places[i] < |clusters|
    requires ClosestOf(m, f, q, multiset(Gathered(clusters, places[..Least(n, |places|)])), k, chosen)
    ensures FromFirst(clusters, places, n, chosen) && NoneCloserInFirst(m, f, q, clusters, places, n, chosen)
  {
    hide Gathered;
    hide StrictlyCloser;
    hide NoneCloser;
    var probed := places[..Least(n, |places|)];
    var held := Gathered(clusters, probed);
    forall x | x in chosen
      ensures exists i :: 0 <= i < |places| && i < n && x in clusters[places[i]]
    {
      assert multiset(chosen)[x] >= 1;
      assert x in multiset(held);
      var i := HeldBySome(clusters, probed, x);
      assert x in clusters[places[i]];
    }
    forall i, x, y | 0 <= i < |places| && i < n && x in chosen && y in clusters[places[i]]
      ensures y in chosen || !StrictlyCloser(m, f, q, y.1, x.1)
    {
      assert places[i] == probed[i];
      HeldIsGathered(clusters, probed, y, i);
      if y !in chosen {
        AnyIsNotCloser(m, f, q, chosen, multiset(held) - multiset(chosen), x, y);
      }
    }
  }

  /** With every cluster probed the listed are closest of all that the clusters hold. */
  lemma AllProbed(m: Metric, f: Measures, q: Vector, clusters: seq<seq<Stored>>, places: seq<nat>, k: nat, chosen: seq<Stored>,
                  r: seq<Scored>)
    requires (forall i :: 0 <= i < |places| ==> places[i] < |clusters|) && multiset(places) == multiset(UpTo(|clusters|))
    requires ClosestOf(m, f, q, multiset(Gathered(clusters, places)), k, chosen)
    requires IsTopK(r, multiset(ScoredOf(m, f, q, Gathered(clusters, places))), k)
    ensures ClosestOf(m, f, q, multiset(Concat(clusters)), k, chosen)
    ensures IsTopK(r, multiset(ScoredOf(m, f, q, Concat(clusters))), k)
  {
    hide Gathered;
    hide Concat;
    hide ClosestOf;
    hide IsTopK;
    hide ScoredOf;
    GatheredPermutes(clusters, places, UpTo(|clusters|));
    GatheredAll(clusters, |clusters|);
    assert clusters[..|clusters|] == clusters;
    ScoredPermutes(m, f, q, Gathered(clusters, places), Concat(clusters));
  }

  /** Sorting the places with their distances orders them by distance. */
  lemma OrderedByDistance(m: Metric, f: Measures, cs: seq<Vector>, q: Vector, distances: seq<Scored>)
    requires |distances| == |cs| && forall j :: 0 <= j < |cs| ==> distances[j] == (j, Distance(m, f, q, cs[j]))
    ensures ByDistance(m, f, cs, q, Each(PlaceOf(), Sort(Closer(), distances)))
  {
    hide Sort;
    hide Distance;
    hide StrictlyCloser;
    hide Each;
    var sorted := Sort(Closer(), distances);
    var places := Each(PlaceOf(), sorted);
    CloserOrders();
    SortSorts(Closer(), distances);
    SortPermutes(Closer(), distances);
    EachPermutes(PlaceOf(), sorted, distances);
    PlacesInOrder(distances);
    forall i | 0 <= i < |sorted|
      ensures places[i] < |cs| && sorted[i].1 == Distance(m, f, q, cs[places[i]])
    {
      FoundAtPlace(sorted[i], distances);
    }
    forall i, j | 0 <= i < j < |places|
      ensures !StrictlyCloser(m, f, q, cs[places[j]], cs[places[i]])
    {
      ScoreIsCloseness(m, f, q, cs[places[j]], cs[places[i]]);
      assert Closer()(sorted[i], sorted[j]);
    }
  }

  lemma PlacesInOrder(distances: seq<Scored>)
    requires forall j :: 0 <= j < |distances| ==> distances[j].0 == j
    ensures Each(PlaceOf(), distances) == UpTo(|distances|)
  {
  }

  lemma FoundAtPlace(s: Scored, distances: seq<Scored>)
    requires s in distances && forall j :: 0 <= j < |distances| ==> distances[j].0 == j
    ensures s.0 < |distances| && distances[s.0] == s
  {
  }

  lemma CloserOrders()
    ensures TotalPreorder(Closer())
  {
  }

  lemma SameLists(a: seq<Stored>, b: seq<Stored>, all: map<nat, Vector>)
    requires Lists(a, all) && multiset(b) == multiset(a)
    ensures Lists(b, all)
  {
  }

  function Closer(): Order<Scored>
  {
    (a: Scored, b: Scored) => a.1 <= b.1
  }

  function PlaceOf(): Scored -> nat
  {
    (s: Scored) => s.0
  }

  /** The stored vectors as a list, in any order. */
  method Entries(all: map<nat, Vector>) returns (l: seq<Stored>)
    ensures Lists(l, all)
  {
    l := [];
    var ids := all.Keys;
    while ids != {}
      invariant ids <= all.Keys
      invariant forall s: Stored :: multiset(l)[s] == if s.0 in all && s.0 !in ids && all[s.0] == s.1 then 1 else 0
      decreases |ids|
    {
      var id :| id in ids;
      ids := ids - {id};
      l := l + [(id, all[id])];
    }
  }

  /** The simple index: a map of vectors, all of them scored on every search. */
  class BruteForceIndex {
    const dimension: nat
    const metric: Metric
    const measures: Measures
    var vectors: map<nat, Vector>

    constructor (dimension: nat, metric: Metric, measures: Measures)
      ensures vectors == map[] && this.dimension == dimension && this.metric == metric && this.measures == measures
    {
      this.dimension := dimension;
      this.metric := metric;
      this.measures := measures;
      vectors := map[];
    }

    method Add(id: nat, v: Vector) returns (ok: bool)
      modifies this
      ensures (ok <==> |v| == dimension) && vectors == if ok then old(vectors)[id := v] else old(vectors)
    {
      ok := |v| == dimension;
      if ok {
        vectors := vectors[id := v];
      }
    }

    method Remove(id: nat)
      modifies this
      ensures vectors == old(vectors) - {id}
    {
      vectors := vectors - {id};
    }

    method Search(query: Vector, k: nat) returns (r: seq<Scored>)
      ensures Answers(metric, measures, query, vectors, k, r)
      ensures exists l :: Lists(l, vectors) && IsTopK(r, multiset(ScoredOf(metric, measures, query, l)), k)
    {
      hide IsTopK;
      hide Answers;
      hide Listed;
      hide ClosestOf;
      var l := Entries(vectors);
      var scored: seq<Scored> := [];
      for i := 0 to |l|
        invariant |scored| == i && forall j :: 0 <= j < i ==> scored[j] == (l[j].0, Score(metric, measures, query, l[j].1))
      {
        scored := scored + [(l[i].0, BruteScore(metric, measures, query, l[i].1))];
      }
      assert scored == ScoredOf(metric, measures, query, l);
      r := Cut(scored, k);
      CutIsTopK(scored, k);
      ghost var chosen := TopIsClosest(metric, measures, query, l, k, r);
      ClosestAnswers(metric, measures, query, l, vectors, k, chosen, r);
    }
  }

  /**
   * With every cluster probed the inverted file answers as brute force does: over the same
   * stored vectors both give a top `k`, so the same scores place by place; only vectors with
   * equal scores may be told apart by order.
   */
  lemma FullProbingIsBruteForce(m: Metric, f: Measures, q: Vector, k: nat, all: map<nat, Vector>, a: seq<Stored>, b: seq<Stored>,
                                ivf: seq<Scored>, brute: seq<Scored>)
    requires Lists(a, all) && IsTopK(ivf, multiset(ScoredOf(m, f, q, a)), k)
    requires Lists(b, all) && IsTopK(brute, multiset(ScoredOf(m, f, q, b)), k)
    ensures |ivf| == |brute| && forall i :: 0 <= i < |ivf| ==> ivf[i].1 == brute[i].1
  {
    hide IsTopK;
    hide ScoredOf;
    assert multiset(a) == multiset(b) by {
      forall s: Stored
        ensures multiset(a)[s] == multiset(b)[s]
      {
      }
    }
    ScoredPermutes(m, f, q, a, b);
    SameScores(ivf, brute, multiset(ScoredOf(m, f, q, a)), k);
  }

  /** One more entry keeps a listing a listing exactly when its id is new. */
  lemma AddedIff(before: seq<Stored>, after: seq<Stored>, all: map<nat, Vector>, id: nat, v: Vector)
    requires Lists(before, all) && multiset(after) == multiset(before) + multiset{(id, v)}
    ensures Lists(after, all[id := v]) <==> id !in all
  {
    if id in all {
      assert multiset(before)[(id, all[id])] == 1;
      assert multiset(after)[(id, all[id])] >= 1;
      assert all[id] == v ==> multiset(after)[(id, v)] == 2;
    }
  }
}
