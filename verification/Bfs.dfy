/**
 * Bounded breadth-first search, in its two forms: one records a node when it leaves the
 * queue, the other when it enters.
 */
module Bfs {
  import opened Options

  /** The neighbours of a node, in the order the store lists them. */
  type Graph = nat -> seq<nat>

  datatype Visit = Visit(id: nat, depth: nat)

  // -------------------------------------------------------------------------
  // Distance
  // -------------------------------------------------------------------------

  /** A path of the graph from `start` to `x`. */
  ghost predicate IsPath(g: Graph, p: seq<nat>, start: nat, x: nat)
  {
    p != [] && p[0] == start && p[|p| - 1] == x && forall i :: 0 <= i < |p| - 1 ==> p[i + 1] in g(p[i])
  }

  /** Some path of at most `d` edges leads to `x`. */
  ghost predicate Near(g: Graph, start: nat, d: nat, x: nat)
  {
    exists p :: IsPath(g, p, start, x) && |p| <= d + 1
  }

  /** The shortest path to `x` has exactly `d` edges. */
  ghost predicate At(g: Graph, start: nat, d: nat, x: nat)
  {
    Near(g, start, d, x) && (d > 0 ==> !Near(g, start, d - 1, x))
  }

  lemma NearStart(g: Graph, start: nat, d: nat)
    ensures Near(g, start, d, start)
    ensures Near(g, start, 0, start)
  {
    assert IsPath(g, [start], start, start);
  }

  lemma NearStep(g: Graph, start: nat, d: nat, x: nat, y: nat)
    requires Near(g, start, d, x) && y in g(x)
    ensures Near(g, start, d + 1, y)
  {
    var p :| IsPath(g, p, start, x) && |p| <= d + 1;
    assert IsPath(g, p + [y], start, y);
  }

  /** A node within `d` edges is the start or the neighbour of one within `d - 1`. */
  lemma NearBefore(g: Graph, start: nat, d: nat, x: nat) returns (y: nat)
    requires Near(g, start, d, x) && x != start
    ensures d > 0 && Near(g, start, d - 1, y) && x in g(y)
  {
    var p :| IsPath(g, p, start, x) && |p| <= d + 1;
    var q := p[..|p| - 1];
    y := q[|q| - 1];
    assert IsPath(g, q, start, y);
    assert p[|p| - 2 + 1] in g(p[|p| - 2]);
  }

  /** A node has at most one depth. */
  lemma OneDepth(g: Graph, start: nat, d: nat, e: nat, x: nat)
    requires At(g, start, d, x) && Near(g, start, e, x)
    ensures d <= e
  {
  }

  // -------------------------------------------------------------------------
  // The order of discovery
  // -------------------------------------------------------------------------

  function Seen(order: seq<Visit>): set<nat>
  {
    set v | v in order :: v.id
  }

  /** Discovers the neighbours not seen before, in order, at depth `d`. */
  function Discover(order: seq<Visit>, ns: seq<nat>, d: nat): (r: seq<Visit>)
    ensures order <= r
    decreases |ns|
  {
    if ns == [] then order
    else if ns[0] in Seen(order) then Discover(order, ns[1..], d)
    else Discover(order + [Visit(ns[0], d)], ns[1..], d)
  }

  /** Nothing is discovered twice, and only nodes of the graph's finite universe are. */
  ghost predicate Distinct(order: seq<Visit>, universe: set<nat>)
  {
    (forall i, j :: 0 <= i < j < |order| ==> order[i].id != order[j].id) && forall i :: 0 <= i < |order| ==> order[i].id in universe
  }

  ghost predicate Closed(g: Graph, universe: set<nat>)
  {
    forall x, y :: x in universe && y in g(x) ==> y in universe
  }

  lemma {:induction false} DiscoverDistinct(order: seq<Visit>, ns: seq<nat>, d: nat, universe: set<nat>)
    requires Distinct(order, universe) && forall y :: y in ns ==> y in universe
    ensures Distinct(Discover(order, ns, d), universe)
    decreases |ns|
  {
    if ns != [] {
      if ns[0] in Seen(order) {
        DiscoverDistinct(order, ns[1..], d, universe);
      } else {
        forall i | 0 <= i < |order|
          ensures order[i].id != ns[0]
        {
          assert order[i] in order;
        }
        DiscoverDistinct(order + [Visit(ns[0], d)], ns[1..], d, universe);
      }
    }
  }

  lemma {:induction false} DistinctBounded(order: seq<Visit>, universe: set<nat>)
    requires Distinct(order, universe)
    ensures |order| <= |universe|
  {
    if order != [] {
      var n := |order| - 1;
      DistinctBounded(order[..n], universe - {order[n].id});
    }
  }

  /** What one step of the search does with the node at the head of the queue. */
  function Expand(g: Graph, limit: nat, order: seq<Visit>, i: nat): (r: seq<Visit>)
    requires i < |order|
    ensures order <= r
  {
    if order[i].depth >= limit then order else Discover(order, g(order[i].id), order[i].depth + 1)
  }

  lemma ExpandDistinct(g: Graph, limit: nat, order: seq<Visit>, i: nat, universe: set<nat>)
    requires i < |order| && Distinct(order, universe) && Closed(g, universe)
    ensures Distinct(Expand(g, limit, order, i), universe)
    ensures |Expand(g, limit, order, i)| <= |universe|
  {
    DiscoverDistinct(order, g(order[i].id), order[i].depth + 1, universe);
    DistinctBounded(Expand(g, limit, order, i), universe);
  }

  /** The whole search: expands the nodes of the queue one after the other until it is empty. */
  ghost function Search(g: Graph, limit: nat, order: seq<Visit>, i: nat, universe: set<nat>): seq<Visit>
    requires i <= |order| && Distinct(order, universe) && Closed(g, universe)
    decreases |universe| - i
  {
    DistinctBounded(order, universe);
    if i == |order| then order
    else
      ExpandDistinct(g, limit, order, i, universe);
      Search(g, limit, Expand(g, limit, order, i), i + 1, universe)
  }

  ghost predicate Rooted(g: Graph, start: nat, universe: set<nat>)
  {
    start in universe && Closed(g, universe)
  }

  ghost function BfsOrder(g: Graph, start: nat, limit: nat, universe: set<nat>): seq<Visit>
    requires Rooted(g, start, universe)
  {
    Search(g, limit, [Visit(start, 0)], 0, universe)
  }

  // -------------------------------------------------------------------------
  // The order of discovery is by distance
  // -------------------------------------------------------------------------

  /** The state of a search: depths are exact, ascending and within one of the head of the queue, and the
      neighbours of every expanded node have been seen. */
  ghost predicate Exact(g: Graph, start: nat, limit: nat, order: seq<Visit>)
  {
    && order != [] && order[0] == Visit(start, 0)
    && (forall j :: 0 <= j < |order| ==> order[j].depth <= limit && At(g, start, order[j].depth, order[j].id))
    && (forall j, k :: 0 <= j < k < |order| ==> order[j].depth <= order[k].depth)
  }

  ghost predicate Expanded(g: Graph, limit: nat, order: seq<Visit>, i: nat)
  {
    forall j, y :: 0 <= j < i && j < |order| && order[j].depth < limit && y in g(order[j].id) ==> y in Seen(order)
  }

  /** Once the head of the queue is at depth `d` or the queue is empty, everything within `d` has been seen. */
  lemma {:induction false} AllNear(g: Graph, start: nat, limit: nat, order: seq<Visit>, i: nat, d: nat, e: nat, x: nat)
    requires Exact(g, start, limit, order) && Expanded(g, limit, order, i) && i <= |order|
    requires forall j :: i <= j < |order| ==> order[j].depth >= d
    requires e <= d && e <= limit && Near(g, start, e, x)
    ensures x in Seen(order)
    decreases e
  {
    assert order[0] in order;
    if x != start {
      var y := NearBefore(g, start, e, x);
      AllNear(g, start, limit, order, i, d, e - 1, y);
      var v :| v in order && v.id == y;
      var j :| 0 <= j < |order| && order[j] == v;
      OneDepth(g, start, v.depth, e - 1, y);
    }
  }

  /** A node found from the head of the queue is one further from the start. */
  lemma FoundAt(g: Graph, start: nat, limit: nat, order: seq<Visit>, i: nat, y: nat)
    requires Exact(g, start, limit, order) && Expanded(g, limit, order, i) && i < |order|
    requires order[i].depth < limit && y in g(order[i].id) && y !in Seen(order)
    ensures At(g, start, order[i].depth + 1, y)
  {
    NearStep(g, start, order[i].depth, order[i].id, y);
    if Near(g, start, order[i].depth, y) {
      AllNear(g, start, limit, order, i, order[i].depth, order[i].depth, y);
    }
  }

  lemma SeenMore(order: seq<Visit>, v: Visit)
    ensures Seen(order + [v]) == Seen(order) + {v.id}
  {
    assert forall w :: w in order + [v] <==> w in order || w == v;
  }

  lemma ExpandedMore(g: Graph, limit: nat, order: seq<Visit>, i: nat, v: Visit)
    requires Expanded(g, limit, order, i) && i < |order|
    ensures Expanded(g, limit, order + [v], i)
  {
    SeenMore(order, v);
    hide Seen;
    forall j, z | 0 <= j < i && j < |order + [v]| && (order + [v])[j].depth < limit && z in g((order + [v])[j].id)
      ensures z in Seen(order + [v])
    {
      assert (order + [v])[j] == order[j];
    }
  }

  lemma ExactMore(g: Graph, start: nat, limit: nat, order: seq<Visit>, v: Visit)
    requires Exact(g, start, limit, order) && v.depth <= limit && At(g, start, v.depth, v.id)
    requires order[|order| - 1].depth <= v.depth
    ensures Exact(g, start, limit, order + [v])
  {
    hide At;
    forall j | 0 <= j < |order|
      ensures order[j].depth <= v.depth
    {
      assert order[j].depth <= order[|order| - 1].depth;
    }
  }

  /** Discovering one neighbour of the head. */
  lemma OneFound(g: Graph, start: nat, limit: nat, order: seq<Visit>, i: nat, y: nat)
    requires Exact(g, start, limit, order) && Expanded(g, limit, order, i) && i < |order|
    requires order[i].depth < limit && y in g(order[i].id) && y !in Seen(order)
    requires order[|order| - 1].depth <= order[i].depth + 1
    ensures var more := order + [Visit(y, order[i].depth + 1)];
            && Exact(g, start, limit, more) && Expanded(g, limit, more, i) && Seen(more) == Seen(order) + {y}
  {
    var v := Visit(y, order[i].depth + 1);
    FoundAt(g, start, limit, order, i, y);
    hide At;
    hide Seen;
    SeenMore(order, v);
    ExpandedMore(g, limit, order, i, v);
    ExactMore(g, start, limit, order, v);
  }

  /** The search is expanding the node `x` at depth `d`, which stands at `i`. */
  ghost predicate Expanding(g: Graph, start: nat, limit: nat, order: seq<Visit>, i: nat, x: nat, d: nat)
  {
    && Exact(g, start, limit, order) && Expanded(g, limit, order, i)
    && i < |order| && order[i] == Visit(x, d) && d < limit && order[|order| - 1].depth <= d + 1
  }

  lemma OneMore(g: Graph, start: nat, limit: nat, order: seq<Visit>, i: nat, x: nat, d: nat, y: nat)
    requires Expanding(g, start, limit, order, i, x, d) && y in g(x) && y !in Seen(order)
    ensures Expanding(g, start, limit, order + [Visit(y, d + 1)], i, x, d)
  {
    OneFound(g, start, limit, order, i, y);
    hide Exact;
    hide Expanded;
  }

  /** Discovering neighbours of the head keeps the order exact. */
  lemma {:induction false} DiscoverExact(g: Graph, start: nat, limit: nat, order: seq<Visit>, i: nat, x: nat, d: nat, ns: seq<nat>)
    requires Expanding(g, start, limit, order, i, x, d) && forall y :: y in ns ==> y in g(x)
    ensures Expanding(g, start, limit, Discover(order, ns, d + 1), i, x, d)
    decreases |ns|
  {
    hide Expanding;
    hide Seen;
    if ns != [] {
      if ns[0] in Seen(order) {
        DiscoverExact(g, start, limit, order, i, x, d, ns[1..]);
      } else {
        OneMore(g, start, limit, order, i, x, d, ns[0]);
        DiscoverExact(g, start, limit, order + [Visit(ns[0], d + 1)], i, x, d, ns[1..]);
      }
    }
  }

  /** Afterwards all of them have been seen. */
  lemma {:induction false} DiscoverSees(order: seq<Visit>, ns: seq<nat>, d: nat)
    ensures forall y :: y in ns || y in Seen(order) ==> y in Seen(Discover(order, ns, d))
    decreases |ns|
  {
    if ns != [] {
      assert ns == [ns[0]] + ns[1..];
      SeenMore(order, Visit(ns[0], d));
      hide Seen;
      DiscoverSees(if ns[0] in Seen(order) then order else order + [Visit(ns[0], d)], ns[1..], d);
    }
  }

  /** What holds each time the search looks at its queue. */
  ghost predicate Searching(g: Graph, start: nat, limit: nat, order: seq<Visit>, i: nat)
  {
    && Exact(g, start, limit, order) && Expanded(g, limit, order, i) && i <= |order|
    && (i < |order| ==> order[|order| - 1].depth <= order[i].depth + 1)
  }

  lemma ExpandedOne(g: Graph, limit: nat, order: seq<Visit>, i: nat)
    requires Expanded(g, limit, order, i) && i < |order|
    requires order[i].depth < limit ==> forall y :: y in g(order[i].id) ==> y in Seen(order)
    ensures Expanded(g, limit, order, i + 1)
  {
    hide Seen;
  }

  lemma ExpandKeeps(g: Graph, start: nat, limit: nat, order: seq<Visit>, i: nat)
    requires Searching(g, start, limit, order, i) && i < |order|
    ensures Searching(g, start, limit, Expand(g, limit, order, i), i + 1)
  {
    hide At;
    hide Seen;
    hide Discover;
    hide Expanded;
    var r := Expand(g, limit, order, i);
    var x, d := order[i].id, order[i].depth;
    if d < limit {
      DiscoverExact(g, start, limit, order, i, x, d, g(x));
      DiscoverSees(order, g(x), d + 1);
    }
    assert r[i] == order[i];
    ExpandedOne(g, limit, r, i);
    if i + 1 < |r| {
      assert r[i].depth <= r[i + 1].depth;
    }
  }

  lemma {:induction false} SearchExact(g: Graph, start: nat, limit: nat, order: seq<Visit>, i: nat, universe: set<nat>)
    requires i <= |order| && Distinct(order, universe) && Closed(g, universe) && Searching(g, start, limit, order, i)
    ensures var r := Search(g, limit, order, i, universe); Searching(g, start, limit, r, |r|) && Distinct(r, universe)
    decreases |universe| - i
  {
    hide Searching;
    hide Distinct;
    hide Closed;
    hide Expand;
    DistinctBounded(order, universe);
    if i < |order| {
      ExpandDistinct(g, limit, order, i, universe);
      ExpandKeeps(g, start, limit, order, i);
      SearchExact(g, start, limit, Expand(g, limit, order, i), i + 1, universe);
    }
  }

  /**
   * Bounded breadth-first search is exact: the order of discovery lists exactly the nodes within
   * `limit` edges of the start, each once, with the length of its shortest path, in
   * non-decreasing depth.
   */
  lemma BfsIsExact(g: Graph, start: nat, limit: nat, universe: set<nat>)
    requires Rooted(g, start, universe)
    ensures var r := BfsOrder(g, start, limit, universe);
            && (forall d: nat, x :: Visit(x, d) in r <==> d <= limit && At(g, start, d, x))
            && (forall i, j :: 0 <= i < j < |r| ==> r[i].id != r[j].id && r[i].depth <= r[j].depth)
            && r != [] && r[0] == Visit(start, 0)
  {
    hide At;
    hide Seen;
    hide Distinct;
    hide Searching;
    hide Search;
    StartSearching(g, start, limit);
    SearchExact(g, start, limit, [Visit(start, 0)], 0, universe);
    var r := BfsOrder(g, start, limit, universe);
    hide BfsOrder;
    hide Rooted;
    SearchedAll(g, start, limit, r);
    SearchedDistinct(r, universe);
  }

  lemma StartSearching(g: Graph, start: nat, limit: nat)
    ensures Searching(g, start, limit, [Visit(start, 0)], 0)
    ensures forall universe: set<nat> :: start in universe ==> Distinct([Visit(start, 0)], universe)
  {
    NearStart(g, start, 0);
  }

  lemma SearchedDistinct(r: seq<Visit>, universe: set<nat>)
    requires Distinct(r, universe)
    ensures forall i, j :: 0 <= i < j < |r| ==> r[i].id != r[j].id
  {
  }

  /** With an empty queue the list holds exactly what is within the limit. */
  lemma SearchedAll(g: Graph, start: nat, limit: nat, r: seq<Visit>)
    requires Searching(g, start, limit, r, |r|)
    ensures r != [] && r[0] == Visit(start, 0) && forall i, j :: 0 <= i < j < |r| ==> r[i].depth <= r[j].depth
    ensures forall d: nat, x :: Visit(x, d) in r <==> d <= limit && At(g, start, d, x)
  {
    hide At;
    hide Expanded;
    hide Seen;
    forall d: nat, x | d <= limit && At(g, start, d, x)
      ensures Visit(x, d) in r
    {
      FoundIn(g, start, limit, r, d, x);
    }
    forall d: nat, x | Visit(x, d) in r
      ensures d <= limit && At(g, start, d, x)
    {
      var i :| 0 <= i < |r| && r[i] == Visit(x, d);
    }
  }

  lemma FoundIn(g: Graph, start: nat, limit: nat, r: seq<Visit>, d: nat, x: nat)
    requires Searching(g, start, limit, r, |r|) && d <= limit && At(g, start, d, x)
    ensures Visit(x, d) in r
  {
    AllNear(g, start, limit, r, |r|, d, d, x);
    var v :| v in r && v.id == x;
    var i :| 0 <= i < |r| && r[i] == v;
    OneDepth(g, start, v.depth, d, x);
    OneDepth(g, start, d, v.depth, x);
  }

  // -------------------------------------------------------------------------
  // The order of discovery is by finder and list
  // -------------------------------------------------------------------------

  /** The visit at `j` is found from the visit at `p`, the earliest whose neighbour list holds it, where it
      stands first at `k`. */
  ghost predicate FoundFrom(g: Graph, r: seq<Visit>, j: nat, p: nat, k: nat)
  {
    && j < |r| && p < |r| && k < |g(r[p].id)| && g(r[p].id)[k] == r[j].id
    && (forall q :: 0 <= q < p ==> r[j].id !in g(r[q].id))
    && forall m :: 0 <= m < k ==> g(r[p].id)[m] != r[j].id
  }

  ghost predicate FoundBefore(g: Graph, r: seq<Visit>, j: nat)
  {
    exists p: nat, k: nat :: p < j && FoundFrom(g, r, j, p, k)
  }

  /** Every visit but the first has been found before, and the visits stand in the order of their finders and,
      within one finder, in the order of its list. */
  ghost predicate InListOrder(g: Graph, r: seq<Visit>)
  {
    && (forall j: nat :: 0 < j < |r| ==> FoundBefore(g, r, j))
    && forall i: nat, j: nat, p: nat, k: nat, q: nat, m: nat ::
         0 < i < j && FoundFrom(g, r, i, p, k) && FoundFrom(g, r, j, q, m) ==> p < q || (p == q && k < m)
  }

  /** The nodes within the limit, each once, at their distance. */
  ghost predicate ListsWithin(g: Graph, start: nat, limit: nat, r: seq<Visit>)
  {
    && r != [] && r[0] == Visit(start, 0)
    && (forall d: nat, x :: Visit(x, d) in r <==> d <= limit && At(g, start, d, x))
    && forall i, j :: 0 <= i < j < |r| ==> r[i].id != r[j].id && r[i].depth <= r[j].depth
  }

  /** The first place of `y` in a list, its length when it is not there. */
  ghost function PlaceIn(ns: seq<nat>, y: nat): (k: nat)
    ensures k <= |ns| && (k < |ns| <==> y in ns) && (k < |ns| ==> ns[k] == y)
    ensures forall m :: 0 <= m < k ==> ns[m] != y
  {
    if ns == [] || ns[0] == y then 0 else 1 + PlaceIn(ns[1..], y)
  }

  /** The first visit whose list holds `y`, the number of visits when there is none. */
  ghost function FinderOf(g: Graph, r: seq<Visit>, y: nat): (p: nat)
    ensures p <= |r| && (p < |r| ==> y in g(r[p].id))
    ensures forall q :: 0 <= q < p ==> y !in g(r[q].id)
  {
    if r == [] || y in g(r[0].id) then 0
    else
      var p := FinderOf(g, r[1..], y);
      assert forall q :: 0 < q <= p ==> r[q] == r[1..][q - 1] || q == |r|;
      1 + p
  }

  lemma FinderIs(g: Graph, r: seq<Visit>, y: nat, p: nat)
    requires p < |r| && y in g(r[p].id) && forall q :: 0 <= q < p ==> y !in g(r[q].id)
    ensures FinderOf(g, r, y) == p
  {
  }

  /** Where and at which place of the list a node is found. */
  ghost function Rank(g: Graph, r: seq<Visit>, y: nat): (nat, nat)
  {
    var p := FinderOf(g, r, y);
    (p, if p < |r| then PlaceIn(g(r[p].id), y) else 0)
  }

  predicate Before(a: (nat, nat), b: (nat, nat))
  {
    a.0 < b.0 || (a.0 == b.0 && a.1 < b.1)
  }

  lemma RankIs(g: Graph, r: seq<Visit>, j: nat, p: nat, k: nat)
    requires FoundFrom(g, r, j, p, k)
    ensures Rank(g, r, r[j].id) == (p, k)
  {
    FinderIs(g, r, r[j].id, p);
  }

  lemma RankFinds(g: Graph, r: seq<Visit>, j: nat)
    requires j < |r| && Rank(g, r, r[j].id).0 < |r|
    ensures FoundFrom(g, r, j, Rank(g, r, r[j].id).0, Rank(g, r, r[j].id).1)
  {
  }

  lemma RankStays(g: Graph, r: seq<Visit>, v: Visit, y: nat)
    requires Rank(g, r, y).0 < |r|
    ensures Rank(g, r + [v], y) == Rank(g, r, y)
  {
    FinderIs(g, r + [v], y, Rank(g, r, y).0);
  }

  /** All visits but the first are found before place `m` of the list of the visit at `i`, in ascending order. */
  ghost predicate Ranked(g: Graph, r: seq<Visit>, i: nat, m: nat)
  {
    && (forall j :: 0 < j < |r| ==> Before(Rank(g, r, r[j].id), (i, m)) && Rank(g, r, r[j].id).0 < j)
    && forall j, k :: 0 < j < k < |r| ==> Before(Rank(g, r, r[j].id), Rank(g, r, r[k].id))
  }

  lemma RankedMore(g: Graph, r: seq<Visit>, i: nat, m: nat, v: Visit)
    requires Ranked(g, r, i, m) && i < |r| && Rank(g, r, v.id) == (i, m)
    ensures Ranked(g, r + [v], i, m + 1)
  {
    hide Rank;
    var more := r + [v];
    forall j | 0 < j < |more|
      ensures Rank(g, more, more[j].id) == Rank(g, r, more[j].id)
    {
      RankStays(g, r, v, more[j].id);
    }
  }

  lemma RankedOn(g: Graph, r: seq<Visit>, i: nat, m: nat, i': nat, m': nat)
    requires Ranked(g, r, i, m) && (i < i' || (i == i' && m <= m'))
    ensures Ranked(g, r, i', m')
  {
    hide Rank;
  }

  /** An unseen neighbour of the head of the queue is found from there and nowhere earlier. */
  lemma RankOfNew(g: Graph, start: nat, limit: nat, order: seq<Visit>, i: nat, x: nat, d: nat, m: nat)
    requires Expanding(g, start, limit, order, i, x, d) && m < |g(x)| && g(x)[m] !in Seen(order)
    requires forall k :: 0 <= k < m ==> g(x)[k] in Seen(order)
    ensures Rank(g, order, g(x)[m]) == (i, m)
  {
    hide At;
    hide Seen;
    var y := g(x)[m];
    forall q | 0 <= q < i
      ensures y !in g(order[q].id)
    {
      assert order[q].depth <= order[i].depth;
    }
    FinderIs(g, order, y, i);
    assert PlaceIn(g(x), y) == m;
  }

  /** Going through the list of the head keeps the visits ranked. */
  lemma {:induction false} DiscoverRanked(g: Graph, start: nat, limit: nat, order: seq<Visit>, i: nat, x: nat, d: nat, m: nat)
    requires Expanding(g, start, limit, order, i, x, d) && m <= |g(x)| && Ranked(g, order, i, m)
    requires forall k :: 0 <= k < m ==> g(x)[k] in Seen(order)
    ensures Ranked(g, Discover(order, g(x)[m..], d + 1), i, |g(x)|)
    decreases |g(x)| - m
  {
    hide Expanding;
    hide Ranked;
    hide Seen;
    hide Rank;
    if m < |g(x)| {
      var y := g(x)[m];
      assert g(x)[m..][0] == y && g(x)[m..][1..] == g(x)[m + 1..];
      InOrder(g, start, limit, order, i, x, d);
      if y in Seen(order) {
        RankedOn(g, order, i, m, i, m + 1);
        DiscoverRanked(g, start, limit, order, i, x, d, m + 1);
      } else {
        RankOfNew(g, start, limit, order, i, x, d, m);
        RankedMore(g, order, i, m, Visit(y, d + 1));
        OneMore(g, start, limit, order, i, x, d, y);
        SeenMore(order, Visit(y, d + 1));
        DiscoverRanked(g, start, limit, order + [Visit(y, d + 1)], i, x, d, m + 1);
      }
    }
  }

  lemma InOrder(g: Graph, start: nat, limit: nat, order: seq<Visit>, i: nat, x: nat, d: nat)
    requires Expanding(g, start, limit, order, i, x, d)
    ensures i < |order| && order[i] == Visit(x, d)
  {
  }

  lemma ExpandRanked(g: Graph, start: nat, limit: nat, order: seq<Visit>, i: nat)
    requires Searching(g, start, limit, order, i) && i < |order| && Ranked(g, order, i, 0)
    ensures Ranked(g, Expand(g, limit, order, i), i + 1, 0)
  {
    hide Exact;
    hide Expanded;
    hide Ranked;
    hide Seen;
    hide Discover;
    var x, d := order[i].id, order[i].depth;
    if d < limit {
      assert g(x)[0..] == g(x);
      DiscoverRanked(g, start, limit, order, i, x, d, 0);
      RankedOn(g, Discover(order, g(x), d + 1), i, |g(x)|, i + 1, 0);
    } else {
      RankedOn(g, order, i, 0, i + 1, 0);
    }
  }

  lemma {:induction false} SearchRanked(g: Graph, start: nat, limit: nat, order: seq<Visit>, i: nat, universe: set<nat>)
    requires i <= |order| && Distinct(order, universe) && Closed(g, universe)
    requires Searching(g, start, limit, order, i) && Ranked(g, order, i, 0)
    ensures var r := Search(g, limit, order, i, universe); Ranked(g, r, |r|, 0)
    decreases |universe| - i
  {
    hide Searching;
    hide Ranked;
    hide Distinct;
    hide Closed;
    hide Expand;
    DistinctBounded(order, universe);
    if i < |order| {
      ExpandDistinct(g, limit, order, i, universe);
      ExpandKeeps(g, start, limit, order, i);
      ExpandRanked(g, start, limit, order, i);
      SearchRanked(g, start, limit, Expand(g, limit, order, i), i + 1, universe);
    }
  }

  lemma RankedInOrder(g: Graph, r: seq<Visit>)
    requires Ranked(g, r, |r|, 0)
    ensures InListOrder(g, r)
  {
    hide Rank;
    forall j: nat | 0 < j < |r|
      ensures FoundBefore(g, r, j)
    {
      RankFinds(g, r, j);
    }
    forall i: nat, j: nat, p: nat, k: nat, q: nat, m: nat | 0 < i < j && FoundFrom(g, r, i, p, k) && FoundFrom(g, r, j, q, m)
      ensures p < q || (p == q && k < m)
    {
      RankIs(g, r, i, p, k);
      RankIs(g, r, j, q, m);
    }
  }

  /**
   * What the list is, in terms of the graph alone: the nodes within the limit, each once, at their
   * distance, in the order of the visits that find them and of the neighbour lists.
   */
  lemma BfsInListOrder(g: Graph, start: nat, limit: nat, universe: set<nat>)
    requires Rooted(g, start, universe)
    ensures ListsWithin(g, start, limit, BfsOrder(g, start, limit, universe))
    ensures InListOrder(g, BfsOrder(g, start, limit, universe))
  {
    BfsIsExact(g, start, limit, universe);
    hide At;
    hide Distinct;
    hide Searching;
    hide Search;
    StartSearching(g, start, limit);
    SearchRanked(g, start, limit, [Visit(start, 0)], 0, universe);
    RankedInOrder(g, BfsOrder(g, start, limit, universe));
  }

  /** The two conditions leave no choice. */
  lemma BfsDetermined(g: Graph, start: nat, limit: nat, a: seq<Visit>, b: seq<Visit>)
    requires ListsWithin(g, start, limit, a) && InListOrder(g, a)
    requires ListsWithin(g, start, limit, b) && InListOrder(g, b)
    ensures a == b
  {
    hide At;
    SamePrefix(g, start, limit, a, b, |a|);
    SamePrefix(g, start, limit, b, a, |b|);
    assert a[..|a|] == a && b[..|b|] == b;
  }

  lemma {:induction false} SamePrefix(g: Graph, start: nat, limit: nat, a: seq<Visit>, b: seq<Visit>, n: nat)
    requires ListsWithin(g, start, limit, a) && InListOrder(g, a)
    requires ListsWithin(g, start, limit, b) && InListOrder(g, b) && n <= |a|
    ensures n <= |b| && a[..n] == b[..n]
  {
    hide At;
    hide InListOrder;
    if n > 1 {
      var m := n - 1;
      SamePrefix(g, start, limit, a, b, m);
      Among(g, start, limit, a, b, m);
      Among(g, start, limit, b, a, m);
      hide ListsWithin;
      SameNext(g, start, limit, a, b, m);
    }
  }

  /** The first visit after a common prefix stands at or after the end of that prefix in the other list. */
  lemma Among(g: Graph, start: nat, limit: nat, a: seq<Visit>, b: seq<Visit>, m: nat)
    requires ListsWithin(g, start, limit, a) && ListsWithin(g, start, limit, b)
    requires m <= |a| && m <= |b| && a[..m] == b[..m]
    ensures m < |a| ==> exists j :: m <= j < |b| && b[j] == a[m]
  {
    hide At;
    if m < |a| {
      assert a[m] in a && Visit(a[m].id, a[m].depth) in b;
      assert forall j :: 0 <= j < m ==> b[j] == a[..m][j] == a[j];
      var j :| 0 <= j < |b| && b[j] == a[m];
    }
  }

  /** What is found from a common prefix is found there alike. */
  lemma FoundAlike(g: Graph, a: seq<Visit>, b: seq<Visit>, m: nat, i: nat, j: nat, p: nat, k: nat)
    requires m <= |a| && m <= |b| && a[..m] == b[..m] && i < |a| && j < |b| && a[i] == b[j]
    requires FoundFrom(g, a, i, p, k) && p < m
    ensures FoundFrom(g, b, j, p, k)
  {
    assert forall q :: 0 <= q < m ==> a[q] == a[..m][q] == b[..m][q] == b[q];
  }

  lemma SameNext(g: Graph, start: nat, limit: nat, a: seq<Visit>, b: seq<Visit>, m: nat)
    requires InListOrder(g, a) && InListOrder(g, b)
    requires 0 < m < |a| && m <= |b| && a[..m] == b[..m]
    requires exists j :: m <= j < |b| && b[j] == a[m]
    requires m < |b| ==> exists j :: m <= j < |a| && a[j] == b[m]
    ensures m < |b| && a[..m + 1] == b[..m + 1]
  {
    var j :| m <= j < |b| && b[j] == a[m];
    var i :| m <= i < |a| && a[i] == b[m];
    assert FoundBefore(g, a, m) && FoundBefore(g, b, m);
    var p: nat, k: nat :| p < m && FoundFrom(g, a, m, p, k);
    var q: nat, l: nat :| q < m && FoundFrom(g, b, m, q, l);
    FoundAlike(g, a, b, m, m, j, p, k);
    FoundAlike(g, b, a, m, m, i, q, l);
    hide FoundFrom;
    assert i > m ==> p < q || (p == q && k < l);
    assert j > m ==> q < p || (p == q && l < k);
    assert a[m] == b[m];
  }

  // -------------------------------------------------------------------------
  // The two loops
  // -------------------------------------------------------------------------

  /** Puts the unseen neighbours on the queue and reports them. */
  method EnqueueUnseen(ns: seq<nat>, depth: nat, visited0: set<nat>, queue0: seq<Visit>, ghost order: seq<Visit>)
    returns (visited: set<nat>, queue: seq<Visit>, added: seq<Visit>)
    requires visited0 == Seen(order)
    ensures Discover(order, ns, depth) == order + added
    ensures visited == Seen(order + added) && queue == queue0 + added
  {
    hide Seen;
    visited, queue, added := visited0, queue0, [];
    assert order + [] == order && queue0 + [] == queue0 && ns[0..] == ns;
    for i := 0 to |ns|
      invariant Discover(order, ns, depth) == Discover(order + added, ns[i..], depth)
      invariant visited == Seen(order + added) && queue == queue0 + added
    {
      var neighbor := ns[i];
      assert ns[i..][0] == neighbor && ns[i..][1..] == ns[i + 1..];
      if neighbor !in visited {
        SeenMore(order + added, Visit(neighbor, depth));
        assert order + (added + [Visit(neighbor, depth)]) == order + added + [Visit(neighbor, depth)];
        visited := visited + {neighbor};
        queue := queue + [Visit(neighbor, depth)];
        added := added + [Visit(neighbor, depth)];
      }
    }
    assert ns[|ns|..] == [];
  }

  /** The search goes on from the node at the head of the queue, and stops with an empty queue. */
  lemma SearchStep(g: Graph, limit: nat, order: seq<Visit>, i: nat, universe: set<nat>)
    requires i < |order| && Distinct(order, universe) && Closed(g, universe)
    ensures var next := if order[i].depth >= limit then order else Discover(order, g(order[i].id), order[i].depth + 1);
            && Distinct(next, universe) && i < |order| <= |next| <= |universe|
            && Search(g, limit, order, i, universe) == Search(g, limit, next, i + 1, universe)
  {
    DistinctBounded(order, universe);
    ExpandDistinct(g, limit, order, i, universe);
  }

  /** The search stands where the order of discovery says: `done` expanded, `queue` to come. */
  ghost predicate InStep(g: Graph, start: nat, limit: nat, done: seq<Visit>, queue: seq<Visit>, visited: set<nat>, universe: set<nat>)
  {
    && Rooted(g, start, universe) && Distinct(done + queue, universe) && visited == Seen(done + queue)
    && Search(g, limit, done + queue, |done|, universe) == BfsOrder(g, start, limit, universe)
  }

  lemma InStepStart(g: Graph, start: nat, limit: nat, universe: set<nat>)
    requires Rooted(g, start, universe)
    ensures InStep(g, start, limit, [], [Visit(start, 0)], {start}, universe)
  {
    assert [] + [Visit(start, 0)] == [Visit(start, 0)];
  }

  lemma InStepEnd(g: Graph, start: nat, limit: nat, done: seq<Visit>, visited: set<nat>, universe: set<nat>)
    requires InStep(g, start, limit, done, [], visited, universe)
    ensures done == BfsOrder(g, start, limit, universe)
  {
    assert done + [] == done;
  }

  lemma Shift(done: seq<Visit>, current: Visit, rest: seq<Visit>, added: seq<Visit>)
    ensures done + [current] + rest + added == done + [current] + (rest + added)
    ensures |done + [current]| == |done| + 1 && (done + [current] + rest)[|done|] == current
    ensures (done + [current] + rest + added)[1..] == (done + [current] + rest)[1..] + added
  {
  }

  /** The head of the queue is done. */
  lemma InStepOn(g: Graph, start: nat, limit: nat, done: seq<Visit>, queue: seq<Visit>, visited: set<nat>, universe: set<nat>)
    requires InStep(g, start, limit, done, queue, visited, universe) && queue != []
    ensures var current, rest := queue[0], queue[1..];
            var order := done + [current] + rest;
            && |done| < |universe| && visited == Seen(order) && done + queue == order
            && (current.depth >= limit ==> InStep(g, start, limit, done + [current], rest, visited, universe))
  {
    var current, rest := queue[0], queue[1..];
    hide Seen;
    hide Search;
    hide Discover;
    hide BfsOrder;
    hide Distinct;
    assert done + queue == done + [current] + rest;
    Shift(done, current, rest, []);
    SearchStep(g, limit, done + [current] + rest, |done|, universe);
  }

  /** What the next visit leads to is appended to the order. */
  lemma InStepPast(g: Graph, start: nat, limit: nat, done: seq<Visit>, queue: seq<Visit>, visited: set<nat>, universe: set<nat>,
                   order: seq<Visit>, next: seq<Visit>, done': seq<Visit>, queue': seq<Visit>)
    requires InStep(g, start, limit, done, queue, visited, universe) && done + queue == order
    requires |done| < |order| && order[|done|].depth < limit
    requires Discover(order, g(order[|done|].id), order[|done|].depth + 1) == next
    requires done' + queue' == next && |done'| == |done| + 1
    ensures InStep(g, start, limit, done', queue', Seen(next), universe)
  {
    hide *;
    var n := |done|;
    InStepOpen(g, start, limit, done, queue, visited, universe, order);
    SearchOnward(g, limit, order, n, universe, next);
    InStepClose(g, start, limit, done', queue', universe, next);
  }

  lemma SearchOnward(g: Graph, limit: nat, order: seq<Visit>, i: nat, universe: set<nat>, next: seq<Visit>)
    requires i < |order| && Distinct(order, universe) && Closed(g, universe) && order[i].depth < limit
    requires Discover(order, g(order[i].id), order[i].depth + 1) == next
    ensures Distinct(next, universe) && i + 1 <= |next|
    ensures Search(g, limit, order, i, universe) == Search(g, limit, next, i + 1, universe)
  {
    hide *;
    SearchStep(g, limit, order, i, universe);
  }

  /** What it leads to goes to the end of the queue. */
  lemma InStepDiscover(g: Graph, start: nat, limit: nat, done: seq<Visit>, queue: seq<Visit>, visited: set<nat>, added: seq<Visit>,
                       universe: set<nat>)
    requires InStep(g, start, limit, done, queue, visited, universe) && queue != [] && queue[0].depth < limit
    requires var order := done + [queue[0]] + queue[1..];
             Discover(order, g(queue[0].id), queue[0].depth + 1) == order + added
    ensures InStep(g, start, limit, done + [queue[0]], queue[1..] + added, Seen(done + [queue[0]] + queue[1..] + added), universe)
  {
    hide *;
    var order := done + [queue[0]] + queue[1..];
    HeadOut(done, queue, added);
    InStepPast(g, start, limit, done, queue, visited, universe, order, order + added, done + [queue[0]], queue[1..] + added);
  }

  lemma HeadOut(done: seq<Visit>, queue: seq<Visit>, added: seq<Visit>)
    requires queue != []
    ensures var order := done + [queue[0]] + queue[1..];
            && done + queue == order && |done| < |order| && order[|done|] == queue[0]
            && (done + [queue[0]]) + (queue[1..] + added) == order + added && |done + [queue[0]]| == |done| + 1
  {
    var order := done + [queue[0]] + queue[1..];
    assert done + queue == order;
    assert (done + [queue[0]]) + (queue[1..] + added) == order + added;
  }

  lemma InStepOpen(g: Graph, start: nat, limit: nat, done: seq<Visit>, queue: seq<Visit>, visited: set<nat>, universe: set<nat>,
                   order: seq<Visit>)
    requires InStep(g, start, limit, done, queue, visited, universe) && done + queue == order
    ensures Rooted(g, start, universe) && Closed(g, universe) && Distinct(order, universe)
    ensures Search(g, limit, order, |done|, universe) == BfsOrder(g, start, limit, universe)
  {
  }

  lemma InStepClose(g: Graph, start: nat, limit: nat, done: seq<Visit>, queue: seq<Visit>, universe: set<nat>, order: seq<Visit>)
    requires done + queue == order && Rooted(g, start, universe) && Distinct(order, universe)
    requires Search(g, limit, order, |done|, universe) == BfsOrder(g, start, limit, universe)
    ensures InStep(g, start, limit, done, queue, Seen(order), universe)
  {
  }

  /** The search that records a node when it leaves the queue. */
  method GraphSearch(g: Graph, start: nat, limit: nat, ghost universe: set<nat>) returns (results: seq<Visit>)
    requires Rooted(g, start, universe)
    ensures results == BfsOrder(g, start, limit, universe)
    ensures ListsWithin(g, start, limit, results) && InListOrder(g, results)
  {
    hide ListsWithin;
    hide InListOrder;
    hide InStep;
    hide Discover;
    hide Seen;
    InStepStart(g, start, limit, universe);
    var visited, queue := {start}, [Visit(start, 0)];
    results := [];
    while queue != []
      invariant InStep(g, start, limit, results, queue, visited, universe)
      decreases |universe| - |results|
    {
      InStepOn(g, start, limit, results, queue, visited, universe);
      var current, rest := queue[0], queue[1..];
      ghost var done, before := results, visited;
      results := results + [current];
      if current.depth < limit {
        var next, added;
        visited, next, added := EnqueueUnseen(g(current.id), current.depth + 1, visited, rest, results + rest);
        InStepDiscover(g, start, limit, done, queue, before, added, universe);
        queue := next;
      } else {
        queue := rest;
      }
    }
    InStepEnd(g, start, limit, results, visited, universe);
    BfsInListOrder(g, start, limit, universe);
  }

  lemma HeadAndRest(g: Graph, start: nat, limit: nat, r: seq<Visit>)
    requires ListsWithin(g, start, limit, r)
    ensures r != [] && [Visit(start, 0)] + r[1..] == r
  {
    hide At;
  }

  /**
   * The search that records a node when it enters the queue, the start only if the store has
   * it: the same list, without its head when there is no such node.
   */
  method GraphSearchHttp(g: Graph, present: bool, start: nat, limit: nat, ghost universe: set<nat>) returns (results: seq<Visit>)
    requires Rooted(g, start, universe)
    ensures BfsOrder(g, start, limit, universe) != []
    ensures results == if present then BfsOrder(g, start, limit, universe) else BfsOrder(g, start, limit, universe)[1..]
    ensures var all := if present then results else [Visit(start, 0)] + results;
            ListsWithin(g, start, limit, all) && InListOrder(g, all)
  {
    hide ListsWithin;
    hide InListOrder;
    hide InStep;
    hide Discover;
    hide Seen;
    InStepStart(g, start, limit, universe);
    var visited, queue := {start}, [Visit(start, 0)];
    results := if present then [Visit(start, 0)] else [];
    ghost var done: seq<Visit> := [];
    assert done + queue == queue && queue[1..] == [];
    while queue != []
      invariant InStep(g, start, limit, done, queue, visited, universe)
      invariant done + queue != [] && results == if present then done + queue else (done + queue)[1..]
      decreases |universe| - |done|
    {
      InStepOn(g, start, limit, done, queue, visited, universe);
      var current, rest := queue[0], queue[1..];
      ghost var before := visited;
      if current.depth < limit {
        var next, added;
        visited, next, added := EnqueueUnseen(g(current.id), current.depth + 1, visited, rest, done + [current] + rest);
        InStepDiscover(g, start, limit, done, queue, before, added, universe);
        Shift(done, current, rest, added);
        results := results + added;
        queue := next;
      } else {
        queue := rest;
      }
      done := done + [current];
    }
    assert done + queue == done;
    InStepEnd(g, start, limit, done, visited, universe);
    BfsInListOrder(g, start, limit, universe);
    HeadAndRest(g, start, limit, done);
  }
}
