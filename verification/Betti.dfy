/** The zeroth Betti number: connected components by union-find with path compression. */
module Betti {

  type Edge = (nat, nat)

  // -------------------------------------------------------------------------
  // Connectivity
  // -------------------------------------------------------------------------

  predicate Linked(edges: seq<Edge>, x: nat, y: nat)
  {
    (x, y) in edges || (y, x) in edges
  }

  ghost predicate Walk(edges: seq<Edge>, p: seq<nat>)
  {
    p != [] && forall i :: 0 <= i < |p| - 1 ==> Linked(edges, p[i], p[i + 1])
  }

  /** Some walk along the edges, in either direction, leads from `x` to `y`. */
  ghost predicate Connected(edges: seq<Edge>, x: nat, y: nat)
  {
    exists p :: Walk(edges, p) && p[0] == x && p[|p| - 1] == y
  }

  lemma ConnectedSelf(edges: seq<Edge>, x: nat)
    ensures Connected(edges, x, x)
  {
    assert Walk(edges, [x]);
  }

  lemma ConnectedEdge(edges: seq<Edge>, x: nat, y: nat)
    requires Linked(edges, x, y)
    ensures Connected(edges, x, y)
  {
    assert Walk(edges, [x, y]);
  }

  lemma ConnectedTrans(edges: seq<Edge>, x: nat, y: nat, z: nat)
    requires Connected(edges, x, y) && Connected(edges, y, z)
    ensures Connected(edges, x, z)
  {
    var p :| Walk(edges, p) && p[0] == x && p[|p| - 1] == y;
    var q :| Walk(edges, q) && q[0] == y && q[|q| - 1] == z;
    var r := p + q[1..];
    forall i | 0 <= i < |r| - 1
      ensures Linked(edges, r[i], r[i + 1])
    {
      if i >= |p| - 1 {
        assert r[i] == q[i - |p| + 1] && r[i + 1] == q[i - |p| + 2];
      }
    }
    assert Walk(edges, r);
  }

  lemma ConnectedSym(edges: seq<Edge>, x: nat, y: nat)
    requires Connected(edges, x, y)
    ensures Connected(edges, y, x)
  {
    var p :| Walk(edges, p) && p[0] == x && p[|p| - 1] == y;
    var r := seq(|p|, i requires 0 <= i < |p| => p[|p| - 1 - i]);
    forall i | 0 <= i < |r| - 1
      ensures Linked(edges, r[i], r[i + 1])
    {
      assert Linked(edges, p[|p| - 2 - i], p[|p| - 2 - i + 1]);
    }
    assert Walk(edges, r);
  }

  lemma ConnectedMore(edges: seq<Edge>, more: seq<Edge>, x: nat, y: nat)
    requires Connected(edges, x, y) && edges <= more
    ensures Connected(more, x, y)
  {
    var p :| Walk(edges, p) && p[0] == x && p[|p| - 1] == y;
    assert Walk(more, p);
  }

  // -------------------------------------------------------------------------
  // Forests
  // -------------------------------------------------------------------------

  /** The parent map is a forest: `depth` decreases towards the roots. */
  ghost predicate Forest(parent: map<nat, nat>, depth: map<nat, nat>)
  {
    && parent.Keys == depth.Keys
    && forall x :: x in parent ==> parent[x] in parent && (parent[x] != x ==> depth[parent[x]] < depth[x])
  }

  /** The root above `x`. */
  ghost function Rep(parent: map<nat, nat>, depth: map<nat, nat>, x: nat): nat
    requires Forest(parent, depth) && x in parent
    decreases depth[x]
  {
    if parent[x] == x then x else Rep(parent, depth, parent[x])
  }

  lemma {:induction false} RepIsRoot(parent: map<nat, nat>, depth: map<nat, nat>, x: nat)
    requires Forest(parent, depth) && x in parent
    ensures var r := Rep(parent, depth, x);
            r in parent && parent[r] == r && depth[r] <= depth[x] && (parent[x] != x ==> depth[r] < depth[x] && r != x)
    decreases depth[x]
  {
    if parent[x] != x {
      RepIsRoot(parent, depth, parent[x]);
    }
  }

  lemma Above(parent: map<nat, nat>, depth: map<nat, nat>, x: nat)
    requires Forest(parent, depth) && x in parent
    ensures x in depth && parent[x] in parent && parent[x] in depth
    ensures parent[x] != x ==> depth[parent[x]] < depth[x] && Rep(parent, depth, parent[x]) == Rep(parent, depth, x)
    ensures parent[x] == x ==> Rep(parent, depth, x) == x
  {
  }

  lemma CompressFits(parent: map<nat, nat>, depth: map<nat, nat>, x: nat)
    requires Forest(parent, depth) && x in parent && parent[x] != x
    ensures Forest(parent[x := Rep(parent, depth, x)], depth)
  {
    RepIsRoot(parent, depth, x);
    hide Rep;
  }

  /** Hanging `x` directly under its root changes nobody's root. */
  lemma {:induction false} CompressKeeps(parent: map<nat, nat>, depth: map<nat, nat>, x: nat, y: nat)
    requires Forest(parent, depth) && x in parent && y in parent && parent[x] != x
    requires Forest(parent[x := Rep(parent, depth, x)], depth)
    ensures Rep(parent[x := Rep(parent, depth, x)], depth, y) == Rep(parent, depth, y)
    decreases if y in depth then depth[y] else 0
  {
    hide Forest;
    hide Rep;
    var r := Rep(parent, depth, x);
    var hung := parent[x := r];
    RepIsRoot(parent, depth, x);
    Above(parent, depth, y);
    Above(hung, depth, y);
    Above(hung, depth, r);
    Above(parent, depth, x);
    if y != x && parent[y] != y {
      CompressKeeps(parent, depth, x, parent[y]);
    }
  }

  lemma CompressKeepsAll(parent: map<nat, nat>, depth: map<nat, nat>, x: nat)
    requires Forest(parent, depth) && x in parent && parent[x] != x && Forest(parent[x := Rep(parent, depth, x)], depth)
    ensures forall y :: y in parent ==> Rep(parent[x := Rep(parent, depth, x)], depth, y) == Rep(parent, depth, y)
  {
    hide *;
    forall y | y in parent
      ensures Rep(parent[x := Rep(parent, depth, x)], depth, y) == Rep(parent, depth, y)
    {
      CompressKeeps(parent, depth, x, y);
    }
  }

  /** The same nodes hang under the same roots. */
  ghost predicate SameRoots(parent: map<nat, nat>, parent': map<nat, nat>, depth: map<nat, nat>)
    requires Forest(parent, depth)
  {
    && Forest(parent', depth)
    && forall y :: y in parent ==> Rep(parent', depth, y) == Rep(parent, depth, y)
  }

  lemma CompressAll(parent: map<nat, nat>, depth: map<nat, nat>, x: nat)
    requires Forest(parent, depth) && x in parent && parent[x] != x
    ensures SameRoots(parent, parent[x := Rep(parent, depth, x)], depth)
  {
    CompressFits(parent, depth, x);
    CompressKeepsAll(parent, depth, x);
    hide Rep;
  }

  /** Depths that fit after hanging root `px` under root `py`: the tree of `px` sinks below `py`. */
  ghost function Sunk(parent: map<nat, nat>, depth: map<nat, nat>, px: nat, py: nat): map<nat, nat>
    requires Forest(parent, depth) && px in parent && py in parent
  {
    map x | x in parent :: if Rep(parent, depth, x) == px then depth[x] + depth[py] + 1 else depth[x]
  }

  lemma SunkFits(parent: map<nat, nat>, depth: map<nat, nat>, px: nat, py: nat)
    requires Forest(parent, depth) && px in parent && py in parent && parent[px] == px && parent[py] == py && px != py
    ensures Forest(parent[px := py], Sunk(parent, depth, px, py))
  {
  }

  /** Hanging one root under another merges exactly those two trees. */
  lemma {:induction false} HangMerges(parent: map<nat, nat>, depth: map<nat, nat>, px: nat, py: nat, z: nat)
    requires Forest(parent, depth) && px in parent && py in parent && parent[px] == px && parent[py] == py && px != py
    requires z in parent && Forest(parent[px := py], Sunk(parent, depth, px, py))
    ensures Rep(parent[px := py], Sunk(parent, depth, px, py), z) ==
            if Rep(parent, depth, z) == px then py else Rep(parent, depth, z)
    decreases if z in depth then depth[z] else 0
  {
    hide Forest;
    hide Rep;
    hide Sunk;
    Above(parent, depth, z);
    Above(parent, depth, px);
    Above(parent[px := py], Sunk(parent, depth, px, py), z);
    Above(parent[px := py], Sunk(parent, depth, px, py), py);
    if parent[z] != z {
      HangMerges(parent, depth, px, py, parent[z]);
    }
  }

  /** After hanging `px` under `py` a node's root is what it was, or `py` for `px`. */
  ghost predicate Merged(parent: map<nat, nat>, depth: map<nat, nat>, parent': map<nat, nat>, depth': map<nat, nat>, px: nat, py: nat)
    requires Forest(parent, depth)
  {
    && Forest(parent', depth') && parent'.Keys == parent.Keys
    && forall z :: z in parent ==> Rep(parent', depth', z) == if Rep(parent, depth, z) == px then py else Rep(parent, depth, z)
  }

  lemma HangAll(parent: map<nat, nat>, depth: map<nat, nat>, px: nat, py: nat)
    requires Forest(parent, depth) && px in parent && py in parent && parent[px] == px && parent[py] == py && px != py
    ensures Merged(parent, depth, parent[px := py], Sunk(parent, depth, px, py), px, py)
  {
    hide Forest;
    hide Rep;
    hide Sunk;
    SunkFits(parent, depth, px, py);
    forall z | z in parent
      ensures Rep(parent[px := py], Sunk(parent, depth, px, py), z) ==
              if Rep(parent, depth, z) == px then py else Rep(parent, depth, z)
    {
      HangMerges(parent, depth, px, py, z);
    }
  }

  class UnionFind {
    var parent: map<nat, nat>
    ghost var depth: map<nat, nat>

    ghost predicate Valid()
      reads this
    {
      Forest(parent, depth)
    }

    ghost function Root(x: nat): nat
      reads this
      requires Valid() && x in parent
    {
      Rep(parent, depth, x)
    }

    /** Every node alone. */
    constructor (nodes: set<nat>)
      ensures Valid() && parent.Keys == nodes && forall x :: x in nodes ==> Root(x) == x
    {
      parent := map x | x in nodes :: x;
      depth := map x | x in nodes :: 0;
    }

    /** The root of `x`; every node on the way is hung directly under it. */
    method Find(x: nat) returns (root: nat)
      requires Valid() && x in parent
      modifies this`parent
      ensures Valid() && parent.Keys == old(parent.Keys)
      ensures root == old(Root(x)) && root in parent && parent[root] == root
      ensures forall y :: y in parent ==> Root(y) == old(Root(y))
      decreases depth[x]
    {
      hide Forest;
      hide Rep;
      Above(parent, depth, x);
      var p := parent[x];
      if p == x {
        return x;
      }
      RepIsRoot(parent, depth, x);
      root := Find(p);
      Above(parent, depth, x);
      CompressAll(parent, depth, x);
      parent := parent[x := root];
    }

    /** Joins the trees of `x` and `y`. */
    method Union(x: nat, y: nat)
      requires Valid() && x in parent && y in parent
      modifies this
      ensures Valid() && parent.Keys == old(parent.Keys)
      ensures forall z :: z in parent ==> Root(z) == if old(Root(z)) == old(Root(x)) then old(Root(y)) else old(Root(z))
    {
      hide Forest;
      hide Rep;
      hide Sunk;
      var px := Find(x);
      Above(parent, depth, px);
      var py := Find(y);
      RepIsRoot(parent, depth, px);
      if px != py {
        HangAll(parent, depth, px, py);
        parent, depth := parent[px := py], Sunk(parent, depth, px, py);
      }
    }
  }

  // -------------------------------------------------------------------------
  // Components
  // -------------------------------------------------------------------------

  function Nodes(edges: seq<Edge>): set<nat>
  {
    (set e | e in edges :: e.0) + (set e | e in edges :: e.1)
  }

  /** The nodes connected to `x`. */
  ghost function ClassOf(edges: seq<Edge>, x: nat): set<nat>
  {
    set y | y in Nodes(edges) && Connected(edges, x, y)
  }

  ghost function Classes(edges: seq<Edge>): set<set<nat>>
  {
    set x | x in Nodes(edges) :: ClassOf(edges, x)
  }

  /** Nodes with the same root are connected by the edges seen so far. */
  ghost predicate RootsSound(roots: map<nat, nat>, edges: seq<Edge>)
  {
    forall x, y :: x in roots && y in roots && roots[x] == roots[y] ==> Connected(edges, x, y)
  }

  /** The ends of every edge seen so far have the same root. */
  ghost predicate RootsCover(roots: map<nat, nat>, edges: seq<Edge>)
  {
    forall e :: e in edges ==> e.0 in roots && e.1 in roots && roots[e.0] == roots[e.1]
  }

  /** What one union does to the roots. */
  ghost predicate Joined(roots: map<nat, nat>, roots': map<nat, nat>, a: nat, b: nat)
  {
    && a in roots && b in roots && roots'.Keys == roots.Keys
    && forall z :: z in roots ==> roots'[z] == if roots[z] == roots[a] then roots[b] else roots[z]
  }

  lemma JoinedSound(roots: map<nat, nat>, roots': map<nat, nat>, edges: seq<Edge>, e: Edge)
    requires RootsSound(roots, edges) && Joined(roots, roots', e.0, e.1)
    ensures RootsSound(roots', edges + [e])
  {
    var more := edges + [e];
    hide Connected;
    forall x, y | x in roots' && y in roots' && roots'[x] == roots'[y]
      ensures Connected(more, x, y)
    {
      if roots[x] == roots[y] {
        ConnectedMore(edges, more, x, y);
      } else if roots[x] == roots[e.0] {
        Across(edges, e, x, y);
      } else {
        Across(edges, e, y, x);
        ConnectedSym(more, y, x);
      }
    }
  }

  lemma Across(edges: seq<Edge>, e: Edge, x: nat, y: nat)
    requires Connected(edges, x, e.0) && Connected(edges, e.1, y)
    ensures Connected(edges + [e], x, y)
  {
    var more := edges + [e];
    ConnectedMore(edges, more, x, e.0);
    ConnectedMore(edges, more, e.1, y);
    assert more[|edges|] == e;
    ConnectedEdge(more, e.0, e.1);
    ConnectedTrans(more, x, e.0, e.1);
    ConnectedTrans(more, x, e.1, y);
  }

  lemma JoinedCovers(roots: map<nat, nat>, roots': map<nat, nat>, edges: seq<Edge>, e: Edge)
    requires RootsCover(roots, edges) && Joined(roots, roots', e.0, e.1)
    ensures RootsCover(roots', edges + [e])
  {
    assert forall d :: d in edges + [e] <==> d in edges || d == e;
  }

  /** A walk never leaves the tree it starts in. */
  lemma {:induction false} WalkStays(roots: map<nat, nat>, edges: seq<Edge>, p: seq<nat>)
    requires RootsCover(roots, edges) && Walk(edges, p) && p[0] in roots
    ensures p[|p| - 1] in roots && roots[p[|p| - 1]] == roots[p[0]]
    decreases |p|
  {
    if |p| > 1 {
      assert Linked(edges, p[0], p[0 + 1]);
      forall i | 0 <= i < |p[1..]| - 1
        ensures Linked(edges, p[1..][i], p[1..][i + 1])
      {
        assert Linked(edges, p[i + 1], p[i + 1 + 1]);
      }
      WalkStays(roots, edges, p[1..]);
    }
  }

  /** At the end two nodes have the same root exactly when they are connected. */
  lemma RootsAreClasses(roots: map<nat, nat>, edges: seq<Edge>, x: nat, y: nat)
    requires RootsSound(roots, edges) && RootsCover(roots, edges) && x in roots && y in roots
    ensures roots[x] == roots[y] <==> Connected(edges, x, y)
    ensures roots.Keys == Nodes(edges) ==> (roots[x] == roots[y] <==> ClassOf(edges, x) == ClassOf(edges, y))
  {
    if Connected(edges, x, y) {
      var p :| Walk(edges, p) && p[0] == x && p[|p| - 1] == y;
      WalkStays(roots, edges, p);
    }
    ConnectedSelf(edges, y);
    hide Connected;
    if Connected(edges, x, y) {
      forall z
        ensures Connected(edges, x, z) <==> Connected(edges, y, z)
      {
        ConnectedSym(edges, x, y);
        if Connected(edges, x, z) {
          ConnectedTrans(edges, y, x, z);
        }
        if Connected(edges, y, z) {
          ConnectedTrans(edges, x, y, z);
        }
      }
    }
    assert roots.Keys == Nodes(edges) ==> y in ClassOf(edges, y);
  }

  ghost function Image<A>(nodes: set<nat>, f: nat -> A): set<A>
  {
    set x | x in nodes :: f(x)
  }

  lemma ImageGrows<A>(rest: set<nat>, x: nat, f: nat -> A)
    ensures Image(rest + {x}, f) == Image(rest, f) + {f(x)}
    ensures |Image(rest + {x}, f)| == |Image(rest, f)| + if f(x) in Image(rest, f) then 0 else 1
  {
    if f(x) in Image(rest, f) {
      assert Image(rest, f) + {f(x)} == Image(rest, f);
    }
  }

  lemma SameMembership<A, B>(rest: set<nat>, x: nat, f: nat -> A, g: nat -> B)
    requires forall y :: y in rest ==> (f(x) == f(y) <==> g(x) == g(y))
    requires f(x) in Image(rest, f)
    ensures g(x) in Image(rest, g)
  {
    var y :| y in rest && f(y) == f(x);
    assert g(y) in Image(rest, g);
  }

  /** Two labellings that tell the same nodes apart use equally many labels. */
  lemma {:induction false} SameCount<A, B>(nodes: set<nat>, f: nat -> A, g: nat -> B)
    requires forall x, y :: x in nodes && y in nodes ==> (f(x) == f(y) <==> g(x) == g(y))
    ensures |Image(nodes, f)| == |Image(nodes, g)|
    decreases |nodes|
  {
    if nodes == {} {
      assert Image(nodes, f) == {} && Image(nodes, g) == {};
    } else {
      var x :| x in nodes;
      var rest := nodes - {x};
      assert rest + {x} == nodes;
      SameCount(rest, f, g);
      ImageGrows(rest, x, f);
      ImageGrows(rest, x, g);
      if f(x) in Image(rest, f) {
        SameMembership(rest, x, f, g);
      } else if g(x) in Image(rest, g) {
        SameMembership(rest, x, g, f);
      }
    }
  }

  /** Joins the ends of every edge. */
  method JoinAll(uf: UnionFind, edges: seq<Edge>) returns (ghost roots: map<nat, nat>)
    requires uf.Valid() && uf.parent.Keys == Nodes(edges) && forall x :: x in uf.parent ==> uf.Root(x) == x
    modifies uf
    ensures uf.Valid() && uf.parent.Keys == Nodes(edges) == roots.Keys
    ensures forall x :: x in uf.parent ==> uf.Root(x) == roots[x]
    ensures RootsSound(roots, edges) && RootsCover(roots, edges)
  {
    hide RootsSound;
    hide RootsCover;
    hide Forest;
    hide Rep;
    roots := map x | x in Nodes(edges) :: x;
    StartRoots(roots, edges);
    for i := 0 to |edges|
      invariant uf.Valid() && uf.parent.Keys == Nodes(edges) == roots.Keys
      invariant forall x :: x in uf.parent ==> uf.Root(x) == roots[x]
      invariant RootsSound(roots, edges[..i]) && RootsCover(roots, edges[..i])
    {
      EndsAreNodes(edges, i);
      uf.Union(edges[i].0, edges[i].1);
      roots := JoinedRoots(roots, edges, i);
    }
    assert edges[..|edges|] == edges;
  }

  /** The roots after one more edge. */
  lemma JoinedRoots(roots: map<nat, nat>, edges: seq<Edge>, i: nat) returns (joined: map<nat, nat>)
    requires i < |edges| && roots.Keys == Nodes(edges) && edges[i].0 in roots && edges[i].1 in roots
    requires RootsSound(roots, edges[..i]) && RootsCover(roots, edges[..i])
    ensures joined.Keys == roots.Keys
    ensures forall x :: x in roots ==> joined[x] == if roots[x] == roots[edges[i].0] then roots[edges[i].1] else roots[x]
    ensures RootsSound(joined, edges[..i + 1]) && RootsCover(joined, edges[..i + 1])
  {
    hide RootsSound;
    hide RootsCover;
    joined := map x | x in roots :: if roots[x] == roots[edges[i].0] then roots[edges[i].1] else roots[x];
    JoinedSound(roots, joined, edges[..i], edges[i]);
    JoinedCovers(roots, joined, edges[..i], edges[i]);
    assert edges[..i] + [edges[i]] == edges[..i + 1];
  }

  lemma EndsAreNodes(edges: seq<Edge>, i: nat)
    requires i < |edges|
    ensures edges[i].0 in Nodes(edges) && edges[i].1 in Nodes(edges)
  {
    assert edges[i] in edges;
  }

  ghost function RootsOf(roots: map<nat, nat>, nodes: set<nat>): set<nat>
    requires nodes <= roots.Keys
  {
    set x | x in nodes :: roots[x]
  }

  lemma RootsOfMore(roots: map<nat, nat>, nodes: set<nat>, x: nat)
    requires nodes <= roots.Keys && x in roots
    ensures RootsOf(roots, nodes + {x}) == RootsOf(roots, nodes) + {roots[x]}
  {
  }

  /** The roots that are left. */
  method CountRoots(uf: UnionFind, nodes: set<nat>, ghost roots: map<nat, nat>) returns (components: set<nat>)
    requires uf.Valid() && uf.parent.Keys == nodes == roots.Keys && forall x :: x in uf.parent ==> uf.Root(x) == roots[x]
    modifies uf
    ensures components == RootsOf(roots, nodes)
  {
    hide Forest;
    hide Rep;
    hide RootsOf;
    components := {};
    var left := nodes;
    RootsOfNone(roots);
    assert nodes - left == {};
    while left != {}
      invariant left <= nodes == uf.parent.Keys && uf.Valid()
      invariant forall x :: x in uf.parent ==> uf.Root(x) == roots[x]
      invariant components == RootsOf(roots, nodes - left)
      decreases |left|
    {
      var node :| node in left;
      RootsOfMore(roots, nodes - left, node);
      assert nodes - left + {node} == nodes - (left - {node});
      left := left - {node};
      var root := uf.Find(node);
      components := components + {root};
    }
    assert nodes - left == nodes;
  }

  lemma RootsOfNone(roots: map<nat, nat>)
    ensures RootsOf(roots, {}) == {}
  {
  }

  /** Connects the nodes edge by edge and counts the roots that are left. */
  method BettiNumbers(edges: seq<Edge>) returns (betti: seq<nat>)
    ensures betti == [|Classes(edges)|]
  {
    var nodes := Nodes(edges);
    var uf := new UnionFind(nodes);
    ghost var roots := JoinAll(uf, edges);
    var components := CountRoots(uf, nodes, roots);
    CountClasses(roots, edges, components);
    betti := [|components|];
  }

  lemma StartRoots(roots: map<nat, nat>, edges: seq<Edge>)
    requires forall x :: x in roots ==> roots[x] == x
    ensures RootsSound(roots, edges[..0]) && RootsCover(roots, edges[..0])
  {
    forall x, y | x in roots && y in roots && roots[x] == roots[y]
      ensures Connected(edges[..0], x, y)
    {
      ConnectedSelf(edges[..0], x);
    }
  }

  lemma CountClasses(roots: map<nat, nat>, edges: seq<Edge>, components: set<nat>)
    requires roots.Keys == Nodes(edges) && RootsSound(roots, edges) && RootsCover(roots, edges)
    requires components == RootsOf(roots, Nodes(edges))
    ensures |components| == |Classes(edges)|
  {
    hide RootsSound;
    hide RootsCover;
    hide ClassOf;
    var f := (x: nat) => if x in roots then roots[x] else 0;
    var g := (x: nat) => ClassOf(edges, x);
    forall x, y | x in Nodes(edges) && y in Nodes(edges)
      ensures f(x) == f(y) <==> g(x) == g(y)
    {
      RootsAreClasses(roots, edges, x, y);
    }
    SameCount(Nodes(edges), f, g);
    assert components == Image(Nodes(edges), f);
    assert Classes(edges) == Image(Nodes(edges), g);
  }
}
