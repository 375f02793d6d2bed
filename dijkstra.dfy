/**
 * The native path finder (`Dijkstra::findPathInNetwork` in `dijkstra.cpp`):
 * Dijkstra's algorithm with unit edge weights over a graph given as a list
 * of node coordinates and, for each node, the indices of its neighbours.
 * Node objects are modelled by their indices, the per-node `distance` and
 * `parent` fields by two sequences, and the priority queue by the multiset
 * of its entries; which of several entries with the least key comes out
 * first depends on pointer order in C++ and is left open here.
 */
module Dijkstra {
  import opened JavaInt
  import opened Coords

  /** The initial `distance` of a node, `INT_MAX`: not yet reached. */
  const Infinity: int := MaxInt

  /** A queue entry `{distance, node}`. */
  datatype Entry = Entry(key: int, node: int)

  /** What callers hand in: a neighbour list for each node, each neighbour
      index naming a node, and no more nodes than an `int` index counts. */
  predicate Network(nodes: seq<Coord>, nbrs: seq<seq<int>>)
  {
    |nodes| <= |nbrs| && |nodes| <= Infinity &&
    forall i, j :: 0 <= i < |nodes| && 0 <= j < |nbrs[i]| ==> 0 <= nbrs[i][j] < |nodes|
  }

  // ---------------------------------------------------------------------
  // Walks
  // ---------------------------------------------------------------------

  /** `w` lists nodes `0 .. n - 1`, each a neighbour of the one before. */
  ghost predicate IsWalk(nbrs: seq<seq<int>>, n: int, w: seq<int>)
  {
    n <= |nbrs| && |w| > 0 &&
    (forall i :: 0 <= i < |w| ==> 0 <= w[i] < n) &&
    forall i :: 0 <= i < |w| - 1 ==> w[i + 1] in nbrs[w[i]]
  }

  ghost predicate WalkFromTo(nbrs: seq<seq<int>>, n: int, w: seq<int>, a: int, b: int)
  {
    IsWalk(nbrs, n, w) && w[0] == a && w[|w| - 1] == b
  }

  ghost predicate Reaches(nbrs: seq<seq<int>>, n: int, a: int, b: int)
  {
    exists w :: WalkFromTo(nbrs, n, w, a, b)
  }

  /** Of more than `n` values in `0 .. n - 1`, two are equal. */
  lemma {:induction false} Pigeonhole(w: seq<int>, n: int)
    requires 0 <= n < |w|
    requires forall i :: 0 <= i < |w| ==> 0 <= w[i] < n
    ensures exists i, j :: 0 <= i < j < |w| && w[i] == w[j]
    decreases n
  {
    var last := |w| - 1;
    var x := w[last];
    var front := w[..last];
    if x in front {
      var i :| 0 <= i < |front| && front[i] == x;
      assert w[i] == w[last];
    } else {
      var squeezed := seq(|front|, k requires 0 <= k < |front| => if front[k] > x then front[k] - 1 else front[k]);
      Pigeonhole(squeezed, n - 1);
      var i, j :| 0 <= i < j < |squeezed| && squeezed[i] == squeezed[j];
      assert front[i] != x && front[j] != x;
      assert w[i] == w[j];
    }
  }

  /** A walk that visits node `w[i]` again at `j` can skip the detour. */
  lemma CutDetour(nbrs: seq<seq<int>>, n: int, w: seq<int>, i: int, j: int)
    requires IsWalk(nbrs, n, w) && 0 <= i < j < |w| && w[i] == w[j]
    ensures IsWalk(nbrs, n, w[..i] + w[j..])
    ensures |w[..i] + w[j..]| < |w|
    ensures (w[..i] + w[j..])[0] == w[0] && (w[..i] + w[j..])[|w[..i] + w[j..]| - 1] == w[|w| - 1]
  {
    var cut := w[..i] + w[j..];
    forall k | 0 <= k < |cut| - 1
      ensures cut[k + 1] in nbrs[cut[k]]
    {
      if k + 1 < i {
        assert cut[k] == w[k] && cut[k + 1] == w[k + 1];
      } else if k + 1 == i {
        assert cut[k] == w[k] && cut[k + 1] == w[j] == w[k + 1];
      } else {
        assert cut[k] == w[j + k - i] && cut[k + 1] == w[j + k - i + 1];
      }
    }
  }

  /** Whatever is reachable is reachable by a walk of at most `n` nodes. */
  lemma {:induction false} ShortWalk(nbrs: seq<seq<int>>, n: int, w: seq<int>) returns (w': seq<int>)
    requires IsWalk(nbrs, n, w)
    ensures WalkFromTo(nbrs, n, w', w[0], w[|w| - 1]) && |w'| <= n
    decreases |w|
  {
    if |w| <= n {
      return w;
    }
    assert 0 <= w[0] < n;
    Pigeonhole(w, n);
    var i, j :| 0 <= i < j < |w| && w[i] == w[j];
    CutDetour(nbrs, n, w, i, j);
    w' := ShortWalk(nbrs, n, w[..i] + w[j..]);
  }

  // ---------------------------------------------------------------------
  // The node index
  // ---------------------------------------------------------------------

  /** `i` is the last position of `c` in `nodes`. */
  predicate LastAt(nodes: seq<Coord>, c: Coord, i: int)
  {
    0 <= i < |nodes| && nodes[i] == c && forall j :: i < j < |nodes| ==> nodes[j] != c
  }

  /** A coordinate has one last position. */
  lemma LastAtUnique(nodes: seq<Coord>, c: Coord, i: int, j: int)
    requires LastAt(nodes, c, i) && LastAt(nodes, c, j)
    ensures i == j
  {
    assert nodes[i] == c && nodes[j] == c;
  }

  /** The `nodeIndex` loop: later entries overwrite earlier ones, so each
      coordinate is mapped to its last position. (The C++ key is the string
      `x + "," + y`, which `Coords.KeyInjective` shows identifies a cell.) */
  method IndexNodes(nodes: seq<Coord>) returns (index: map<Coord, int>)
    ensures forall c :: c in index <==> c in nodes
    ensures forall c :: c in index ==> LastAt(nodes, c, index[c])
  {
    index := map[];
    for i := 0 to |nodes|
      invariant forall c :: c in index <==> c in nodes[..i]
      invariant forall c :: c in index ==> 0 <= index[c] < i && nodes[index[c]] == c
      invariant forall c, j :: c in index && index[c] < j < i ==> nodes[j] != c
    {
      assert nodes[..i + 1] == nodes[..i] + [nodes[i]];
      index := index[nodes[i] := i];
    }
    assert nodes[..|nodes|] == nodes;
  }

  // ---------------------------------------------------------------------
  // The state of the search
  // ---------------------------------------------------------------------

  /** Every neighbour of `v` is at most one step further than `v`. */
  predicate Settled(nbrs: seq<seq<int>>, dist: seq<int>, v: int)
  {
    0 <= v < |nbrs| && 0 <= v < |dist| &&
    forall j :: 0 <= j < |nbrs[v]| ==> 0 <= nbrs[v][j] < |dist| && dist[nbrs[v][j]] <= dist[v] + 1
  }

  ghost predicate Shape(nbrs: seq<seq<int>>, n: int, s: int, e: int, dist: seq<int>, parent: seq<int>)
  {
    n <= |nbrs| && |dist| == n && |parent| == n && 0 <= s < n && 0 <= e < n &&
    (forall i, j :: 0 <= i < n && 0 <= j < |nbrs[i]| ==> 0 <= nbrs[i][j] < n) &&
    dist[s] == 0 && parent[s] == -1 &&
    forall v :: 0 <= v < n ==> 0 <= dist[v] <= Infinity
  }

  /** Each reached node other than the start has as `parent` a nearer node
      it is a neighbour of. */
  ghost predicate Tree(nbrs: seq<seq<int>>, n: int, s: int, dist: seq<int>, parent: seq<int>)
    requires n <= |nbrs| && |dist| == n && |parent| == n
  {
    forall v :: 0 <= v < n && v != s && dist[v] < Infinity ==>
      0 <= parent[v] < n && v in nbrs[parent[v]] && dist[parent[v]] < dist[v]
  }

  /** Queue entries name nodes and never undercut the node's distance. */
  ghost predicate Queued(n: int, dist: seq<int>, pq: multiset<Entry>)
    requires |dist| == n
  {
    forall t :: t in pq ==> 0 <= t.node < n && dist[t.node] <= t.key < Infinity
  }

  /** Every reached node is still queued with its distance, or settled. */
  ghost predicate Frontier(nbrs: seq<seq<int>>, n: int, dist: seq<int>, pq: multiset<Entry>)
    requires |dist| == n
  {
    forall v :: 0 <= v < n && dist[v] < Infinity ==> Entry(dist[v], v) in pq || Settled(nbrs, dist, v)
  }

  /** The end node, once reached, waits in the queue. */
  ghost predicate Pending(n: int, e: int, dist: seq<int>, pq: multiset<Entry>)
    requires |dist| == n && 0 <= e < n
  {
    dist[e] < Infinity ==> Entry(dist[e], e) in pq
  }

  ghost predicate Searching(nbrs: seq<seq<int>>, n: int, s: int, e: int, dist: seq<int>, parent: seq<int>, pq: multiset<Entry>)
  {
    Shape(nbrs, n, s, e, dist, parent) && Tree(nbrs, n, s, dist, parent) &&
    Queued(n, dist, pq) && Frontier(nbrs, n, dist, pq) && Pending(n, e, dist, pq)
  }

  /** The state after `start->distance = 0` and the first push. */
  lemma SearchStarts(nbrs: seq<seq<int>>, n: int, s: int, e: int)
    requires n <= |nbrs| && 0 <= s < n && 0 <= e < n
    requires forall i, j :: 0 <= i < n && 0 <= j < |nbrs[i]| ==> 0 <= nbrs[i][j] < n
    ensures Searching(nbrs, n, s, e, seq(n, _ => Infinity)[s := 0], seq(n, _ => -1), multiset{Entry(0, s)})
  {
  }

  /** Along a walk from the start, either the distance found for its last
      node is at most the walk's length, or some queued entry is shorter. */
  lemma {:induction false} FrontierBound(nbrs: seq<seq<int>>, n: int, s: int, e: int,
                                         dist: seq<int>, parent: seq<int>, pq: multiset<Entry>, w: seq<int>)
    requires Shape(nbrs, n, s, e, dist, parent) && Frontier(nbrs, n, dist, pq)
    requires IsWalk(nbrs, n, w) && w[0] == s && |w| <= Infinity
    ensures dist[w[|w| - 1]] <= |w| - 1 || exists t :: t in pq && t.key <= |w| - 2
    decreases |w|
  {
    if |w| > 1 {
      var front := w[..|w| - 1];
      assert IsWalk(nbrs, n, front);
      FrontierBound(nbrs, n, s, e, dist, parent, pq, front);
      var u, v := w[|w| - 2], w[|w| - 1];
      if dist[u] <= |w| - 2 {
        if Entry(dist[u], u) in pq {
          assert Entry(dist[u], u).key <= |w| - 2;
        } else {
          assert Settled(nbrs, dist, u);
          var j :| 0 <= j < |nbrs[u]| && nbrs[u][j] == v;
        }
      }
    }
  }

  /** With the queue empty, every node reachable from the start is reached. */
  lemma ExhaustedReachesAll(nbrs: seq<seq<int>>, n: int, s: int, e: int,
                            dist: seq<int>, parent: seq<int>, pq: multiset<Entry>, t: int)
    requires Shape(nbrs, n, s, e, dist, parent) && Frontier(nbrs, n, dist, pq)
    requires pq == multiset{} && n <= Infinity && 0 <= t < n
    ensures Reaches(nbrs, n, s, t) ==> dist[t] < Infinity
  {
    if Reaches(nbrs, n, s, t) {
      var w :| WalkFromTo(nbrs, n, w, s, t);
      var w' := ShortWalk(nbrs, n, w);
      FrontierBound(nbrs, n, s, e, dist, parent, pq, w');
    }
  }

  /** A least entry popped for node `u`, traced back by a walk no longer
      than its distance: that walk is a shortest one, and is not empty. */
  lemma PoppedIsNearest(nbrs: seq<seq<int>>, n: int, s: int, e: int,
                        dist: seq<int>, parent: seq<int>, pq: multiset<Entry>, top: Entry, route: seq<int>)
    requires Shape(nbrs, n, s, e, dist, parent) && Frontier(nbrs, n, dist, pq) && Queued(n, dist, pq)
    requires top in pq && forall t :: t in pq ==> top.key <= t.key
    requires WalkFromTo(nbrs, n, route, s, top.node) && |route| <= dist[top.node] + 1
    ensures Shortest(nbrs, n, route, s, top.node) && Reaches(nbrs, n, s, top.node) && route != []
  {
    forall w | WalkFromTo(nbrs, n, w, s, top.node)
      ensures |route| <= |w|
    {
      if |w| <= Infinity {
        FrontierBound(nbrs, n, s, e, dist, parent, pq, w);
      }
    }
  }

  lemma {:induction false} MinExists(pq: multiset<Entry>)
    requires pq != multiset{}
    ensures exists top :: top in pq && forall t :: t in pq ==> top.key <= t.key
    decreases |pq|
  {
    var x :| x in pq;
    var rest := pq - multiset{x};
    if rest == multiset{} {
      forall t | t in pq
        ensures x.key <= t.key
      {
        assert rest[t] == 0;
        assert t == x;
      }
    } else {
      MinExists(rest);
      var m :| m in rest && forall t :: t in rest ==> m.key <= t.key;
      var best := if x.key < m.key then x else m;
      forall t | t in pq
        ensures best.key <= t.key
      {
        if t != x {
          assert t in rest;
        }
      }
      assert best in pq;
    }
  }

  function Sum(s: seq<int>): int
  {
    if s == [] then 0 else Sum(s[..|s| - 1]) + s[|s| - 1]
  }

  lemma {:induction false} SumUpdate(s: seq<int>, i: int, x: int)
    requires 0 <= i < |s|
    ensures Sum(s[i := x]) == Sum(s) - s[i] + x
    decreases |s|
  {
    var t := s[i := x];
    if i < |s| - 1 {
      assert t[..|t| - 1] == s[..|s| - 1][i := x];
      SumUpdate(s[..|s| - 1], i, x);
    } else {
      assert t[..|t| - 1] == s[..|s| - 1];
    }
  }

  lemma {:induction false} SumNonNegative(s: seq<int>)
    requires forall i :: 0 <= i < |s| ==> 0 <= s[i]
    ensures 0 <= Sum(s)
    decreases |s|
  {
    if s != [] {
      SumNonNegative(s[..|s| - 1]);
    }
  }

  // ---------------------------------------------------------------------
  // Relaxation
  // ---------------------------------------------------------------------

  /** Node `v` is a neighbour of `u` that a step from `u` brings nearer. */
  predicate Improves(nbrs: seq<seq<int>>, dist: seq<int>, u: int, v: int)
  {
    0 <= u < |nbrs| && 0 <= u < |dist| && 0 <= v < |dist| && v in nbrs[u] && dist[u] + 1 < dist[v]
  }

  /** The loop over `current->neighbors`: each neighbour a step from `u`
      brings nearer gets that distance, `u` as parent, and one new entry. */
  method Relax(nbrs: seq<seq<int>>, n: int, dist: seq<int>, parent: seq<int>, pq: multiset<Entry>, u: int)
    returns (dist': seq<int>, parent': seq<int>, pq': multiset<Entry>)
    requires n <= |nbrs| && |dist| == n && |parent| == n && 0 <= u < n
    requires forall j :: 0 <= j < |nbrs[u]| ==> 0 <= nbrs[u][j] < n
    ensures |dist'| == n && |parent'| == n
    ensures forall v :: 0 <= v < n ==> dist'[v] == if Improves(nbrs, dist, u, v) then dist[u] + 1 else dist[v]
    ensures forall v :: 0 <= v < n ==> parent'[v] == if Improves(nbrs, dist, u, v) then u else parent[v]
    ensures pq <= pq'
    ensures forall t :: t in pq' ==> t in pq || (t.key == dist[u] + 1 && Improves(nbrs, dist, u, t.node))
    ensures forall v :: 0 <= v < n && Improves(nbrs, dist, u, v) ==> Entry(dist[u] + 1, v) in pq'
    ensures Sum(dist') + |pq'| <= Sum(dist) + |pq|
  {
    dist', parent', pq' := dist, parent, pq;
    var d := dist[u];
    var ns := nbrs[u];
    for j := 0 to |ns|
      invariant |dist'| == n && |parent'| == n
      invariant forall v :: 0 <= v < n ==> dist'[v] == if v in ns[..j] && d + 1 < dist[v] then d + 1 else dist[v]
      invariant forall v :: 0 <= v < n ==> parent'[v] == if v in ns[..j] && d + 1 < dist[v] then u else parent[v]
      invariant pq <= pq'
      invariant forall t :: t in pq' ==> t in pq || (t.key == d + 1 && 0 <= t.node < n && t.node in ns[..j] && d + 1 < dist[t.node])
      invariant forall v :: 0 <= v < n && v in ns[..j] && d + 1 < dist[v] ==> Entry(d + 1, v) in pq'
      invariant Sum(dist') + |pq'| <= Sum(dist) + |pq|
    {
      var v := ns[j];
      assert ns[..j + 1] == ns[..j] + [v];
      var newDist := dist'[u] + 1;
      if newDist < dist'[v] {
        SumUpdate(dist', v, newDist);
        dist' := dist'[v := newDist];
        parent' := parent'[v := u];
        pq' := pq' + multiset{Entry(newDist, v)};
      }
    }
    assert ns[..|ns|] == ns;
  }

  /** Popping `top` and relaxing from its node keeps the search state. */
  lemma RelaxKeepsTree(nbrs: seq<seq<int>>, n: int, s: int, e: int, dist: seq<int>, parent: seq<int>,
                       u: int, dist': seq<int>, parent': seq<int>)
    requires Shape(nbrs, n, s, e, dist, parent) && Tree(nbrs, n, s, dist, parent) && 0 <= u < n
    requires |dist'| == n && |parent'| == n
    requires forall v :: 0 <= v < n ==> dist'[v] == if Improves(nbrs, dist, u, v) then dist[u] + 1 else dist[v]
    requires forall v :: 0 <= v < n ==> parent'[v] == if Improves(nbrs, dist, u, v) then u else parent[v]
    ensures Shape(nbrs, n, s, e, dist', parent') && Tree(nbrs, n, s, dist', parent')
  {
    assert !Improves(nbrs, dist, u, s);
    assert !Improves(nbrs, dist, u, u);
    forall v | 0 <= v < n && v != s && dist'[v] < Infinity
      ensures 0 <= parent'[v] < n && v in nbrs[parent'[v]] && dist'[parent'[v]] < dist'[v]
    {
      if !Improves(nbrs, dist, u, v) {
        assert dist'[parent[v]] <= dist[parent[v]];
      }
    }
  }

  lemma RelaxKeepsQueue(nbrs: seq<seq<int>>, n: int, s: int, e: int, dist: seq<int>, parent: seq<int>,
                        pq: multiset<Entry>, top: Entry, dist': seq<int>, pq': multiset<Entry>)
    requires Shape(nbrs, n, s, e, dist, parent) && Queued(n, dist, pq) && top in pq
    requires Frontier(nbrs, n, dist, pq) && Pending(n, e, dist, pq)
    requires 0 <= top.node < n && top.node != e && |dist'| == n
    requires forall v :: 0 <= v < n ==> dist'[v] == if Improves(nbrs, dist, top.node, v) then dist[top.node] + 1 else dist[v]
    requires pq - multiset{top} <= pq'
    requires forall t :: t in pq' ==> t in pq - multiset{top} || (t.key == dist[top.node] + 1 && Improves(nbrs, dist, top.node, t.node))
    requires forall v :: 0 <= v < n && Improves(nbrs, dist, top.node, v) ==> Entry(dist[top.node] + 1, v) in pq'
    ensures Queued(n, dist', pq') && Pending(n, e, dist', pq')
  {
    var u := top.node;
    forall t | t in pq'
      ensures 0 <= t.node < n && dist'[t.node] <= t.key < Infinity
    {
      if t in pq - multiset{top} {
        assert t in pq;
      }
    }
    if dist'[e] < Infinity && !Improves(nbrs, dist, u, e) {
      assert Entry(dist[e], e) in pq && Entry(dist[e], e) != top;
      assert Entry(dist[e], e) in pq - multiset{top};
    }
  }

  lemma RelaxKeepsFrontier(nbrs: seq<seq<int>>, n: int, s: int, e: int, dist: seq<int>, parent: seq<int>,
                           pq: multiset<Entry>, top: Entry, dist': seq<int>, pq': multiset<Entry>)
    requires Shape(nbrs, n, s, e, dist, parent) && Frontier(nbrs, n, dist, pq) && top in pq
    requires 0 <= top.node < n && |dist'| == n
    requires forall v :: 0 <= v < n ==> dist'[v] == if Improves(nbrs, dist, top.node, v) then dist[top.node] + 1 else dist[v]
    requires pq - multiset{top} <= pq'
    requires forall v :: 0 <= v < n && Improves(nbrs, dist, top.node, v) ==> Entry(dist[top.node] + 1, v) in pq'
    ensures Frontier(nbrs, n, dist', pq')
  {
    var u := top.node;
    assert !Improves(nbrs, dist, u, u);
    forall v | 0 <= v < n && dist'[v] < Infinity && Entry(dist'[v], v) !in pq'
      ensures Settled(nbrs, dist', v)
    {
      if v == u {
        forall j | 0 <= j < |nbrs[u]|
          ensures dist'[nbrs[u][j]] <= dist'[u] + 1
        {
          assert nbrs[u][j] in nbrs[u];
        }
      } else {
        assert !Improves(nbrs, dist, u, v);
        assert Entry(dist[v], v) != top;
        assert Entry(dist[v], v) !in pq - multiset{top};
        assert Settled(nbrs, dist, v);
        forall j | 0 <= j < |nbrs[v]|
          ensures dist'[nbrs[v][j]] <= dist'[v] + 1
        {
          assert dist'[nbrs[v][j]] <= dist[nbrs[v][j]];
        }
      }
    }
  }

  // ---------------------------------------------------------------------
  // Reading the path back
  // ---------------------------------------------------------------------

  function Reverse<T>(s: seq<T>): (r: seq<T>)
    ensures |r| == |s| && forall i :: 0 <= i < |s| ==> r[i] == s[|s| - 1 - i]
  {
    if s == [] then [] else Reverse(s[1..]) + [s[0]]
  }

  /** The coordinates of the nodes of a walk. */
  function Coordinates(nodes: seq<Coord>, route: seq<int>): (path: seq<Coord>)
    requires forall i :: 0 <= i < |route| ==> 0 <= route[i] < |nodes|
    ensures |path| == |route| && forall i :: 0 <= i < |route| ==> path[i] == nodes[route[i]]
  {
    seq(|route|, i requires 0 <= i < |route| => nodes[route[i]])
  }

  /** The `parent` walk back from the end node, reversed: a walk from the
      start with at most `dist[e] + 1` nodes. */
  method Trace(nodes: seq<Coord>, nbrs: seq<seq<int>>, s: int, e: int, dist: seq<int>, parent: seq<int>)
    returns (path: seq<Coord>, ghost route: seq<int>)
    requires Shape(nbrs, |nodes|, s, e, dist, parent) && Tree(nbrs, |nodes|, s, dist, parent)
    requires dist[e] < Infinity
    ensures WalkFromTo(nbrs, |nodes|, route, s, e) && |route| <= dist[e] + 1
    ensures path == Coordinates(nodes, route)
  {
    var n := |nodes|;
    var found: seq<Coord> := [];
    ghost var back: seq<int> := [];
    var cur := e;
    while cur != -1
      invariant cur == -1 || (0 <= cur < n && dist[cur] < Infinity)
      invariant |found| == |back| && forall i :: 0 <= i < |back| ==> 0 <= back[i] < n && found[i] == nodes[back[i]]
      invariant back == [] ==> cur == e
      invariant back != [] ==> back[0] == e && cur == parent[back[|back| - 1]]
      invariant back != [] && back[|back| - 1] != s ==> cur != -1
      invariant forall i :: 0 <= i < |back| - 1 ==> back[i] in nbrs[back[i + 1]]
      invariant back != [] && cur != -1 ==> back[|back| - 1] in nbrs[cur]
      invariant cur == -1 ==> back != [] && back[|back| - 1] == s
      invariant |back| + (if cur == -1 then 0 else dist[cur] + 1) <= dist[e] + 1
      decreases if cur == -1 then 0 else dist[cur] + 1
    {
      found := found + [nodes[cur]];
      back := back + [cur];
      cur := parent[cur];
    }
    path := Reverse(found);
    route := Reverse(back);
  }

  // ---------------------------------------------------------------------
  // The search
  // ---------------------------------------------------------------------

  /** `route` is a walk from `a` to `b` with no more nodes than any other. */
  ghost predicate Shortest(nbrs: seq<seq<int>>, n: int, route: seq<int>, a: int, b: int)
  {
    WalkFromTo(nbrs, n, route, a, b) && forall w :: WalkFromTo(nbrs, n, w, a, b) ==> |route| <= |w|
  }

  /** From a node to itself the shortest walk is the node alone. */
  lemma ShortestToItself(nbrs: seq<seq<int>>, n: int, route: seq<int>, s: int)
    requires Shortest(nbrs, n, route, s, s)
    ensures route == [s]
  {
    assert WalkFromTo(nbrs, n, [s], s, s);
  }

  /** The search loop from node `s` to node `e` (lines 37-70): the result is
      empty exactly when `e` cannot be reached from `s`, and otherwise the
      coordinates of a shortest walk between them. */
  method Search(nodes: seq<Coord>, nbrs: seq<seq<int>>, s: int, e: int)
    returns (path: seq<Coord>, ghost route: seq<int>)
    requires Network(nodes, nbrs) && 0 <= s < |nodes| && 0 <= e < |nodes|
    ensures path != [] <==> Reaches(nbrs, |nodes|, s, e)
    ensures path != [] ==> Shortest(nbrs, |nodes|, route, s, e) && path == Coordinates(nodes, route)
  {
    hide Tree, Frontier, IsWalk, WalkFromTo, Reaches, Shortest;
    var n := |nodes|;
    var dist := seq(n, _ => Infinity)[s := 0];
    var parent := seq(n, _ => -1);
    var pq := multiset{Entry(0, s)};
    SearchStarts(nbrs, n, s, e);
    SumNonNegative(dist);
    while pq != multiset{}
      invariant Searching(nbrs, n, s, e, dist, parent, pq)
      invariant 0 <= Sum(dist)
      decreases Sum(dist) + |pq|
    {
      MinExists(pq);
      var top :| top in pq && forall t :: t in pq ==> top.key <= t.key;
      var u := top.node;
      if u == e {
        path, route := Trace(nodes, nbrs, s, e, dist, parent);
        PoppedIsNearest(nbrs, n, s, e, dist, parent, pq, top, route);
        return;
      }
      var rest := pq - multiset{top};
      var dist', parent', pq' := Relax(nbrs, n, dist, parent, rest, u);
      RelaxKeepsTree(nbrs, n, s, e, dist, parent, u, dist', parent');
      RelaxKeepsQueue(nbrs, n, s, e, dist, parent, pq, top, dist', pq');
      RelaxKeepsFrontier(nbrs, n, s, e, dist, parent, pq, top, dist', pq');
      SumNonNegative(dist');
      dist, parent, pq := dist', parent', pq';
    }
    ExhaustedReachesAll(nbrs, n, s, e, dist, parent, pq, e);
    return [], [];
  }

  /** `findPathInNetwork(nodes, neighbors, startX, startY, endX, endY)`.
      Start and end are the nodes indexed under their coordinates (the last
      node with those coordinates). The result is empty when either is
      missing or the end cannot be reached; otherwise it is the coordinates
      of a walk from start to end with as few steps as any. */
  method FindPathInNetwork(nodes: seq<Coord>, nbrs: seq<seq<int>>, startX: int, startY: int, endX: int, endY: int)
    returns (path: seq<Coord>, ghost route: seq<int>)
    requires Network(nodes, nbrs)
    ensures Coord(startX, startY) !in nodes || Coord(endX, endY) !in nodes ==> path == []
    ensures forall s, e :: LastAt(nodes, Coord(startX, startY), s) && LastAt(nodes, Coord(endX, endY), e) ==>
      && (path != [] <==> Reaches(nbrs, |nodes|, s, e))
      && (path != [] ==> Shortest(nbrs, |nodes|, route, s, e) && path == Coordinates(nodes, route))
  {
    var index := IndexNodes(nodes);
    var startKey, endKey := Coord(startX, startY), Coord(endX, endY);
    if !(startKey in index && endKey in index) {
      return [], [];
    }
    var s, e := index[startKey], index[endKey];
    forall s', e' | LastAt(nodes, startKey, s') && LastAt(nodes, endKey, e')
      ensures s' == s && e' == e
    {
      LastAtUnique(nodes, startKey, s, s');
      LastAtUnique(nodes, endKey, e, e');
    }
    path, route := Search(nodes, nbrs, s, e);
  }
}
