/**
  The bipartite matcher behind shapeless recipes.

  The three arrays of the program are kept as arrays, its two inner closures
  become the methods `Bfs` and `Dfs`, and the 16-bit integers it computes with
  are a subset type, so every assignment also proves that nothing wraps around.
 */
module HopcroftKarp {

  import opened Numbers

  const SHAPELESS_GROUPS_MAX: nat := 30000
  const INF: u16 := 0xFFFF

  /** `g[u]` lists the right-hand nodes adjacent to the left-hand node `u`. */
  type Graph = seq<seq<u16>>

  ghost predicate WellFormed(g: Graph) {
    && |g| <= SHAPELESS_GROUPS_MAX
    && forall u, k :: 0 <= u < |g| && 0 <= k < |g[u]| ==> g[u][k] < |g|
  }

  // ---------------------------------------------------------------------------
  // What is being decided
  // ---------------------------------------------------------------------------

  /** `m` sends every left-hand node to a neighbour of its own. */
  ghost predicate IsPerfectMatching(g: Graph, m: seq<u16>) {
    && |m| == |g|
    && (forall u :: 0 <= u < |g| ==> m[u] < |g| && m[u] in g[u])
    && (forall u, w :: 0 <= u < w < |g| ==> m[u] != m[w])
  }

  ghost predicate HasPerfectMatching(g: Graph) {
    exists m :: IsPerfectMatching(g, m)
  }

  ghost function UpTo(n: nat): (s: set<int>)
    ensures forall x :: x in s <==> 0 <= x < n
    ensures |s| == n
  {
    if n == 0 then {} else UpTo(n - 1) + {n - 1}
  }

  ghost function Neighbours(g: Graph, s: set<int>): set<int>
    requires WellFormed(g)
  {
    set v | v in UpTo(|g|) && exists u :: u in s && 0 <= u < |g| && v in g[u]
  }

  /** A set of left-hand nodes with fewer neighbours than members. */
  ghost predicate HallViolator(g: Graph, s: set<int>)
    requires WellFormed(g)
  {
    && (forall u :: u in s ==> 0 <= u < |g|)
    && |Neighbours(g, s)| < |s|
  }

  lemma SubsetSize(a: set<int>, b: set<int>)
    requires a <= b
    ensures |a| <= |b|
  {
    assert b == a + (b - a);
  }

  /** An injective image is as large as its origin. */
  lemma {:induction false} ImageSize(m: seq<u16>, s: set<int>, image: set<int>)
    requires forall u :: u in s ==> 0 <= u < |m| && m[u] in image
    requires forall u, w :: u in s && w in s && u != w ==> m[u] != m[w]
    ensures |s| <= |image|
  {
    if forall u :: u !in s {
      assert s == {};
    } else {
      var u :| u in s;
      ImageSize(m, s - {u}, image - {m[u]});
    }
  }

  lemma HallViolatorBlocks(g: Graph, s: set<int>)
    requires WellFormed(g) && HallViolator(g, s)
    ensures !HasPerfectMatching(g)
  {
    if m :| IsPerfectMatching(g, m) {
      ImageSize(m, s, Neighbours(g, s));
      assert false;
    }
  }

  // ---------------------------------------------------------------------------
  // The state
  // ---------------------------------------------------------------------------

  /**
    `pu` and `pv` are mutually inverse along edges of the graph, except that
    the entry of the right-hand node `hole` may be stale. `|g|` is the dummy
    node, so a hole of `|g|` means no exception.
   */
  ghost predicate MatchingExcept(g: Graph, pu: seq<u16>, pv: seq<u16>, hole: int) {
    && |pu| == |pv| == |g| + 1
    && (forall u {:trigger pu[u]} :: 0 <= u < |g| && pu[u] != |g| ==>
         pu[u] < |g| && pu[u] in g[u] && pv[pu[u]] == u)
    && (forall v {:trigger pv[v]} :: 0 <= v < |g| && v != hole && pv[v] != |g| ==>
         pv[v] < |g| && pu[pv[v]] == v)
  }

  ghost predicate Matching(g: Graph, pu: seq<u16>, pv: seq<u16>) {
    MatchingExcept(g, pu, pv, |g|)
  }

  ghost function Matched(g: Graph, pu: seq<u16>): set<int>
    requires |pu| == |g| + 1
  {
    set u | 0 <= u < |g| && pu[u] != |g|
  }

  /** Finite distances count edges of the layering and stay clear of `INF`. */
  ghost predicate Bounded(g: Graph, dist: seq<u16>) {
    |dist| == |g| + 1 && forall x :: 0 <= x <= |g| ==> dist[x] <= |g| || dist[x] == INF
  }

  /** `x` is reached from `w` over the edge to its `k`-th neighbour and back along the matching. */
  ghost predicate Step(g: Graph, pv: seq<u16>, w: int, k: int, x: int)
    requires WellFormed(g) && |pv| == |g| + 1
  {
    0 <= w < |g| && 0 <= k < |g[w]| && pv[g[w][k]] == x
  }

  ghost predicate HasPredecessor(g: Graph, pv: seq<u16>, dist: seq<u16>, x: int)
    requires WellFormed(g) && |pv| == |dist| == |g| + 1 && 0 <= x <= |g|
  {
    exists w, k :: Step(g, pv, w, k, x) && dist[w] as int + 1 == dist[x]
  }

  /** What a search leaves behind: layers that start at the unmatched nodes. */
  ghost predicate Layered(g: Graph, pu: seq<u16>, pv: seq<u16>, dist: seq<u16>)
    requires WellFormed(g) && Matching(g, pu, pv)
  {
    && Bounded(g, dist)
    && (forall u :: 0 <= u < |g| ==> (dist[u] == 0 <==> pu[u] == |g|))
    && dist[|g|] != 0
    && (forall x :: 0 <= x <= |g| && 0 < dist[x] < INF ==> HasPredecessor(g, pv, dist, x))
  }

  ghost predicate Expanded(g: Graph, pv: seq<u16>, dist: seq<u16>, u: int)
    requires WellFormed(g) && |pv| == |dist| == |g| + 1 && 0 <= u < |g|
  {
    forall k :: 0 <= k < |g[u]| ==> 0 <= pv[g[u][k]] <= |g| && dist[pv[g[u][k]]] != INF
  }

  /** The reached nodes lead nowhere but to reached nodes, and never to the dummy. */
  ghost predicate Exhausted(g: Graph, pv: seq<u16>, dist: seq<u16>)
    requires WellFormed(g) && |pv| == |dist| == |g| + 1
  {
    && dist[|g|] == INF
    && (forall u :: 0 <= u < |g| && dist[u] != INF ==> Expanded(g, pv, dist, u))
  }

  /**
    `dist` is the layering `d0` with some nodes struck out, and a struck-out
    node has only struck-out successors.
   */
  ghost predicate Pruned(g: Graph, pv: seq<u16>, d0: seq<u16>, dist: seq<u16>)
    requires WellFormed(g) && |pv| == |g| + 1 && |d0| == |dist| == |g| + 1
  {
    && (forall x :: 0 <= x <= |g| ==> dist[x] == d0[x] || dist[x] == INF)
    && (forall w, k, x :: Step(g, pv, w, k, x) && 0 <= x <= |g| && dist[w] == INF && d0[x] == d0[w] as int + 1 ==>
         dist[x] == INF)
  }

  // ---------------------------------------------------------------------------
  // The two arguments that make the algorithm complete and terminating
  // ---------------------------------------------------------------------------

  /** A search that misses the dummy while a node is unmatched has found a Hall violator. */
  lemma ExhaustedGivesHallViolator(g: Graph, pu: seq<u16>, pv: seq<u16>, dist: seq<u16>) returns (s: set<int>)
    requires WellFormed(g) && Matching(g, pu, pv)
    requires Layered(g, pu, pv, dist) && Exhausted(g, pv, dist)
    requires Matched(g, pu) != UpTo(|g|)
    ensures HallViolator(g, s)
  {
    s := set u | 0 <= u < |g| && dist[u] != INF;
    var n := Neighbours(g, s);
    var inner := s * Matched(g, pu);
    forall v | v in n
      ensures 0 <= v < |pv| && pv[v] in inner
    {
      var u :| u in s && 0 <= u < |g| && v in g[u];
      var k :| 0 <= k < |g[u]| && g[u][k] == v;
      assert Expanded(g, pv, dist, u);
    }
    ImageSize(pv, n, inner);
    var u :| 0 <= u < |g| && u !in Matched(g, pu);
    assert u in s && u !in inner;
    SubsetSize(inner, s - {u});
  }

  /** Striking out every unmatched node would strike out the dummy as well. */
  lemma {:induction false} PruningSpreads(g: Graph, pu: seq<u16>, pv: seq<u16>, d0: seq<u16>, dist: seq<u16>, x: int)
    requires WellFormed(g) && Matching(g, pu, pv) && Layered(g, pu, pv, d0)
    requires |dist| == |g| + 1 && Pruned(g, pv, d0, dist)
    requires forall u :: 0 <= u < |g| && pu[u] == |g| ==> dist[u] == INF
    requires 0 <= x <= |g| && d0[x] != INF
    ensures dist[x] == INF
    decreases d0[x]
  {
    if d0[x] != 0 {
      assert HasPredecessor(g, pv, d0, x);
      var w, k :| Step(g, pv, w, k, x) && d0[w] as int + 1 == d0[x];
      PruningSpreads(g, pu, pv, d0, dist, w);
    }
  }

  // ---------------------------------------------------------------------------
  // Breadth-first layering
  // ---------------------------------------------------------------------------

  ghost function Reached(g: Graph, dist: seq<u16>): set<int>
    requires |dist| == |g| + 1
  {
    set x | 0 <= x <= |g| && dist[x] != INF
  }

  lemma ReachedSize(g: Graph, dist: seq<u16>)
    requires |dist| == |g| + 1
    ensures |Reached(g, dist)| <= |g| + 1
  {
    SubsetSize(Reached(g, dist), UpTo(|g| + 1));
  }

  /** Invariant of the search: the layering so far, with `queue` still to be expanded. */
  ghost predicate Searching(g: Graph, pu: seq<u16>, pv: seq<u16>, dist: seq<u16>, queue: seq<u16>)
    requires WellFormed(g) && Matching(g, pu, pv) && |dist| == |g| + 1
  {
    && (forall u :: 0 <= u < |g| ==> (dist[u] == 0 <==> pu[u] == |g|))
    && dist[|g|] != 0
    && (forall x :: 0 <= x <= |g| && 0 < dist[x] < INF ==> HasPredecessor(g, pv, dist, x))
    && (forall x :: 0 <= x <= |g| && dist[x] != INF ==> dist[x] == 0 || dist[x] < |Reached(g, dist)|)
    && (forall x :: x in queue ==> x <= |g| && dist[x] != INF)
  }

  /** Every reached node other than those waiting in `queue` has been expanded. */
  ghost predicate Settled(g: Graph, pv: seq<u16>, dist: seq<u16>, queue: seq<u16>)
    requires WellFormed(g) && |pv| == |dist| == |g| + 1
  {
    dist[|g|] == INF ==>
      forall u :: 0 <= u < |g| && dist[u] != INF && u !in queue ==> Expanded(g, pv, dist, u)
  }

  lemma ReachedGrows(g: Graph, dist: seq<u16>, x: int, d: u16)
    requires |dist| == |g| + 1 && 0 <= x <= |g| && dist[x] == INF != d
    ensures |Reached(g, dist[x := d])| == |Reached(g, dist)| + 1
  {
    assert Reached(g, dist[x := d]) == Reached(g, dist) + {x};
  }

  lemma PredecessorSurvives(g: Graph, pv: seq<u16>, dist: seq<u16>, x: int, back: int, d: u16)
    requires WellFormed(g) && |pv| == |dist| == |g| + 1 && 0 <= x <= |g| && 0 <= back <= |g|
    requires HasPredecessor(g, pv, dist, x) && dist[x] != INF == dist[back]
    ensures HasPredecessor(g, pv, dist[back := d], x)
  {
    var w, k :| Step(g, pv, w, k, x) && dist[w] as int + 1 == dist[x];
    assert Step(g, pv, w, k, x) && dist[back := d][w] as int + 1 == dist[back := d][x];
  }

  /** Reaching one more node gives it a predecessor and keeps those of the others. */
  lemma ReachKeepsPredecessors(g: Graph, pv: seq<u16>, dist: seq<u16>, u: u16, k: int, back: u16, d: u16,
                               next: seq<u16>)
    requires WellFormed(g) && |pv| == |dist| == |g| + 1 && u <= |g| && d == dist[u] as int + 1 < INF
    requires forall x :: 0 <= x <= |g| && 0 < dist[x] < INF ==> HasPredecessor(g, pv, dist, x)
    requires Step(g, pv, u, k, back) && back <= |g| && dist[u] != INF && dist[back] == INF && next == dist[back := d]
    ensures forall x :: 0 <= x <= |g| && 0 < next[x] < INF ==> HasPredecessor(g, pv, next, x)
  {
    forall x | 0 <= x <= |g| && 0 < next[x] < INF
      ensures HasPredecessor(g, pv, next, x)
    {
      if x == back {
        assert Step(g, pv, u, k, back) && next[u] as int + 1 == next[back];
      } else {
        PredecessorSurvives(g, pv, dist, x, back, d);
      }
    }
  }

  lemma QueueGrows(g: Graph, dist: seq<u16>, queue: seq<u16>, back: u16, d: u16, next: seq<u16>)
    requires |dist| == |g| + 1 && back <= |g| && d != INF && next == dist[back := d]
    requires forall x :: x in queue ==> x <= |g| && dist[x] != INF
    ensures forall x :: x in queue + [back] ==> x <= |g| && next[x] != INF
  {
  }

  /** Reaching one more node keeps the invariant. */
  lemma ReachKeepsSearching(g: Graph, pu: seq<u16>, pv: seq<u16>, dist: seq<u16>, queue: seq<u16>, u: u16, k: int,
                            back: u16)
    requires WellFormed(g) && Matching(g, pu, pv) && |dist| == |g| + 1
    requires Searching(g, pu, pv, dist, queue)
    requires Step(g, pv, u, k, back) && back <= |g|
    requires dist[u] != INF && dist[back] == INF
    ensures dist[u] as int + 1 <= |g| + 1 < INF
    ensures Searching(g, pu, pv, dist[back := dist[u] + 1], queue + [back])
    ensures |Reached(g, dist[back := dist[u] + 1])| == |Reached(g, dist)| + 1
  {
    ReachedSize(g, dist);
    assert u in Reached(g, dist);
    var d: u16 := dist[u] + 1;
    ReachedGrows(g, dist, back, d);
    ReachKeepsPredecessors(g, pv, dist, u, k, back, d, dist[back := d]);
    QueueGrows(g, dist, queue, back, d, dist[back := d]);
  }

  lemma ReachKeepsSettled(g: Graph, pv: seq<u16>, dist: seq<u16>, queue: seq<u16>, back: u16, d: u16, queue': seq<u16>)
    requires WellFormed(g) && |pv| == |dist| == |g| + 1
    requires Settled(g, pv, dist, queue)
    requires back <= |g| && dist[back] == INF != d
    requires forall x :: x in queue' <==> x == back || x in queue
    ensures Settled(g, pv, dist[back := d], queue')
  {
    forall u | 0 <= u < |g| && dist[back := d][u] != INF && u !in queue' && dist[|g|] == INF
      ensures Expanded(g, pv, dist[back := d], u)
    {
      assert Expanded(g, pv, dist, u);
    }
  }

  /** Invariant of the loop over the neighbours of `u`: the first `i` of them lead to reached nodes. */
  ghost predicate Expanding(g: Graph, pu: seq<u16>, pv: seq<u16>, dist: seq<u16>, queue: seq<u16>, u: u16, i: int)
    requires WellFormed(g) && Matching(g, pu, pv) && |dist| == |g| + 1
  {
    && u < |g| && dist[u] != INF && i <= |g[u]|
    && Searching(g, pu, pv, dist, queue)
    && Settled(g, pv, dist, queue + [u])
    && (forall k :: 0 <= k < i ==> 0 <= pv[g[u][k]] <= |g| && dist[pv[g[u][k]]] != INF)
  }

  lemma VisitNew(g: Graph, pu: seq<u16>, pv: seq<u16>, dist: seq<u16>, queue: seq<u16>, u: u16, i: nat)
    requires WellFormed(g) && Matching(g, pu, pv) && |dist| == |g| + 1
    requires Expanding(g, pu, pv, dist, queue, u, i) && i < |g[u]| && dist[pv[g[u][i]]] == INF
    ensures dist[u] as int + 1 < INF
    ensures var back := pv[g[u][i]]; Expanding(g, pu, pv, dist[back := dist[u] + 1], queue + [back], u, i + 1)
    ensures var back := pv[g[u][i]]; |Reached(g, dist[back := dist[u] + 1])| == |Reached(g, dist)| + 1
  {
    var back := pv[g[u][i]];
    assert Step(g, pv, u, i, back);
    ReachKeepsSearching(g, pu, pv, dist, queue, u, i, back);
    ReachKeepsSettled(g, pv, dist, queue + [u], back, dist[u] + 1, queue + [back] + [u]);
  }

  /** The layers are as before, or one more node is reached. */
  ghost predicate Progress(g: Graph, before: seq<u16>, dist: seq<u16>, queue: seq<u16>, rest: seq<u16>)
    requires |before| == |dist| == |g| + 1
  {
    (dist == before && rest == queue) || |Reached(g, dist)| > |Reached(g, before)|
  }

  /** Visits neighbour `i` of `u`. */
  method Visit(g: Graph, pairV: array<u16>, dist: array<u16>, u: u16, i: nat, queue: seq<u16>, ghost pu: seq<u16>,
               ghost before: seq<u16>, ghost queue0: seq<u16>)
    returns (rest: seq<u16>)
    requires WellFormed(g) && Matching(g, pu, pairV[..]) && dist.Length == |before| == |g| + 1 && dist != pairV
    requires Expanding(g, pu, pairV[..], dist[..], queue, u, i) && i < |g[u]| &&
             Progress(g, before, dist[..], queue0, queue)
    modifies dist
    ensures Expanding(g, pu, pairV[..], dist[..], rest, u, i + 1) && Progress(g, before, dist[..], queue0, rest)
  {
    rest := queue;
    var back := pairV[g[u][i]];
    if dist[back] == INF {
      ghost var was := dist[..];
      VisitNew(g, pu, pairV[..], was, queue, u, i);
      dist[back] := dist[u] + 1;
      rest := queue + [back];
      assert dist[..] == was[back := was[u] + 1];
    }
  }

  /** The body of the search loop: visit the neighbours of `u`, appending the newly reached nodes. */
  method Expand(g: Graph, pairU: array<u16>, pairV: array<u16>, dist: array<u16>, u: u16, queue: seq<u16>)
    returns (rest: seq<u16>)
    requires WellFormed(g) && Matching(g, pairU[..], pairV[..])
    requires dist.Length == |g| + 1 && dist != pairU && dist != pairV
    requires Expanding(g, pairU[..], pairV[..], dist[..], queue, u, 0)
    modifies dist
    ensures Searching(g, pairU[..], pairV[..], dist[..], rest)
    ensures Settled(g, pairV[..], dist[..], rest)
    ensures Progress(g, old(dist[..]), dist[..], queue, rest)
  {
    ghost var pu, pv, before := pairU[..], pairV[..], dist[..];
    rest := queue;
    for i := 0 to |g[u]|
      invariant pairU[..] == pu && pairV[..] == pv
      invariant Expanding(g, pu, pv, dist[..], rest, u, i) && Progress(g, before, dist[..], queue, rest)
    {
      rest := Visit(g, pairV, dist, u, i, rest, pu, before, queue);
    }
    ExpandedAll(g, pu, pv, dist[..], rest, u);
  }

  lemma ExpandedAll(g: Graph, pu: seq<u16>, pv: seq<u16>, dist: seq<u16>, queue: seq<u16>, u: u16)
    requires WellFormed(g) && Matching(g, pu, pv) && |dist| == |g| + 1
    requires u < |g| && Expanding(g, pu, pv, dist, queue, u, |g[u]|)
    ensures Settled(g, pv, dist, queue)
  {
    assert Expanded(g, pv, dist, u);
    assert forall w :: w in queue + [u] <==> w in queue || w == u;
  }

  lemma SearchStarts(g: Graph, pu: seq<u16>, pv: seq<u16>, dist: seq<u16>, queue: seq<u16>)
    requires WellFormed(g) && Matching(g, pu, pv) && |dist| == |g| + 1
    requires forall u :: 0 <= u < |g| ==> dist[u] == if pu[u] == |g| then 0 else INF
    requires forall u :: 0 <= u < |g| && pu[u] == |g| ==> u in queue
    requires forall x :: x in queue ==> x < |g| && dist[x] == 0
    requires dist[|g|] == INF
    ensures Searching(g, pu, pv, dist, queue) && Settled(g, pv, dist, queue)
  {
  }

  lemma SearchEnds(g: Graph, pu: seq<u16>, pv: seq<u16>, dist: seq<u16>)
    requires WellFormed(g) && Matching(g, pu, pv) && |dist| == |g| + 1
    requires Searching(g, pu, pv, dist, []) && Settled(g, pv, dist, [])
    ensures Layered(g, pu, pv, dist)
    ensures dist[|g|] == INF ==> Exhausted(g, pv, dist)
  {
    ReachedSize(g, dist);
  }

  /** The opening loop of the search: unmatched nodes form layer 0. */
  method SeedLayers(g: Graph, pairU: array<u16>, pairV: array<u16>, dist: array<u16>) returns (queue: seq<u16>)
    requires WellFormed(g) && Matching(g, pairU[..], pairV[..])
    requires dist.Length == |g| + 1 && dist != pairU && dist != pairV
    modifies dist
    ensures Searching(g, pairU[..], pairV[..], dist[..], queue) && Settled(g, pairV[..], dist[..], queue)
  {
    var nil: u16 := |g|;
    queue := [];
    for u := 0 to |g|
      invariant forall w :: 0 <= w < u ==> dist[w] == if pairU[w] == nil then 0 else INF
      invariant forall w :: 0 <= w < u && pairU[w] == nil ==> w in queue
      invariant forall x :: x in queue ==> x < u && dist[x] == 0
      invariant pairU[..] == old(pairU[..])
    {
      if pairU[u] == nil {
        dist[u] := 0;
        queue := queue + [u];
      } else {
        dist[u] := INF;
      }
    }
    dist[nil] := INF;
    assert pairU[..] == old(pairU[..]) && pairV[..] == old(pairV[..]);
    SearchStarts(g, pairU[..], pairV[..], dist[..], queue);
  }

  method Bfs(g: Graph, pairU: array<u16>, pairV: array<u16>, dist: array<u16>) returns (found: bool)
    requires WellFormed(g) && Matching(g, pairU[..], pairV[..])
    requires dist.Length == |g| + 1 && dist != pairU && dist != pairV
    modifies dist
    ensures Layered(g, pairU[..], pairV[..], dist[..])
    ensures found <==> dist[|g|] != INF
    ensures !found ==> Exhausted(g, pairV[..], dist[..])
  {
    ghost var pu, pv := pairU[..], pairV[..];
    var nil: u16 := |g|;
    var queue := SeedLayers(g, pairU, pairV, dist);
    assert pairU[..] == pu && pairV[..] == pv;
    while queue != []
      invariant pairU[..] == pu && pairV[..] == pv
      invariant Searching(g, pu, pv, dist[..], queue)
      invariant Settled(g, pv, dist[..], queue)
      decreases |g| + 1 - |Reached(g, dist[..])|, |queue|
    {
      ReachedSize(g, dist[..]);
      QueueHead(g, pu, pv, dist[..], queue);
      var u := queue[0];
      queue := queue[1..];
      if dist[u] < dist[nil] {
        queue := Expand(g, pairU, pairV, dist, u, queue);
        ReachedSize(g, dist[..]);
      }
    }
    SearchEnds(g, pu, pv, dist[..]);
    found := dist[nil] != INF;
  }

  lemma QueueHead(g: Graph, pu: seq<u16>, pv: seq<u16>, dist: seq<u16>, queue: seq<u16>)
    requires WellFormed(g) && Matching(g, pu, pv) && |dist| == |g| + 1 && queue != []
    requires Searching(g, pu, pv, dist, queue) && Settled(g, pv, dist, queue)
    ensures queue[0] <= |g|
    ensures dist[queue[0]] < dist[|g|] ==> Expanding(g, pu, pv, dist, queue[1..], queue[0], 0)
    ensures dist[queue[0]] >= dist[|g|] ==> Searching(g, pu, pv, dist, queue[1..]) && Settled(g, pv, dist, queue[1..])
  {
    QueueMembers(queue);
  }

  lemma QueueMembers(queue: seq<u16>)
    requires queue != []
    ensures queue[0] in queue
    ensures forall x :: x in queue <==> x == queue[0] || x in queue[1..]
  {
    assert queue == [queue[0]] + queue[1..];
  }

  // ---------------------------------------------------------------------------
  // Depth-first augmentation
  // ---------------------------------------------------------------------------

  /** A walk from `u` strikes out nodes at or beyond the layer of `u`, never the dummy. */
  ghost predicate StruckFrom(g: Graph, before: seq<u16>, after: seq<u16>, layer: int)
    requires |before| == |after| == |g| + 1
  {
    && after[|g|] == before[|g|]
    && (forall x :: 0 <= x < |g| ==> after[x] == before[x] || (after[x] == INF && before[x] >= layer))
  }

  /**
    The effect of a successful walk from `u`: `u` is matched to another node
    than before, only the node it had before may be stale, exactly one more
    node is matched unless `u` was, and nothing in earlier layers has moved.
   */
  ghost predicate Augmented(g: Graph, pu0: seq<u16>, pv0: seq<u16>, dist: seq<u16>, u: int, pu: seq<u16>, pv: seq<u16>)
    requires WellFormed(g) && Matching(g, pu0, pv0) && |dist| == |g| + 1 && 0 <= u < |g|
  {
    && MatchingExcept(g, pu, pv, pu0[u])
    && pu[u] != pu0[u]
    && (pu0[u] != |g| ==> pv[pu0[u]] == u)
    && (forall w :: 0 <= w < |g| ==> (pu[w] != |g| <==> pu0[w] != |g| || w == u))
    && (forall w :: 0 <= w < |g| && pu[w] != pu0[w] ==> dist[u] <= dist[w] < INF)
    && (forall v :: 0 <= v < |g| && pv[v] != pv0[v] ==> pv0[v] == |g| || dist[u] < dist[pv0[v]] < INF)
  }

  /** Taking the edge to the still unmatched `v` ends the walk. */
  lemma AugmentEnds(g: Graph, pu: seq<u16>, pv: seq<u16>, dist: seq<u16>, u: int, v: int)
    requires WellFormed(g) && Matching(g, pu, pv) && Bounded(g, dist)
    requires 0 <= u < |g| && 0 <= v < |g| && v in g[u] && pv[v] == |g| && dist[u] != INF
    ensures Augmented(g, pu, pv, dist, u, pu[u := v], pv[v := u])
  {
  }

  /** Taking the edge to `v`, whose partner `x` has just been matched elsewhere, extends the walk. */
  lemma AugmentExtends(g: Graph, pu0: seq<u16>, pv0: seq<u16>, dist: seq<u16>, mid: seq<u16>, u: int, v: int,
                       pu: seq<u16>, pv: seq<u16>)
    requires WellFormed(g) && Matching(g, pu0, pv0) && Bounded(g, dist) && |mid| == |g| + 1
    requires 0 <= u < |g| && 0 <= v < |g| && v in g[u] && pv0[v] < |g|
    requires dist[u] < mid[pv0[v]] < INF && StruckFrom(g, dist, mid, dist[u] as int + 1)
    requires Augmented(g, pu0, pv0, mid, pv0[v], pu, pv)
    ensures Augmented(g, pu0, pv0, dist, u, pu[u := v], pv[v := u])
  {
  }

  /** A successful walk from the partner of `v`, which ends at once if there is none, makes one from `u`. */
  lemma AugmentStep(g: Graph, pu0: seq<u16>, pv0: seq<u16>, dist: seq<u16>, mid: seq<u16>, u: int, v: int,
                    pu: seq<u16>, pv: seq<u16>)
    requires WellFormed(g) && Matching(g, pu0, pv0) && Bounded(g, dist) && |mid| == |g| + 1
    requires 0 <= u < |g| && 0 <= v < |g| && v in g[u] && pv0[v] <= |g| && dist[u] != INF
    requires dist[u] < mid[pv0[v]] < INF && StruckFrom(g, dist, mid, dist[u] as int + 1)
    requires pv0[v] == |g| ==> pu == pu0 && pv == pv0
    requires pv0[v] < |g| ==> Augmented(g, pu0, pv0, mid, pv0[v], pu, pv)
    ensures Augmented(g, pu0, pv0, dist, u, pu[u := v], pv[v := u])
  {
    if pv0[v] == |g| {
      AugmentEnds(g, pu0, pv0, dist, u, v);
    } else {
      AugmentExtends(g, pu0, pv0, dist, mid, u, v, pu, pv);
    }
  }

  method Link(pairU: array<u16>, pairV: array<u16>, u: u16, v: u16)
    requires pairU != pairV && u < pairU.Length && v < pairV.Length
    modifies pairU, pairV
    ensures pairU[..] == old(pairU[..])[u as int := v] && pairV[..] == old(pairV[..])[v as int := u]
  {
    pairV[v] := u;
    pairU[u] := v;
  }

  /** Strikes out a node from which no walk got on. */
  method Strike(g: Graph, dist: array<u16>, u: u16, ghost pv: seq<u16>, ghost layers: seq<u16>, ghost before: seq<u16>)
    requires WellFormed(g) && Bounded(g, dist[..]) && u < |g| && |before| == |pv| == |layers| == |g| + 1
    requires dist[u] == before[u] && StruckFrom(g, before, dist[..], before[u] as int + 1)
    requires Pruned(g, pv, layers, before) ==> Pruned(g, pv, layers, dist[..])
    requires forall k :: 0 <= k < |g[u]| ==> 0 <= pv[g[u][k]] <= |g| && dist[pv[g[u][k]]] != dist[u] as int + 1
    modifies dist
    ensures Bounded(g, dist[..]) && StruckFrom(g, before, dist[..], before[u]) && dist[u] == INF
    ensures Pruned(g, pv, layers, before) ==> Pruned(g, pv, layers, dist[..])
  {
    if Pruned(g, pv, layers, dist[..]) {
      StrikeKeepsPruned(g, pv, layers, dist[..], u);
    }
    ghost var last := dist[..];
    dist[u] := INF;
    assert dist[..] == last[u := INF];
  }

  method Dfs(g: Graph, pairU: array<u16>, pairV: array<u16>, dist: array<u16>, u: u16, ghost layers: seq<u16>)
    returns (ok: bool)
    requires WellFormed(g) && Matching(g, pairU[..], pairV[..])
    requires dist != pairU && dist != pairV && pairU != pairV
    requires Bounded(g, dist[..]) && u <= |g| && |layers| == |g| + 1
    modifies pairU, pairV, dist
    ensures pairU.Length == pairV.Length == |g| + 1
    ensures Bounded(g, dist[..]) && StruckFrom(g, old(dist[..]), dist[..], old(dist[u]))
    ensures u == |g| ==> ok && dist[..] == old(dist[..])
    ensures !ok || u == |g| ==> pairU[..] == old(pairU[..]) && pairV[..] == old(pairV[..])
    ensures ok && u != |g| ==> Augmented(g, old(pairU[..]), old(pairV[..]), old(dist[..]), u, pairU[..], pairV[..])
    ensures !ok ==> dist[u] == INF
    ensures !ok && old(Pruned(g, pairV[..], layers, dist[..])) ==> Pruned(g, pairV[..], layers, dist[..])
    decreases 0x1_0000 - dist[u] as int
  {
    var nil: u16 := |g|;
    if u == nil {
      return true;
    }
    ghost var pu, pv, before := pairU[..], pairV[..], dist[..];
    for i := 0 to |g[u]|
      invariant pairU[..] == pu && pairV[..] == pv
      invariant Bounded(g, dist[..]) && dist[u] == before[u]
      invariant StruckFrom(g, before, dist[..], before[u] as int + 1)
      invariant Pruned(g, pv, layers, before) ==> Pruned(g, pv, layers, dist[..])
      invariant forall k :: 0 <= k < i ==> 0 <= pv[g[u][k]] <= |g| && dist[pv[g[u][k]]] != dist[u] as int + 1
    {
      var v := g[u][i];
      var back := pairV[v];
      if dist[back] == dist[u] as int + 1 {
        ghost var mid := dist[..];
        var reached := Dfs(g, pairU, pairV, dist, back, layers);
        if reached {
          AugmentStep(g, pu, pv, before, mid, u, v, pairU[..], pairV[..]);
          Link(pairU, pairV, u, v);
          return true;
        }
      }
    }
    Strike(g, dist, u, pv, layers, before);
    return false;
  }

  /** A node none of whose successors is live may be struck out. */
  lemma StrikeKeepsPruned(g: Graph, pv: seq<u16>, layers: seq<u16>, dist: seq<u16>, u: int)
    requires WellFormed(g) && |pv| == |layers| == |dist| == |g| + 1 && 0 <= u < |g|
    requires forall k :: 0 <= k < |g[u]| ==> 0 <= pv[g[u][k]] <= |g| && dist[pv[g[u][k]]] != dist[u] as int + 1
    requires Pruned(g, pv, layers, dist)
    ensures Pruned(g, pv, layers, dist[u := INF])
  {
  }

  // ---------------------------------------------------------------------------
  // The phases
  // ---------------------------------------------------------------------------

  /** If no node of a layering could be augmented from, the layering never reached the dummy. */
  lemma FruitlessPhase(g: Graph, pu: seq<u16>, pv: seq<u16>, layers: seq<u16>, dist: seq<u16>)
    requires WellFormed(g) && Matching(g, pu, pv) && Layered(g, pu, pv, layers)
    requires |dist| == |g| + 1 && Pruned(g, pv, layers, dist) && dist[|g|] == layers[|g|]
    requires forall u :: 0 <= u < |g| && pu[u] == |g| ==> dist[u] == INF
    ensures layers[|g|] == INF
  {
    if layers[|g|] != INF {
      PruningSpreads(g, pu, pv, layers, dist, |g|);
      assert false;
    }
  }

  lemma MatchedGrows(g: Graph, pu0: seq<u16>, pv0: seq<u16>, dist: seq<u16>, u: int, pu: seq<u16>, pv: seq<u16>)
    requires WellFormed(g) && Matching(g, pu0, pv0) && |dist| == |g| + 1 && 0 <= u < |g| && pu0[u] == |g|
    requires Augmented(g, pu0, pv0, dist, u, pu, pv)
    ensures Matching(g, pu, pv) && |Matched(g, pu)| == |Matched(g, pu0)| + 1
  {
    assert Matched(g, pu) == Matched(g, pu0) + {u};
  }

  lemma MatchedSize(g: Graph, pu: seq<u16>)
    requires |pu| == |g| + 1
    ensures |Matched(g, pu)| <= |g|
    ensures |Matched(g, pu)| == |g| ==> Matched(g, pu) == UpTo(|g|)
  {
    SubsetSize(Matched(g, pu), UpTo(|g|));
    if Matched(g, pu) != UpTo(|g|) {
      var u :| u in UpTo(|g|) && u !in Matched(g, pu);
      SubsetSize(Matched(g, pu), UpTo(|g|) - {u});
    }
  }

  /** One round of depth-first walks over a fresh layering matches at least one more node. */
  method AugmentAll(g: Graph, pairU: array<u16>, pairV: array<u16>, dist: array<u16>, numMatched: u16)
    returns (total: u16)
    requires WellFormed(g) && Matching(g, pairU[..], pairV[..])
    requires dist != pairU && dist != pairV && pairU != pairV
    requires dist.Length == |g| + 1 && Layered(g, pairU[..], pairV[..], dist[..]) && dist[|g|] != INF
    requires numMatched == |Matched(g, pairU[..])|
    modifies pairU, pairV, dist
    ensures pairU.Length == |g| + 1
    ensures Matching(g, pairU[..], pairV[..]) && total == |Matched(g, pairU[..])|
    ensures total > numMatched
  {
    var nil: u16 := |g|;
    total := numMatched;
    ghost var pu, pv, layers := pairU[..], pairV[..], dist[..];
    for u := 0 to |g|
      invariant Matching(g, pairU[..], pairV[..]) && Bounded(g, dist[..]) && dist[nil] == layers[nil]
      invariant total == |Matched(g, pairU[..])| && total >= numMatched
      invariant total > numMatched || (
                  && pairU[..] == pu && pairV[..] == pv && Pruned(g, pv, layers, dist[..])
                  && forall w :: 0 <= w < u && pu[w] == |g| ==> dist[w] == INF)
    {
      if pairU[u] == nil {
        ghost var pu0, pv0, d0 := pairU[..], pairV[..], dist[..];
        var ok := Dfs(g, pairU, pairV, dist, u, layers);
        if ok {
          MatchedGrows(g, pu0, pv0, d0, u, pairU[..], pairV[..]);
          MatchedSize(g, pairU[..]);
          total := total + 1;
        }
      }
    }
    if total == numMatched {
      FruitlessPhase(g, pu, pv, layers, dist[..]);
      assert false;
    }
  }

  method CanMatchAll(g: Graph) returns (all: bool)
    requires WellFormed(g)
    ensures all <==> HasPerfectMatching(g)
    ensures !all <==> exists s :: HallViolator(g, s)
  {
    var nil: u16 := |g|;
    var pairU := new u16[|g| + 1](_ => nil);
    var pairV := new u16[|g| + 1](_ => nil);
    var dist := new u16[|g| + 1];
    var numMatched: u16 := 0;
    assert Matched(g, pairU[..]) == {};

    var found := Bfs(g, pairU, pairV, dist);
    while found
      invariant Matching(g, pairU[..], pairV[..]) && Layered(g, pairU[..], pairV[..], dist[..])
      invariant numMatched == |Matched(g, pairU[..])|
      invariant found <==> dist[nil] != INF
      invariant !found ==> Exhausted(g, pairV[..], dist[..])
      decreases |g| - numMatched, found
    {
      numMatched := AugmentAll(g, pairU, pairV, dist, numMatched);
      MatchedSize(g, pairU[..]);
      found := Bfs(g, pairU, pairV, dist);
    }

    all := numMatched == |g|;
    MatchedSize(g, pairU[..]);
    if all {
      FullMatchingIsPerfect(g, pairU[..], pairV[..]);
    } else {
      var s := ExhaustedGivesHallViolator(g, pairU[..], pairV[..], dist[..]);
      HallViolatorBlocks(g, s);
    }
    ViolatorExcludesMatching(g);
  }

  /** A graph with a perfect matching has no Hall violator. */
  lemma ViolatorExcludesMatching(g: Graph)
    requires WellFormed(g)
    ensures HasPerfectMatching(g) ==> !exists s :: HallViolator(g, s)
  {
    if s :| HallViolator(g, s) {
      HallViolatorBlocks(g, s);
    }
  }

  lemma FullMatchingIsPerfect(g: Graph, pu: seq<u16>, pv: seq<u16>)
    requires WellFormed(g) && Matching(g, pu, pv) && Matched(g, pu) == UpTo(|g|)
    ensures HasPerfectMatching(g)
  {
    var m := pu[..|g|];
    forall u | 0 <= u < |g|
      ensures m[u] < |g| && m[u] in g[u] && pv[m[u]] == u
    {
      assert u in Matched(g, pu);
    }
    assert IsPerfectMatching(g, m);
  }
}
