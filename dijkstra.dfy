/**
 * The array-based O(V^2) Dijkstra of src/algorithm/dijkstra.rs, run on a `DGraph`.
 *
 * The routine keeps three behaviours of the code as written:
 *   - dist[src] starts at the weight of a self-loop on src when there is one (else 0.0);
 *   - when no unvisited node has a finite distance, the selection returns the sentinel
 *     n_nodes and the following `path[c] = true` aborts, so a graph with a node that
 *     cannot be reached from src makes the call fail;
 *   - `get_edge(src, src)` rejects a source that is not a node before anything else runs.
 */
module Dijkstra {
  import opened Results
  import opened DirectedGraph

  /** An `f32` distance: finite, or `f32::INFINITY`. */
  datatype Dist = Inf | Fin(val: real)

  /** `a < b` on distances; nothing is below infinity except a finite value. */
  predicate Below(a: Dist, b: Dist) {
    a.Fin? && (b.Inf? || a.val < b.val)
  }

  /** `a + w` on distances; infinity absorbs any weight. */
  function Plus(a: Dist, w: real): Dist {
    if a.Inf? then Inf else Fin(a.val + w)
  }

  /** The ways a call can abort. */
  datatype DijkstraError =
    | EdgeError(cause: GraphError)        // `get_edge(src, src)` panicked: src is not a node
    | PathIndexOutOfBounds(index: nat)    // `path[c] = true` with the selection's sentinel c

  // ---------------------------------------------------------------------------
  // Paths and shortest distances
  // ---------------------------------------------------------------------------

  /** A non-empty walk along edges (non-zero cells); nodes may repeat. */
  ghost predicate IsPath(m: Matrix, n: nat, p: seq<nat>)
    requires IsSquare(m, n)
  {
    && |p| >= 1
    && (forall i :: 0 <= i < |p| ==> p[i] < n)
    && (forall i :: 0 <= i < |p| - 1 ==> m[p[i]][p[i + 1]] != 0.0)
  }

  ghost predicate PathFromTo(m: Matrix, n: nat, p: seq<nat>, src: nat, v: nat)
    requires IsSquare(m, n)
  {
    IsPath(m, n, p) && p[0] == src && p[|p| - 1] == v
  }

  /** The sum of the weights of the edges along `p`. */
  ghost function PathWeight(m: Matrix, n: nat, p: seq<nat>): real
    requires IsSquare(m, n) && IsPath(m, n, p)
    decreases |p|
  {
    if |p| == 1 then 0.0
    else
      assert IsPath(m, n, p[..|p| - 1]);
      PathWeight(m, n, p[..|p| - 1]) + m[p[|p| - 2]][p[|p| - 1]]
  }

  ghost predicate Reachable(m: Matrix, n: nat, src: nat, v: nat)
    requires IsSquare(m, n)
  {
    exists p :: PathFromTo(m, n, p, src, v)
  }

  ghost predicate AllReachable(m: Matrix, n: nat, src: nat)
    requires IsSquare(m, n)
  {
    forall v :: 0 <= v < n ==> Reachable(m, n, src, v)
  }

  /** Some path from src to v weighs exactly `d`. */
  ghost predicate HasPathOfWeight(m: Matrix, n: nat, src: nat, v: nat, d: real)
    requires IsSquare(m, n)
  {
    exists p :: PathFromTo(m, n, p, src, v) && PathWeight(m, n, p) == d
  }

  /** No path from src to v weighs less than `d`. */
  ghost predicate NoShorterPath(m: Matrix, n: nat, src: nat, v: nat, d: real)
    requires IsSquare(m, n)
  {
    forall p :: PathFromTo(m, n, p, src, v) ==> PathWeight(m, n, p) >= d
  }

  ghost predicate NonNegative(m: Matrix, n: nat)
    requires IsSquare(m, n)
  {
    forall i, j :: 0 <= i < n && 0 <= j < n ==> m[i][j] >= 0.0
  }

  /** `get_edge(src, src).unwrap_or_else(|| 0.0)`: the value dist[src] starts from. */
  function StartDistance(m: Matrix, n: nat, src: nat): real
    requires IsSquare(m, n) && src < n
  {
    if m[src][src] != 0.0 then m[src][src] else 0.0
  }

  lemma AppendToPath(m: Matrix, n: nat, p: seq<nat>, v: nat)
    requires IsSquare(m, n) && IsPath(m, n, p) && v < n && m[p[|p| - 1]][v] != 0.0
    ensures IsPath(m, n, p + [v])
    ensures PathWeight(m, n, p + [v]) == PathWeight(m, n, p) + m[p[|p| - 1]][v]
  {
    var q := p + [v];
    assert q[..|p|] == p;
    forall i | 0 <= i < |q| - 1 ensures m[q[i]][q[i + 1]] != 0.0 {
      if i < |p| - 1 {
        assert q[i] == p[i] && q[i + 1] == p[i + 1];
      }
    }
  }

  /** With non-negative weights a walk weighs at least as much as any of its prefixes. */
  lemma {:induction false} PrefixWeight(m: Matrix, n: nat, p: seq<nat>, j: nat)
    requires IsSquare(m, n) && NonNegative(m, n) && IsPath(m, n, p) && j < |p|
    ensures IsPath(m, n, p[..j + 1]) && PathWeight(m, n, p[..j + 1]) <= PathWeight(m, n, p)
    decreases |p|
  {
    if j < |p| - 1 {
      var q := p[..|p| - 1];
      assert IsPath(m, n, q);
      PrefixWeight(m, n, q, j);
      assert q[..j + 1] == p[..j + 1];
    } else {
      assert p[..j + 1] == p;
    }
  }

  /** With non-negative weights no walk weighs less than 0. */
  lemma {:induction false} WeightNonNegative(m: Matrix, n: nat, p: seq<nat>)
    requires IsSquare(m, n) && NonNegative(m, n) && IsPath(m, n, p)
    ensures PathWeight(m, n, p) >= 0.0
    decreases |p|
  {
    if |p| > 1 {
      var q := p[..|p| - 1];
      assert IsPath(m, n, q);
      WeightNonNegative(m, n, q);
    }
  }

  // ---------------------------------------------------------------------------
  // min_distance_node
  // ---------------------------------------------------------------------------

  /**
   * `c` is the node the scan keeps: unvisited, finite, no unvisited node strictly closer, and
   * every unvisited node before it strictly farther (only a strict `<` replaces the best).
   */
  ghost predicate IsClosest(dist: seq<Dist>, path: seq<bool>, c: nat)
    requires |dist| == |path|
  {
    && c < |dist| && !path[c] && dist[c].Fin?
    && (forall v :: 0 <= v < |dist| && !path[v] ==> !Below(dist[v], dist[c]))
    && (forall v :: 0 <= v < c && !path[v] ==> Below(dist[c], dist[v]))
  }

  /**
   * `min_distance_node`: the lowest-index unvisited node of least finite distance, or the
   * out-of-range sentinel `n_nodes` when every unvisited node is at infinity.
   */
  method MinDistanceNode(g: DGraph, dist: seq<Dist>, path: seq<bool>) returns (c: nat)
    requires g.Valid() && |dist| == g.nNodes && |path| == g.nNodes
    ensures c <= g.nNodes
    ensures c < g.nNodes ==> IsClosest(dist, path, c)
    ensures c == g.nNodes <==> forall v :: 0 <= v < g.nNodes && !path[v] ==> dist[v] == Inf
  {
    var minDist := Inf;
    c := g.NNodes();
    for node := 0 to g.nNodes
      invariant c <= g.nNodes
      invariant c == g.nNodes ==> minDist == Inf && forall v :: 0 <= v < node && !path[v] ==> dist[v] == Inf
      invariant c < g.nNodes ==> c < node && !path[c] && dist[c].Fin? && minDist == dist[c]
      invariant c < g.nNodes ==> forall v :: 0 <= v < node && !path[v] ==> !Below(dist[v], minDist)
      invariant c < g.nNodes ==> forall v :: 0 <= v < c && !path[v] ==> Below(minDist, dist[v])
    {
      if Below(dist[node], minDist) && !path[node] {
        minDist := dist[node];
        c := node;
      }
    }
  }

  // ---------------------------------------------------------------------------
  // The relaxation pass and the main loop
  // ---------------------------------------------------------------------------

  /**
   * The inner loop of `dijkstra` for the node `c` just visited: every unvisited successor n
   * whose distance exceeds dist[c] + w(c, n) gets that value.
   */
  method Relax(g: DGraph, c: nat, dist: array<Dist>, path: array<bool>)
    requires g.Valid() && c < g.nNodes && dist.Length == g.nNodes && path.Length == g.nNodes
    requires path[c] && dist[c].Fin?
    modifies dist
    ensures RelaxedThrough(g.adjMat, g.nNodes, c, old(dist[..]), path[..], dist[..])
  {
    for n := 0 to g.nNodes
      invariant dist[c] == old(dist[c])
      invariant forall v :: n <= v < g.nNodes ==> dist[v] == old(dist[v])
      invariant forall v :: 0 <= v < n && path[v] ==> dist[v] == old(dist[v])
      invariant forall v :: 0 <= v < n ==>
        dist[v] == old(dist[v]) ||
        (g.adjMat[c][v] != 0.0 && dist[v] == Plus(dist[c], g.adjMat[c][v]) && Below(dist[v], old(dist[v])))
      invariant forall v :: 0 <= v < n && !path[v] && g.adjMat[c][v] != 0.0 ==>
        !Below(Plus(dist[c], g.adjMat[c][v]), dist[v])
    {
      var e := g.GetEdge(c, n);
      if e.value.Some? && !path[n] && Below(Plus(dist[c], e.value.value), dist[n]) {
        dist[n] := Plus(dist[c], e.value.value);
      }
    }
  }

  /** The nodes marked in `path`. */
  ghost function Visited(path: seq<bool>): set<nat> {
    set v: nat | v < |path| && path[v]
  }

  /** Each finite dist[v] is d0 plus the weight of the walk `via[v]` from src to v. */
  ghost predicate Witnessed(m: Matrix, n: nat, src: nat, d0: real, dist: seq<Dist>, via: seq<seq<nat>>)
    requires IsSquare(m, n) && |dist| == n && |via| == n
  {
    forall v :: 0 <= v < n && dist[v].Fin? ==>
      PathFromTo(m, n, via[v], src, v) && PathWeight(m, n, via[v]) == dist[v].val - d0
  }

  /**
   * Visited nodes are finite, and every edge p -> u from a visited p to an unvisited u has
   * been relaxed: dist[u] <= dist[p] + w(p, u).
   */
  ghost predicate Frontier(m: Matrix, n: nat, dist: seq<Dist>, path: seq<bool>)
    requires IsSquare(m, n) && |dist| == n && |path| == n
  {
    && (forall v :: 0 <= v < n && path[v] ==> dist[v].Fin?)
    && (forall p, u :: 0 <= p < n && 0 <= u < n && path[p] && !path[u] && m[p][u] != 0.0 ==>
          !Below(Plus(dist[p], m[p][u]), dist[u]))
  }

  /** No walk reaches a visited node v more cheaply than dist[v] - d0. */
  ghost predicate Settled(m: Matrix, n: nat, src: nat, d0: real, dist: seq<Dist>, path: seq<bool>)
    requires IsSquare(m, n) && |dist| == n && |path| == n
  {
    forall v :: 0 <= v < n && path[v] ==> dist[v].Fin? && NoShorterPath(m, n, src, v, dist[v].val - d0)
  }

  /** The invariant of the outer loop of `dijkstra`. */
  ghost predicate LoopInvariant(m: Matrix, n: nat, src: nat, d0: real, dist: seq<Dist>, path: seq<bool>, via: seq<seq<nat>>)
    requires IsSquare(m, n)
  {
    && |dist| == n && |path| == n && |via| == n && src < n
    && dist[src].Fin? && dist[src].val <= d0
    && Witnessed(m, n, src, d0, dist, via)
    && Frontier(m, n, dist, path)
    && (NonNegative(m, n) ==> Settled(m, n, src, d0, dist, path))
  }

  /** What the relaxation pass for `c` did, seen from the old and new distances. */
  ghost predicate RelaxedThrough(m: Matrix, n: nat, c: nat, dist: seq<Dist>, path: seq<bool>, dist': seq<Dist>)
    requires IsSquare(m, n) && c < n && |dist| == n && |path| == n && |dist'| == n
  {
    // visited nodes, c among them, keep their distance
    && (forall v :: 0 <= v < n && path[v] ==> dist'[v] == dist[v])
    // a distance only changes to a strictly smaller value, dist[c] + w(c, v) along an edge c -> v
    && (forall v :: 0 <= v < n ==>
          dist'[v] == dist[v] ||
          (m[c][v] != 0.0 && dist'[v] == Plus(dist[c], m[c][v]) && Below(dist'[v], dist[v])))
    // afterwards no unvisited successor of c can be improved through c
    && (forall v :: 0 <= v < n && !path[v] && m[c][v] != 0.0 ==> !Below(Plus(dist[c], m[c][v]), dist'[v]))
  }

  /** The witness walks after relaxing through c: a lowered node is now reached via c. */
  ghost function Reroute(via: seq<seq<nat>>, c: nat, dist: seq<Dist>, dist': seq<Dist>): seq<seq<nat>>
    requires c < |via| && |dist| == |via| && |dist'| == |via|
  {
    seq(|via|, v requires 0 <= v < |via| => if dist'[v] != dist[v] then via[c] + [v as nat] else via[v])
  }

  ghost function FirstUnvisited(p: seq<nat>, path: seq<bool>, k: nat): (j: nat)
    requires k < |p| && (forall i :: 0 <= i < |p| ==> p[i] < |path|) && !path[p[|p| - 1]]
    ensures k <= j < |p| && !path[p[j]] && forall i :: k <= i < j ==> path[p[i]]
    decreases |p| - k
  {
    if !path[p[k]] then k else FirstUnvisited(p, path, k + 1)
  }

  /** A walk from src whose nodes are all visited except the last is no cheaper than its end. */
  lemma ThroughVisited(m: Matrix, n: nat, src: nat, d0: real, dist: seq<Dist>, path: seq<bool>, via: seq<seq<nat>>, p: seq<nat>)
    requires IsSquare(m, n) && LoopInvariant(m, n, src, d0, dist, path, via) && NonNegative(m, n)
    requires IsPath(m, n, p) && p[0] == src && !path[p[|p| - 1]]
    requires forall i :: 0 <= i < |p| - 1 ==> path[p[i]]
    ensures dist[p[|p| - 1]].Fin? && PathWeight(m, n, p) >= dist[p[|p| - 1]].val - d0
  {
    if |p| > 1 {
      var q := p[..|p| - 1];
      assert IsPath(m, n, q) && PathFromTo(m, n, q, src, p[|p| - 2]);
      assert path[p[|p| - 2]];
    }
  }

  /** The node the selection returns is settled: no walk reaches it more cheaply. */
  lemma ClosestIsSettled(m: Matrix, n: nat, src: nat, d0: real, dist: seq<Dist>, path: seq<bool>, via: seq<seq<nat>>, c: nat)
    requires IsSquare(m, n) && LoopInvariant(m, n, src, d0, dist, path, via) && NonNegative(m, n)
    requires IsClosest(dist, path, c)
    ensures NoShorterPath(m, n, src, c, dist[c].val - d0)
  {
    forall p | PathFromTo(m, n, p, src, c)
      ensures PathWeight(m, n, p) >= dist[c].val - d0
    {
      var j := FirstUnvisited(p, path, 0);
      PrefixWeight(m, n, p, j);
      var q := p[..j + 1];
      ThroughVisited(m, n, src, d0, dist, path, via, q);
    }
  }

  /** The walks recorded for the relaxed nodes extend the walk to `c` by one edge. */
  lemma WitnessedStep(m: Matrix, n: nat, src: nat, d0: real, dist: seq<Dist>, path: seq<bool>, via: seq<seq<nat>>,
                      c: nat, dist': seq<Dist>, via': seq<seq<nat>>)
    requires IsSquare(m, n) && LoopInvariant(m, n, src, d0, dist, path, via)
    requires IsClosest(dist, path, c) && |dist'| == n
    requires RelaxedThrough(m, n, c, dist, path[c := true], dist')
    requires |via| == n && |dist| == n && c < n && via' == Reroute(via, c, dist, dist')
    ensures Witnessed(m, n, src, d0, dist', via')
  {
    forall v | 0 <= v < n && dist'[v].Fin?
      ensures PathFromTo(m, n, via'[v], src, v) && PathWeight(m, n, via'[v]) == dist'[v].val - d0
    {
      if dist'[v] != dist[v] {
        AppendToPath(m, n, via[c], v);
      }
    }
  }

  lemma FrontierStep(m: Matrix, n: nat, src: nat, d0: real, dist: seq<Dist>, path: seq<bool>, via: seq<seq<nat>>,
                     c: nat, dist': seq<Dist>)
    requires IsSquare(m, n) && LoopInvariant(m, n, src, d0, dist, path, via)
    requires IsClosest(dist, path, c) && |dist'| == n
    requires RelaxedThrough(m, n, c, dist, path[c := true], dist')
    ensures Frontier(m, n, dist', path[c := true])
  {
    var path' := path[c := true];
    forall p, u | 0 <= p < n && 0 <= u < n && path'[p] && !path'[u] && m[p][u] != 0.0
      ensures !Below(Plus(dist'[p], m[p][u]), dist'[u])
    {
      if p != c {
        assert path[p] && !path[u];
        assert !Below(Plus(dist[p], m[p][u]), dist[u]);
      }
    }
  }

  lemma SettledStep(m: Matrix, n: nat, src: nat, d0: real, dist: seq<Dist>, path: seq<bool>, via: seq<seq<nat>>,
                    c: nat, dist': seq<Dist>)
    requires IsSquare(m, n) && LoopInvariant(m, n, src, d0, dist, path, via) && NonNegative(m, n)
    requires IsClosest(dist, path, c) && |dist'| == n
    requires RelaxedThrough(m, n, c, dist, path[c := true], dist')
    ensures Settled(m, n, src, d0, dist', path[c := true])
  {
    ClosestIsSettled(m, n, src, d0, dist, path, via, c);
    var path' := path[c := true];
    forall v | 0 <= v < n && path'[v]
      ensures dist'[v].Fin? && NoShorterPath(m, n, src, v, dist'[v].val - d0)
    {
      assert dist'[v] == dist[v];
    }
  }

  /** One iteration of the outer loop (select c, mark it, relax from it) keeps the invariant. */
  lemma StepPreserves(m: Matrix, n: nat, src: nat, d0: real, dist: seq<Dist>, path: seq<bool>, via: seq<seq<nat>>,
                      c: nat, dist': seq<Dist>, via': seq<seq<nat>>)
    requires IsSquare(m, n) && LoopInvariant(m, n, src, d0, dist, path, via)
    requires IsClosest(dist, path, c) && |dist'| == n
    requires RelaxedThrough(m, n, c, dist, path[c := true], dist')
    requires |via| == n && |dist| == n && c < n && via' == Reroute(via, c, dist, dist')
    ensures LoopInvariant(m, n, src, d0, dist', path[c := true], via')
  {
    WitnessedStep(m, n, src, d0, dist, path, via, c, dist', via');
    FrontierStep(m, n, src, d0, dist, path, via, c, dist');
    if NonNegative(m, n) {
      SettledStep(m, n, src, d0, dist, path, via, c, dist');
    }
  }

  lemma {:induction false} VisitedCount(path: seq<bool>)
    ensures |Visited(path)| <= |path|
    ensures |Visited(path)| == |path| <==> forall v :: 0 <= v < |path| ==> path[v]
    decreases |path|
  {
    if |path| > 0 {
      var init := path[..|path| - 1];
      VisitedCount(init);
      var last := |path| - 1;
      if path[last] {
        assert Visited(path) == Visited(init) + {last};
        assert last !in Visited(init);
      } else {
        assert Visited(path) == Visited(init);
      }
    }
  }

  /** Walks from a visited node stay among visited nodes once every unvisited node is at infinity. */
  lemma {:induction false} WalkStaysVisited(m: Matrix, n: nat, dist: seq<Dist>, path: seq<bool>, p: seq<nat>)
    requires IsSquare(m, n) && |dist| == n && |path| == n && Frontier(m, n, dist, path)
    requires forall v :: 0 <= v < n && !path[v] ==> dist[v] == Inf
    requires IsPath(m, n, p) && path[p[0]]
    ensures path[p[|p| - 1]]
    decreases |p|
  {
    if |p| > 1 {
      var q := p[..|p| - 1];
      assert IsPath(m, n, q);
      WalkStaysVisited(m, n, dist, path, q);
      var x, y := p[|p| - 2], p[|p| - 1];
      assert path[x] && m[x][y] != 0.0;
    }
  }

  /**
   * When the selection finds no finite unvisited node before every node is visited, some
   * node cannot be reached from src.
   */
  lemma StuckMeansUnreachable(m: Matrix, n: nat, src: nat, d0: real, dist: seq<Dist>, path: seq<bool>, via: seq<seq<nat>>)
    requires IsSquare(m, n) && LoopInvariant(m, n, src, d0, dist, path, via)
    requires |Visited(path)| < n
    requires forall v :: 0 <= v < n && !path[v] ==> dist[v] == Inf
    ensures !AllReachable(m, n, src)
  {
    assert path[src];
    VisitedCount(path);
    var u :| 0 <= u < n && !path[u];
    forall p | PathFromTo(m, n, p, src, u) ensures false {
      WalkStaysVisited(m, n, dist, path, p);
    }
    assert !Reachable(m, n, src, u);
  }

  lemma VisitOne(path: seq<bool>, c: nat)
    requires c < |path| && !path[c]
    ensures |Visited(path[c := true])| == |Visited(path)| + 1
  {
    assert Visited(path[c := true]) == Visited(path) + {c};
  }

  lemma AllVisited(path: seq<bool>)
    requires |Visited(path)| == |path|
    ensures forall v :: 0 <= v < |path| ==> path[v]
  {
    VisitedCount(path);
  }

  /**
   * The source keeps its starting value d0. Before the first visit it is the only finite node;
   * afterwards it is visited, so relaxation never changes it.
   */
  ghost predicate SourceHeld(n: nat, src: nat, d0: real, first: bool, dist: seq<Dist>, path: seq<bool>) {
    && |dist| == n && |path| == n && src < n && dist[src] == Fin(d0)
    && (first ==> forall v :: 0 <= v < n && v != src ==> dist[v] == Inf)
    && (!first ==> path[src])
  }

  /** The first visit picks the source, and no later relaxation changes its distance. */
  lemma SourceStep(m: Matrix, n: nat, src: nat, d0: real, first: bool, dist: seq<Dist>, path: seq<bool>,
                   c: nat, dist': seq<Dist>)
    requires IsSquare(m, n) && SourceHeld(n, src, d0, first, dist, path) && IsClosest(dist, path, c)
    requires |dist'| == n && RelaxedThrough(m, n, c, dist, path[c := true], dist')
    ensures SourceHeld(n, src, d0, false, dist', path[c := true])
  {
    if first {
      assert c == src;
    }
    assert path[c := true][src];
  }

  /** The invariant of the outer loop after k visits. */
  ghost predicate OuterInvariant(m: Matrix, n: nat, src: nat, d0: real, k: nat, dist: seq<Dist>, path: seq<bool>,
                                 via: seq<seq<nat>>)
    requires IsSquare(m, n)
  {
    && LoopInvariant(m, n, src, d0, dist, path, via)
    && |Visited(path)| == k
    && SourceHeld(n, src, d0, k == 0, dist, path)
  }

  /** One visit of the outer loop: select c, mark it, relax through it. */
  lemma OuterStep(m: Matrix, n: nat, src: nat, d0: real, k: nat, dist: seq<Dist>, path: seq<bool>,
                  via: seq<seq<nat>>, c: nat, dist': seq<Dist>)
    requires IsSquare(m, n) && OuterInvariant(m, n, src, d0, k, dist, path, via)
    requires IsClosest(dist, path, c) && |dist'| == n
    requires RelaxedThrough(m, n, c, dist, path[c := true], dist')
    ensures OuterInvariant(m, n, src, d0, k + 1, dist', path[c := true], Reroute(via, c, dist, dist'))
  {
    StepPreserves(m, n, src, d0, dist, path, via, c, dist', Reroute(via, c, dist, dist'));
    SourceStep(m, n, src, d0, k == 0, dist, path, c, dist');
    VisitOne(path, c);
  }

  lemma InitialInvariant(m: Matrix, n: nat, src: nat, d0: real, dist: seq<Dist>, path: seq<bool>)
    requires IsSquare(m, n) && src < n && |dist| == n && |path| == n
    requires forall v :: 0 <= v < n ==> dist[v] == if v == src then Fin(d0) else Inf
    requires forall v :: 0 <= v < n ==> !path[v]
    ensures LoopInvariant(m, n, src, d0, dist, path, seq(n, _ => [src]))
    ensures Visited(path) == {}
    ensures SourceHeld(n, src, d0, true, dist, path)
  {
    assert PathFromTo(m, n, [src], src, src);
  }

  /** Once every node is visited the invariant gives the distances `dijkstra` returns. */
  lemma FinalDistances(m: Matrix, n: nat, src: nat, d0: real, dist: seq<Dist>, path: seq<bool>, via: seq<seq<nat>>)
    requires IsSquare(m, n) && LoopInvariant(m, n, src, d0, dist, path, via) && |Visited(path)| == n
    ensures AllReachable(m, n, src)
    ensures forall v :: 0 <= v < n ==> dist[v].Fin? && HasPathOfWeight(m, n, src, v, dist[v].val - d0)
    ensures NonNegative(m, n) ==> forall v :: 0 <= v < n ==> NoShorterPath(m, n, src, v, dist[v].val - d0)
    ensures NonNegative(m, n) ==> dist[src] == Fin(d0)
  {
    AllVisited(path);
    if NonNegative(m, n) {
      WeightNonNegative(m, n, via[src]);
      assert PathFromTo(m, n, [src], src, src);
    }
    forall v | 0 <= v < n
      ensures Reachable(m, n, src, v) && dist[v].Fin? && HasPathOfWeight(m, n, src, v, dist[v].val - d0)
    {
      assert PathFromTo(m, n, via[v], src, v);
    }
  }

  /**
   * `dijkstra`: distances from `src` to every node, measured from the self-loop weight of src
   * (0.0 without one).
   */
  method Dijkstra(g: DGraph, src: nat) returns (r: Result<seq<Dist>, DijkstraError>)
    requires g.Valid()
    // an invalid source is rejected by get_edge(src, src) before the loop
    ensures src >= g.nNodes ==> r == Err(EdgeError(InvalidSource(src)))
    // otherwise the call aborts exactly when some node cannot be reached from src
    ensures src < g.nNodes ==> (r.Ok? <==> AllReachable(g.adjMat, g.nNodes, src))
    ensures src < g.nNodes && r.Err? ==> r.error == PathIndexOutOfBounds(g.nNodes)
    // one finite entry per node, each d0 plus the weight of some walk from src
    ensures r.Ok? ==> src < g.nNodes && |r.value| == g.nNodes
    ensures r.Ok? ==> forall v :: 0 <= v < g.nNodes ==>
      r.value[v].Fin? &&
      HasPathOfWeight(g.adjMat, g.nNodes, src, v, r.value[v].val - StartDistance(g.adjMat, g.nNodes, src))
    // with non-negative weights that walk is a shortest one
    ensures r.Ok? && NonNegative(g.adjMat, g.nNodes) ==> forall v :: 0 <= v < g.nNodes ==>
      NoShorterPath(g.adjMat, g.nNodes, src, v, r.value[v].val - StartDistance(g.adjMat, g.nNodes, src))
    // and the source itself keeps its starting value, the self-loop weight or 0.0: it is the
    // only finite node at first, so it is visited first and relaxation never touches it again
    ensures r.Ok? ==> r.value[src] == Fin(StartDistance(g.adjMat, g.nNodes, src))
  {
    var n := g.NNodes();
    var dist := new Dist[n](_ => Inf);
    var path := new bool[n](_ => false);
    var e := g.GetEdge(src, src);
    if e.Err? {
      return Err(EdgeError(e.error));
    }
    ghost var m := g.adjMat;
    ghost var d0 := StartDistance(m, n, src);
    dist[src] := Fin(e.value.GetOr(0.0));
    ghost var via: seq<seq<nat>> := seq(n, _ => [src]);
    InitialInvariant(m, n, src, d0, dist[..], path[..]);
    assert OuterInvariant(m, n, src, d0, 0, dist[..], path[..], via);

    for k := 0 to n
      invariant g.adjMat == m && g.nNodes == n
      invariant OuterInvariant(m, n, src, d0, k, dist[..], path[..], via)
    {
      var c := MinDistanceNode(g, dist[..], path[..]);
      if c >= n {
        StuckMeansUnreachable(m, n, src, d0, dist[..], path[..], via);
        return Err(PathIndexOutOfBounds(c));
      }
      ghost var dist0, path0 := dist[..], path[..];
      path[c] := true;
      Relax(g, c, dist, path);
      assert path[..] == path0[c := true];
      OuterStep(m, n, src, d0, k, dist0, path0, via, c, dist[..]);
      via := Reroute(via, c, dist0, dist[..]);
    }

    FinalDistances(m, n, src, d0, dist[..], path[..], via);
    return Ok(dist[..]);
  }
}
