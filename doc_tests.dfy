/**
 * The doc-test and unit-test scenarios of the library, checked against the contracts alone.
 */
module DocTests {
  import opened Results
  import opened DirectedGraph
  import opened Dijkstra

  /** In a graph whose edges all weigh 1.0 a walk weighs its number of edges. */
  lemma {:induction false} UnitWalkWeight(m: Matrix, n: nat, p: seq<nat>)
    requires IsSquare(m, n) && IsPath(m, n, p)
    requires forall i, j :: 0 <= i < n && 0 <= j < n ==> m[i][j] == 0.0 || m[i][j] == 1.0
    ensures PathWeight(m, n, p) == (|p| - 1) as real
    decreases |p|
  {
    if |p| > 1 {
      var q := p[..|p| - 1];
      assert IsPath(m, n, q);
      UnitWalkWeight(m, n, q);
    }
  }

  /** Without edges no walk leaves its first node. */
  lemma NoEdgesNoWalk(m: Matrix, n: nat, p: seq<nat>, s: nat, d: nat)
    requires IsSquare(m, n) && s != d
    requires forall i, j :: 0 <= i < n && 0 <= j < n ==> m[i][j] == 0.0
    ensures !PathFromTo(m, n, p, s, d)
  {
    if |p| > 1 && p[0] < n && p[1] < n {
      assert m[p[0]][p[1]] == 0.0;
    }
  }

  /** The weight matrix of the documentation example of `dijkstra`: edges (0,1), (1,2), (2,2). */
  ghost predicate DocMatrix(m: Matrix) {
    && IsSquare(m, 3)
    && (forall i, j :: 0 <= i < 3 && 0 <= j < 3 ==> m[i][j] == 0.0 || m[i][j] == 1.0)
    && m[0][1] == 1.0 && m[1][2] == 1.0 && m[2][2] == 1.0
    && m[0][0] == 0.0 && m[0][2] == 0.0
  }

  /** In the example graph every walk from 0 to v has more than v nodes. */
  lemma DocWalkLength(m: Matrix, p: seq<nat>, v: nat)
    requires DocMatrix(m) && v < 3 && PathFromTo(m, 3, p, 0, v)
    ensures |p| > v
  {
    if |p| == 2 {
      assert m[p[0]][p[1]] != 0.0;
    }
  }

  /** The distances `dijkstra` promises on the example graph are 0, 1 and 2. */
  lemma DocDistances(m: Matrix, d: seq<Dist>)
    requires DocMatrix(m) && |d| == 3
    requires forall v :: 0 <= v < 3 ==> d[v].Fin? && HasPathOfWeight(m, 3, 0, v, d[v].val)
    requires forall v :: 0 <= v < 3 ==> NoShorterPath(m, 3, 0, v, d[v].val)
    ensures d == [Fin(0.0), Fin(1.0), Fin(2.0)]
  {
    forall v | 0 <= v < 3 ensures d[v] == Fin(v as real) {
      var p :| PathFromTo(m, 3, p, 0, v) && PathWeight(m, 3, p) == d[v].val;
      var q: seq<nat> := if v == 0 then [0] else if v == 1 then [0, 1] else [0, 1, 2];
      assert PathFromTo(m, 3, q, 0, v);
      UnitWalkWeight(m, 3, p);
      UnitWalkWeight(m, 3, q);
      DocWalkLength(m, p, v);
    }
  }

  /** The example of `dijkstra`'s documentation: edges (0,1), (1,2), (2,2) from 0 give [0, 1, 2]. */
  method DijkstraDocExample() {
    var edges := [(0, 1), (1, 2), (2, 2)];
    EdgeMatrixOk(3, edges);
    var built := DGraph.FromEdges(3, edges);
    EdgeMatrixCells(3, edges);
    var g := built.value;
    assert DocMatrix(g.adjMat);
    assert PathFromTo(g.adjMat, 3, [0], 0, 0) && PathFromTo(g.adjMat, 3, [0, 1], 0, 1);
    assert PathFromTo(g.adjMat, 3, [0, 1, 2], 0, 2);
    var r := Dijkstra.Dijkstra(g, 0);
    assert r.Ok?;
    DocDistances(g.adjMat, r.value);
    assert r.value == [Fin(0.0), Fin(1.0), Fin(2.0)];
  }

  /** `from_edges(2, [(0, 1), (2, 0)])` rejects node 2; `[(0,1), (1,2), (1,2)]` on 3 nodes is a repeat. */
  method EdgeListErrors() {
    var bad := [(0, 1), (2, 0)];
    assert AcceptedAt(Zeros(2), 2, UnitWeights(bad), 0);
    WeightedEdgeMatrixError(2, UnitWeights(bad), 1);
    var r := DGraph.FromEdges(2, bad);
    assert r == Err(InvalidEdge(2, 0));

    var twice := [(0, 1), (1, 2), (1, 2)];
    var ws := UnitWeights(twice);
    assert ws[..1] == [(0, 1, 1.0)] && ws[..2] == [(0, 1, 1.0), (1, 2, 1.0)];
    assert AcceptedAt(Zeros(3), 3, ws, 0) && AcceptedAt(Zeros(3), 3, ws, 1);
    WeightedEdgeMatrixError(3, ws, 2);
    var r2 := DGraph.FromEdges(3, twice);
    assert r2 == Err(RepeatedEdge(1, 2));
  }

  /** A repeat that follows a 0.0-weight listing of the same pair is not caught. */
  method ZeroWeightRepeatAccepted() {
    var edges: seq<WeightedEdge> := [(0, 1, 0.0), (0, 1, 2.5)];
    WeightedEdgeMatrixOk(2, edges);
    var r := DGraph.FromWeightedEdges(2, edges);
    assert r.Ok?;
    WeightedEdgeMatrixCells(2, edges);
    assert r.value.GetEdge(0, 1) == Ok(Some(2.5));
  }

  /** A self-loop on the source moves every distance by its weight: dist[src] is 3.0, not 0.0. */
  method SelfLoopOnSource() {
    var edges: seq<WeightedEdge> := [(0, 0, 3.0), (0, 1, 1.0)];
    WeightedEdgeMatrixOk(2, edges);
    var built := DGraph.FromWeightedEdges(2, edges);
    WeightedEdgeMatrixCells(2, edges);
    var g := built.value;
    assert PathFromTo(g.adjMat, 2, [0], 0, 0) && PathFromTo(g.adjMat, 2, [0, 1], 0, 1);
    var r := Dijkstra.Dijkstra(g, 0);
    assert r.Ok? && r.value[0] == Fin(3.0);
  }

  /** `add_edge` on two existing nodes always writes its cell, and leaves the reverse edge alone. */
  method AddEdgeOnValidNodes() {
    var g := new DGraph();
    g.AddNode();
    g.AddNode();
    var o := g.AddEdge(0, 1);
    assert o == Pass;
    assert g.GetEdge(0, 1) == Ok(Some(1.0)) && g.GetEdge(1, 0) == Ok(None);
    var o2 := g.AddWeightedEdge(1, 0, 2.5);
    assert o2 == Pass && g.GetEdge(1, 0) == Ok(Some(2.5)) && g.GetEdge(0, 1) == Ok(Some(1.0));
  }

  /** A node nobody can reach makes the call abort at `path[n_nodes]`. */
  method UnreachableNodeAborts() {
    var g := DGraph.FromEdges(2, []);
    EdgeMatrixOk(2, []);
    EdgeMatrixCells(2, []);
    var h := g.value;
    forall p ensures !PathFromTo(h.adjMat, 2, p, 0, 1) {
      NoEdgesNoWalk(h.adjMat, 2, p, 0, 1);
    }
    assert !Reachable(h.adjMat, 2, 0, 1);
    var r := Dijkstra.Dijkstra(h, 0);
    assert r == Err(PathIndexOutOfBounds(2));
  }
}
