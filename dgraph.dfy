/**
 * The dense directed graph of src/dgraph.rs: `n_nodes` nodes named 0 .. n_nodes-1 and an
 * `n_nodes x n_nodes` weight matrix in which 0.0 means "no edge".  Every panic of the
 * library becomes an explicit `GraphError`.
 */
module DirectedGraph {
  import opened Results

  /** `m[i][j]` is the weight of the edge i -> j; 0.0 means there is no such edge. */
  type Matrix = seq<seq<real>>

  /** An edge of `from_weighted_edges`: `(src, dest, weight)`. */
  type WeightedEdge = (nat, nat, real)

  /** The panics of src/dgraph.rs, one constructor per message. */
  datatype GraphError =
    | InvalidEdge(src: nat, dest: nat)      // an edge-list endpoint is not a node
    | RepeatedEdge(src: nat, dest: nat)     // the target cell of an edge-list entry is already set
    | NotSquared                            // an adjacency matrix whose rows are not all |rows| long
    | InvalidNode(node: nat)                // a neighbour query about a node that does not exist
    | InvalidSource(src: nat)               // get_edge / add_edge / add_weighted_edge: bad source
    | InvalidDestination(dest: nat)         // get_edge / add_edge / add_weighted_edge: bad destination

  /** The representation invariant: `n` rows of `n` cells each. */
  ghost predicate IsSquare(m: Matrix, n: nat) {
    |m| == n && forall i :: 0 <= i < n ==> |m[i]| == n
  }

  /** Strictly ascending, hence also free of duplicates. */
  predicate Ascending(s: seq<nat>) {
    forall i, j :: 0 <= i < j < |s| ==> s[i] < s[j]
  }

  /** `vec![vec![0.0; n]; n]`: the matrix of a graph with `n` nodes and no edge. */
  function Zeros(n: nat): (m: Matrix)
    ensures IsSquare(m, n)
    ensures forall i, j :: 0 <= i < n && 0 <= j < n ==> m[i][j] == 0.0
  {
    seq(n, _ => seq(n, _ => 0.0))
  }

  /** `adj_mat[s][d] = w`: the matrix with one cell overwritten. */
  function SetCell(m: Matrix, n: nat, s: nat, d: nat, w: real): (r: Matrix)
    requires IsSquare(m, n) && s < n && d < n
    ensures IsSquare(r, n)
    ensures r[s][d] == w
    ensures forall i, j :: 0 <= i < n && 0 <= j < n && (i != s || j != d) ==> r[i][j] == m[i][j]
  {
    m[s := m[s][d := w]]
  }

  /** `(0..n).collect()`: the nodes in ascending order. */
  function Range(n: nat): (r: seq<nat>)
    ensures |r| == n
    ensures forall i :: 0 <= i < n ==> r[i] == i
    ensures forall v :: v in r <==> 0 <= v < n
  {
    if n == 0 then []
    else
      var r := Range(n - 1) + [n - 1];
      assert forall v :: 0 <= v < n ==> r[v] == v && r[v] in r;
      r
  }

  /**
   * `row.iter().enumerate().filter(|(_, w)| w != 0.0).map(|(idx, _)| idx)`, restricted to the
   * indices from `k` on.
   */
  function NonZeroIndices(row: seq<real>, k: nat): (r: seq<nat>)
    requires k <= |row|
    ensures Ascending(r)
    ensures forall j :: j in r <==> k <= j < |row| && row[j] != 0.0
    decreases |row| - k
  {
    if k == |row| then []
    else
      var rest := NonZeroIndices(row, k + 1);
      assert forall i :: 0 <= i < |rest| ==> rest[i] in rest;
      if row[k] != 0.0 then [k] + rest else rest
  }

  /** Column `v` of `m`: the weights of the edges into `v`. */
  function Column(m: Matrix, n: nat, v: nat): seq<real>
    requires IsSquare(m, n) && v < n
  {
    seq(n, i requires 0 <= i < n => m[i][v])
  }

  // ---------------------------------------------------------------------------
  // Edge-list construction (from_edges, from_weighted_edges)
  // ---------------------------------------------------------------------------

  /** The edges of `from_edges`, each with the weight 1.0 it writes. */
  function UnitWeights(edges: seq<(nat, nat)>): seq<WeightedEdge>
  {
    seq(|edges|, i requires 0 <= i < |edges| => (edges[i].0, edges[i].1, 1.0))
  }

  /**
   * The constructors' loop as a fold over the edge list, starting from matrix `m`: each edge
   * is rejected if an endpoint is out of range, then if its cell is already non-zero, and is
   * otherwise written into its cell.
   */
  function InsertEdges(m: Matrix, n: nat, edges: seq<WeightedEdge>): (r: Result<Matrix, GraphError>)
    requires IsSquare(m, n)
    ensures r.Ok? ==> IsSquare(r.value, n)
    decreases |edges|
  {
    if edges == [] then Ok(m)
    else
      var (s, d, w) := edges[0];
      if s >= n || d >= n then Err(InvalidEdge(s, d))
      else if m[s][d] != 0.0 then Err(RepeatedEdge(s, d))
      else InsertEdges(SetCell(m, n, s, d, w), n, edges[1..])
  }

  /** What `from_weighted_edges(n, edges)` builds, or the panic it raises. */
  function WeightedEdgeMatrix(n: nat, edges: seq<WeightedEdge>): (r: Result<Matrix, GraphError>)
    ensures r.Ok? ==> IsSquare(r.value, n)
  {
    InsertEdges(Zeros(n), n, edges)
  }

  /**
   * The weight of the last edge of `edges` from `s` to `d`, or `default` if there is none:
   * the value the fold leaves in cell (s, d).
   */
  function LastWeight(edges: seq<WeightedEdge>, s: nat, d: nat, default: real): real
    decreases |edges|
  {
    if edges == [] then default
    else if edges[|edges| - 1].0 == s && edges[|edges| - 1].1 == d then edges[|edges| - 1].2
    else LastWeight(edges[..|edges| - 1], s, d, default)
  }

  /** Edge `i` passes both checks when the fold reaches it: the cell it targets is still 0.0. */
  ghost predicate AcceptedAt(m: Matrix, n: nat, edges: seq<WeightedEdge>, i: nat)
    requires IsSquare(m, n) && i < |edges|
  {
    var (s, d, _) := edges[i];
    s < n && d < n && LastWeight(edges[..i], s, d, m[s][d]) == 0.0
  }

  ghost predicate AllAccepted(m: Matrix, n: nat, edges: seq<WeightedEdge>)
    requires IsSquare(m, n)
  {
    forall i :: 0 <= i < |edges| ==> AcceptedAt(m, n, edges, i)
  }

  /** Every endpoint of every listed edge is a node. */
  ghost predicate EndpointsInRange(n: nat, edges: seq<WeightedEdge>) {
    forall i :: 0 <= i < |edges| ==> edges[i].0 < n && edges[i].1 < n
  }

  /**
   * The repeat check only sees a non-zero cell, so a pair may be listed again exactly when
   * every earlier listing of it carried weight 0.0.
   */
  ghost predicate OnlyZeroWeightsRepeated(edges: seq<WeightedEdge>) {
    forall i, j :: 0 <= i < j < |edges| && edges[i].0 == edges[j].0 && edges[i].1 == edges[j].1 ==>
      edges[i].2 == 0.0
  }

  /** No (src, dest) pair is listed twice. */
  ghost predicate NoRepeatedPair(edges: seq<(nat, nat)>) {
    forall i, j :: 0 <= i < j < |edges| ==> edges[i] != edges[j]
  }

  lemma {:induction false} LastWeightCons(m: Matrix, n: nat, e: WeightedEdge, t: seq<WeightedEdge>, s: nat, d: nat)
    requires IsSquare(m, n) && e.0 < n && e.1 < n && s < n && d < n
    ensures LastWeight([e] + t, s, d, m[s][d]) == LastWeight(t, s, d, SetCell(m, n, e.0, e.1, e.2)[s][d])
    decreases |t|
  {
    if t != [] {
      assert ([e] + t)[..|t|] == [e] + t[..|t| - 1];
      LastWeightCons(m, n, e, t[..|t| - 1], s, d);
    }
  }

  /** The fold's verdict edge by edge: it succeeds exactly when every edge passes its checks. */
  lemma {:induction false} InsertEdgesOk(m: Matrix, n: nat, edges: seq<WeightedEdge>)
    requires IsSquare(m, n)
    ensures InsertEdges(m, n, edges).Ok? <==> AllAccepted(m, n, edges)
    decreases |edges|
  {
    if edges != [] {
      var (s, d, w) := edges[0];
      assert edges[..0] == [];
      if s < n && d < n && m[s][d] == 0.0 {
        var m' := SetCell(m, n, s, d, w);
        var rest := edges[1..];
        InsertEdgesOk(m', n, rest);
        forall i | 0 <= i < |rest|
          ensures AcceptedAt(m, n, edges, i + 1) <==> AcceptedAt(m', n, rest, i)
        {
          var (s1, d1, _) := rest[i];
          assert edges[i + 1] == rest[i];
          if s1 < n && d1 < n {
            assert edges[..i + 1] == [edges[0]] + rest[..i];
            LastWeightCons(m, n, edges[0], rest[..i], s1, d1);
          }
        }
        if AllAccepted(m', n, rest) {
          forall i | 0 <= i < |edges| ensures AcceptedAt(m, n, edges, i) {
            if i > 0 { assert AcceptedAt(m', n, rest, i - 1); }
          }
        }
        if AllAccepted(m, n, edges) {
          forall i | 0 <= i < |rest| ensures AcceptedAt(m', n, rest, i) {
            assert AcceptedAt(m, n, edges, i + 1);
          }
        }
      } else {
        assert !AcceptedAt(m, n, edges, 0);
      }
    }
  }

  /** The fold's result holds, in each cell, the weight of the last edge listed for it. */
  lemma {:induction false} InsertEdgesCells(m: Matrix, n: nat, edges: seq<WeightedEdge>)
    requires IsSquare(m, n) && InsertEdges(m, n, edges).Ok?
    ensures forall s, d :: 0 <= s < n && 0 <= d < n ==>
      InsertEdges(m, n, edges).value[s][d] == LastWeight(edges, s, d, m[s][d])
    decreases |edges|
  {
    if edges != [] {
      var (s0, d0, w0) := edges[0];
      var m' := SetCell(m, n, s0, d0, w0);
      var rest := edges[1..];
      InsertEdgesCells(m', n, rest);
      assert edges == [edges[0]] + rest;
      forall s, d | 0 <= s < n && 0 <= d < n
        ensures InsertEdges(m, n, edges).value[s][d] == LastWeight(edges, s, d, m[s][d])
      {
        LastWeightCons(m, n, edges[0], rest, s, d);
      }
    }
  }

  /** If the first rejected edge is `i`, the fold fails with the error of the check it fails. */
  lemma {:induction false} InsertEdgesFirstError(m: Matrix, n: nat, edges: seq<WeightedEdge>, i: nat)
    requires IsSquare(m, n) && i < |edges|
    requires forall k :: 0 <= k < i ==> AcceptedAt(m, n, edges, k)
    requires !AcceptedAt(m, n, edges, i)
    ensures InsertEdges(m, n, edges) ==
      if edges[i].0 >= n || edges[i].1 >= n then Err(InvalidEdge(edges[i].0, edges[i].1))
      else Err(RepeatedEdge(edges[i].0, edges[i].1))
    decreases |edges|
  {
    var (s, d, w) := edges[0];
    assert edges[..0] == [];
    if i > 0 {
      assert AcceptedAt(m, n, edges, 0);
      var m' := SetCell(m, n, s, d, w);
      var rest := edges[1..];
      forall k | 0 <= k < |rest| && edges[k + 1].0 < n && edges[k + 1].1 < n
        ensures LastWeight(edges[..k + 1], rest[k].0, rest[k].1, m[rest[k].0][rest[k].1])
             == LastWeight(rest[..k], rest[k].0, rest[k].1, m'[rest[k].0][rest[k].1])
      {
        assert edges[..k + 1] == [edges[0]] + rest[..k];
        LastWeightCons(m, n, edges[0], rest[..k], rest[k].0, rest[k].1);
      }
      forall k | 0 <= k < i - 1 ensures AcceptedAt(m', n, rest, k) {
        assert AcceptedAt(m, n, edges, k + 1);
      }
      assert !AcceptedAt(m', n, rest, i - 1);
      InsertEdgesFirstError(m', n, rest, i - 1);
    }
  }

  lemma {:induction false} LastWeightOfZeroRepeats(edges: seq<WeightedEdge>, s: nat, d: nat)
    requires forall j :: 0 <= j < |edges| && edges[j].0 == s && edges[j].1 == d ==> edges[j].2 == 0.0
    ensures LastWeight(edges, s, d, 0.0) == 0.0
    decreases |edges|
  {
    if edges != [] {
      LastWeightOfZeroRepeats(edges[..|edges| - 1], s, d);
    }
  }

  lemma {:induction false} LastWeightIsLastListing(edges: seq<WeightedEdge>, i: nat, default: real)
    requires i < |edges|
    requires forall k :: i < k < |edges| ==> edges[k].0 != edges[i].0 || edges[k].1 != edges[i].1
    ensures LastWeight(edges, edges[i].0, edges[i].1, default) == edges[i].2
    decreases |edges|
  {
    if i < |edges| - 1 {
      LastWeightIsLastListing(edges[..|edges| - 1], i, default);
    }
  }

  /** A non-zero listing followed by a repeat of its pair makes the repeat fail its check. */
  lemma {:induction false} NonZeroRepeatRejected(n: nat, edges: seq<WeightedEdge>, i: nat, j: nat)
    requires i < j < |edges| && edges[i].0 == edges[j].0 && edges[i].1 == edges[j].1
    requires edges[i].2 != 0.0
    ensures !AllAccepted(Zeros(n), n, edges)
    decreases j - i
  {
    if k :| i < k < j && edges[k].0 == edges[i].0 && edges[k].1 == edges[i].1 {
      NonZeroRepeatRejected(n, edges, i, k);
    } else {
      LastWeightIsLastListing(edges[..j], i, 0.0);
      assert !AcceptedAt(Zeros(n), n, edges, j);
    }
  }

  /**
   * `from_weighted_edges` succeeds exactly when every endpoint is a node and a pair is only
   * ever repeated after listings of weight 0.0 (the repeat check tests for a non-zero cell).
   */
  lemma WeightedEdgeMatrixOk(n: nat, edges: seq<WeightedEdge>)
    ensures WeightedEdgeMatrix(n, edges).Ok? <==> EndpointsInRange(n, edges) && OnlyZeroWeightsRepeated(edges)
  {
    InsertEdgesOk(Zeros(n), n, edges);
    if EndpointsInRange(n, edges) && OnlyZeroWeightsRepeated(edges) {
      forall i | 0 <= i < |edges| ensures AcceptedAt(Zeros(n), n, edges, i) {
        LastWeightOfZeroRepeats(edges[..i], edges[i].0, edges[i].1);
      }
    }
    if AllAccepted(Zeros(n), n, edges) {
      forall i | 0 <= i < |edges| ensures edges[i].0 < n && edges[i].1 < n {
        assert AcceptedAt(Zeros(n), n, edges, i);
      }
      forall i, j | 0 <= i < j < |edges| && edges[i].0 == edges[j].0 && edges[i].1 == edges[j].1
        ensures edges[i].2 == 0.0
      {
        if edges[i].2 != 0.0 { NonZeroRepeatRejected(n, edges, i, j); }
      }
    }
  }

  /**
   * On success, `from_weighted_edges` sets cell (s, d) to the weight of the last edge listed
   * from s to d, and leaves every unlisted cell at 0.0.
   */
  lemma WeightedEdgeMatrixCells(n: nat, edges: seq<WeightedEdge>)
    requires WeightedEdgeMatrix(n, edges).Ok?
    ensures forall s, d :: 0 <= s < n && 0 <= d < n ==>
      WeightedEdgeMatrix(n, edges).value[s][d] == LastWeight(edges, s, d, 0.0)
  {
    InsertEdgesCells(Zeros(n), n, edges);
  }

  /** The error `from_weighted_edges` raises is the one of the first edge that fails a check. */
  lemma WeightedEdgeMatrixError(n: nat, edges: seq<WeightedEdge>, i: nat)
    requires i < |edges|
    requires forall k :: 0 <= k < i ==> AcceptedAt(Zeros(n), n, edges, k)
    requires !AcceptedAt(Zeros(n), n, edges, i)
    ensures WeightedEdgeMatrix(n, edges) ==
      if edges[i].0 >= n || edges[i].1 >= n then Err(InvalidEdge(edges[i].0, edges[i].1))
      else Err(RepeatedEdge(edges[i].0, edges[i].1))
  {
    InsertEdgesFirstError(Zeros(n), n, edges, i);
  }

  lemma {:induction false} LastUnitWeight(edges: seq<(nat, nat)>, s: nat, d: nat)
    ensures LastWeight(UnitWeights(edges), s, d, 0.0) == if (s, d) in edges then 1.0 else 0.0
    decreases |edges|
  {
    if edges != [] {
      var init := edges[..|edges| - 1];
      assert UnitWeights(edges)[..|edges| - 1] == UnitWeights(init);
      assert edges == init + [edges[|edges| - 1]];
      LastUnitWeight(init, s, d);
    }
  }

  /**
   * `from_edges` succeeds exactly when every endpoint is a node and no pair is listed twice
   * (its weight 1.0 is never 0.0, so every repeat is caught).
   */
  lemma EdgeMatrixOk(n: nat, edges: seq<(nat, nat)>)
    ensures WeightedEdgeMatrix(n, UnitWeights(edges)).Ok? <==>
      (forall i :: 0 <= i < |edges| ==> edges[i].0 < n && edges[i].1 < n) && NoRepeatedPair(edges)
  {
    var ws := UnitWeights(edges);
    assert |ws| == |edges| && forall i :: 0 <= i < |ws| ==> ws[i] == (edges[i].0, edges[i].1, 1.0);
    WeightedEdgeMatrixOk(n, ws);
    if NoRepeatedPair(edges) {
      assert OnlyZeroWeightsRepeated(ws);
    }
    if OnlyZeroWeightsRepeated(ws) {
      forall i, j | 0 <= i < j < |edges| ensures edges[i] != edges[j] {
        assert ws[i].2 == 1.0;
      }
    }
  }

  /** On success, `from_edges` puts 1.0 in the cell of each listed pair and 0.0 everywhere else. */
  lemma EdgeMatrixCells(n: nat, edges: seq<(nat, nat)>)
    requires WeightedEdgeMatrix(n, UnitWeights(edges)).Ok?
    ensures forall s, d :: 0 <= s < n && 0 <= d < n ==>
      WeightedEdgeMatrix(n, UnitWeights(edges)).value[s][d] == if (s, d) in edges then 1.0 else 0.0
  {
    WeightedEdgeMatrixCells(n, UnitWeights(edges));
    forall s, d | 0 <= s < n && 0 <= d < n
      ensures LastWeight(UnitWeights(edges), s, d, 0.0) == if (s, d) in edges then 1.0 else 0.0
    {
      LastUnitWeight(edges, s, d);
    }
  }

  // ---------------------------------------------------------------------------
  // The graph object
  // ---------------------------------------------------------------------------

  class DGraph {
    var nNodes: nat
    var adjMat: Matrix

    ghost predicate Valid()
      reads this
    {
      IsSquare(adjMat, nNodes)
    }

    /** `DGraph::new`: no node, empty matrix. */
    constructor ()
      ensures Valid() && nNodes == 0 && adjMat == []
    {
      nNodes := 0;
      adjMat := [];
    }

    /** The struct literal `DGraph { n_nodes, adj_mat }` that ends each constructor. */
    constructor Init(n: nat, m: Matrix)
      requires IsSquare(m, n)
      ensures Valid() && nNodes == n && adjMat == m
    {
      nNodes := n;
      adjMat := m;
    }

    /** `DGraph::from_edges`: every listed pair gets weight 1.0. */
    static method FromEdges(n: nat, edges: seq<(nat, nat)>) returns (r: Result<DGraph, GraphError>)
      ensures match WeightedEdgeMatrix(n, UnitWeights(edges))
        case Err(e) => r == Err(e)
        case Ok(m) => r.Ok? && fresh(r.value) && r.value.Valid() && r.value.nNodes == n && r.value.adjMat == m
    {
      var ws := UnitWeights(edges);
      var adj := Zeros(n);
      for i := 0 to |edges|
        invariant IsSquare(adj, n)
        invariant InsertEdges(adj, n, ws[i..]) == WeightedEdgeMatrix(n, ws)
      {
        var (s, d) := edges[i];
        assert ws[i..][0] == (s, d, 1.0) && ws[i..][1..] == ws[i + 1..];
        if s >= n || d >= n {
          return Err(InvalidEdge(s, d));
        }
        if adj[s][d] != 0.0 {
          return Err(RepeatedEdge(s, d));
        }
        adj := adj[s := adj[s][d := 1.0]];
      }
      assert ws[|edges|..] == [];
      var g := new DGraph.Init(n, adj);
      return Ok(g);
    }

    /** `DGraph::from_weighted_edges`: every listed edge gets its own weight. */
    static method FromWeightedEdges(n: nat, edges: seq<WeightedEdge>) returns (r: Result<DGraph, GraphError>)
      ensures match WeightedEdgeMatrix(n, edges)
        case Err(e) => r == Err(e)
        case Ok(m) => r.Ok? && fresh(r.value) && r.value.Valid() && r.value.nNodes == n && r.value.adjMat == m
    {
      var adj := Zeros(n);
      for i := 0 to |edges|
        invariant IsSquare(adj, n)
        invariant InsertEdges(adj, n, edges[i..]) == WeightedEdgeMatrix(n, edges)
      {
        var (s, d, w) := edges[i];
        assert edges[i..][0] == edges[i] && edges[i..][1..] == edges[i + 1..];
        if s >= n || d >= n {
          return Err(InvalidEdge(s, d));
        }
        if adj[s][d] != 0.0 {
          return Err(RepeatedEdge(s, d));
        }
        adj := adj[s := adj[s][d := w]];
      }
      assert edges[|edges|..] == [];
      var g := new DGraph.Init(n, adj);
      return Ok(g);
    }

    /** `DGraph::from_adjacency_matrix`: takes the matrix as it is once every row is checked. */
    static method FromAdjacencyMatrix(m: Matrix) returns (r: Result<DGraph, GraphError>)
      ensures r.Err? <==> !IsSquare(m, |m|)
      ensures r.Err? ==> r.error == NotSquared
      ensures r.Ok? ==> fresh(r.value) && r.value.Valid() && r.value.nNodes == |m| && r.value.AdjacencyMatrix() == m
    {
      var n := |m|;
      for i := 0 to n
        invariant forall k :: 0 <= k < i ==> |m[k]| == n
      {
        if |m[i]| != n {
          return Err(NotSquared);
        }
      }
      var g := new DGraph.Init(n, m);
      return Ok(g);
    }

    /** `get_n_nodes`: the number of nodes, which is also the number of matrix rows. */
    function NNodes(): (n: nat)
      reads this
      requires Valid()
      ensures n == |adjMat| && forall i :: 0 <= i < |adjMat| ==> |adjMat[i]| == n
    {
      nNodes
    }

    /** `get_nodes`: 0, 1, ..., n_nodes - 1. */
    function Nodes(): (r: seq<nat>)
      reads this
      ensures |r| == nNodes && Ascending(r)
      ensures forall v :: v in r <==> 0 <= v < nNodes
    {
      Range(nNodes)
    }

    /** `get_adjacency_matrix`: a read-only view of the whole matrix. */
    function AdjacencyMatrix(): (r: Matrix)
      reads this
      requires Valid()
      ensures IsSquare(r, nNodes)
      ensures forall i, j :: 0 <= i < nNodes && 0 <= j < nNodes ==> GetEdge(i, j) == Ok(if r[i][j] != 0.0 then Some(r[i][j]) else None)
    {
      adjMat
    }

    /** `get_edge`: the weight of src -> dest, `None` for a 0.0 cell; the source is checked first. */
    function GetEdge(src: nat, dest: nat): (r: Result<Option<real>, GraphError>)
      reads this
      requires Valid()
      ensures src >= nNodes ==> r == Err(InvalidSource(src))
      ensures src < nNodes && dest >= nNodes ==> r == Err(InvalidDestination(dest))
      ensures r.Ok? <==> src < nNodes && dest < nNodes
      ensures r.Ok? ==> (r.value.Some? <==> adjMat[src][dest] != 0.0)
      ensures r.Ok? && r.value.Some? ==> r.value.value == adjMat[src][dest]
    {
      if src >= nNodes then Err(InvalidSource(src))
      else if dest >= nNodes then Err(InvalidDestination(dest))
      else if adjMat[src][dest] != 0.0 then Ok(Some(adjMat[src][dest]))
      else Ok(None)
    }

    /** `get_successors_of`: the ascending list of nodes `node` has an edge to. */
    function SuccessorsOf(node: nat): (r: Result<seq<nat>, GraphError>)
      reads this
      requires Valid()
      ensures r.Err? <==> node >= nNodes
      ensures r.Err? ==> r.error == InvalidNode(node)
      ensures r.Ok? ==> Ascending(r.value)
      ensures r.Ok? ==> forall j :: j in r.value <==> 0 <= j < nNodes && adjMat[node][j] != 0.0
    {
      if node >= nNodes then Err(InvalidNode(node))
      else Ok(NonZeroIndices(adjMat[node], 0))
    }

    /** `get_predecessors_of`: the ascending list of nodes that have an edge to `node`. */
    function PredecessorsOf(node: nat): (r: Result<seq<nat>, GraphError>)
      reads this
      requires Valid()
      ensures r.Err? <==> node >= nNodes
      ensures r.Err? ==> r.error == InvalidNode(node)
      ensures r.Ok? ==> Ascending(r.value)
      ensures r.Ok? ==> forall i :: i in r.value <==> 0 <= i < nNodes && adjMat[i][node] != 0.0
    {
      if node >= nNodes then Err(InvalidNode(node))
      else Ok(NonZeroIndices(Column(adjMat, nNodes, node), 0))
    }

    /** `add_node`: one more node, with a zero row and a zero column; every old cell is kept. */
    method AddNode()
      requires Valid()
      modifies this
      ensures Valid()
      ensures nNodes == old(nNodes) + 1
      ensures forall i, j :: 0 <= i < old(nNodes) && 0 <= j < old(nNodes) ==> adjMat[i][j] == old(adjMat[i][j])
      ensures forall k :: 0 <= k < nNodes ==> adjMat[k][old(nNodes)] == 0.0 && adjMat[old(nNodes)][k] == 0.0
    {
      for i := 0 to |adjMat|
        invariant nNodes == old(nNodes) && |adjMat| == nNodes
        invariant forall k :: 0 <= k < i ==> adjMat[k] == old(adjMat[k]) + [0.0]
        invariant forall k :: i <= k < nNodes ==> adjMat[k] == old(adjMat[k])
      {
        adjMat := adjMat[i := adjMat[i] + [0.0]];
      }
      nNodes := nNodes + 1;
      adjMat := adjMat + [seq(nNodes, _ => 0.0)];
    }

    /** `add_edge`: checks both nodes (source first), then sets src -> dest to 1.0 and nothing else. */
    method AddEdge(src: nat, dest: nat) returns (o: Outcome<GraphError>)
      requires Valid()
      modifies this
      ensures Valid() && nNodes == old(nNodes)
      ensures src >= nNodes ==> o == Fail(InvalidSource(src))
      ensures src < nNodes && dest >= nNodes ==> o == Fail(InvalidDestination(dest))
      ensures o.Pass? <==> src < nNodes && dest < nNodes
      ensures o.Fail? ==> adjMat == old(adjMat)
      ensures o.Pass? ==> src < nNodes && dest < nNodes && GetEdge(src, dest) == Ok(Some(1.0))
      ensures o.Pass? ==> forall i, j :: 0 <= i < nNodes && 0 <= j < nNodes && (i != src || j != dest) ==>
        adjMat[i][j] == old(adjMat[i][j])
    {
      if src >= nNodes {
        return Fail(InvalidSource(src));
      } else if dest >= nNodes {
        return Fail(InvalidDestination(dest));
      }
      adjMat := adjMat[src := adjMat[src][dest := 1.0]];
      return Pass;
    }

    /** `add_weighted_edge`: checks both nodes (source first), then sets src -> dest to `weight`. */
    method AddWeightedEdge(src: nat, dest: nat, weight: real) returns (o: Outcome<GraphError>)
      requires Valid()
      modifies this
      ensures Valid() && nNodes == old(nNodes)
      ensures src >= nNodes ==> o == Fail(InvalidSource(src))
      ensures src < nNodes && dest >= nNodes ==> o == Fail(InvalidDestination(dest))
      ensures o.Pass? <==> src < nNodes && dest < nNodes
      ensures o.Fail? ==> adjMat == old(adjMat)
      ensures o.Pass? ==> src < nNodes && dest < nNodes && adjMat[src][dest] == weight
      ensures o.Pass? ==> GetEdge(src, dest) == Ok(if weight != 0.0 then Some(weight) else None)
      ensures o.Pass? ==> forall i, j :: 0 <= i < nNodes && 0 <= j < nNodes && (i != src || j != dest) ==>
        adjMat[i][j] == old(adjMat[i][j])
    {
      if src >= nNodes {
        return Fail(InvalidSource(src));
      } else if dest >= nNodes {
        return Fail(InvalidDestination(dest));
      }
      adjMat := adjMat[src := adjMat[src][dest := weight]];
      return Pass;
    }
  }
}
