# graphst: dense directed graph and Dijkstra, in Dafny

This project models the core of the `graphst` Rust crate:

- **`DGraph`** (`src/dgraph.rs`) is a directed graph stored as a node count `n_nodes` and an
  `n_nodes × n_nodes` matrix of `f32` weights, in which 0.0 means "no edge". It has four
  constructors (`new`, `from_edges`, `from_weighted_edges`, `from_adjacency_matrix`), several
  queries (`get_n_nodes`, `get_nodes`, `get_adjacency_matrix`, `get_edge`, `get_successors_of`,
  `get_predecessors_of`) and three in-place mutators (`add_node`, `add_edge`, `add_weighted_edge`).
- **`dijkstra`** (`src/algorithm/dijkstra.rs`) is the array-based O(V²) shortest-path routine.
  `min_distance_node` scans for the closest unvisited node. The main loop then marks that node
  visited and relaxes the edges leaving it.

The Dafny files are laid out as follows:

- `results.dfy` (module `Results`) holds `Option`, `Result` and `Outcome`.
- `dgraph.dfy` (module `DirectedGraph`) models the graph.
  - The class `DGraph` has the fields `nNodes: nat` and `adjMat: seq<seq<real>>`.
  - Its invariant `Valid()` says the matrix is square with side `nNodes`.
  - The constructors that can panic are static methods that return a `Result`.
  - The queries are functions that read the object.
  - The mutators are methods that modify it.
  - The edge-list constructors loop over the list the way the source does. Their result is
    specified by the value function `WeightedEdgeMatrix`, and lemmas state what that matrix holds
    and when it is an error.
- `dijkstra.dfy` (module `Dijkstra`) models the algorithm.
  - Distances are `Inf | Fin(real)`.
  - `MinDistanceNode` and `Relax` are loops over the same state as the source: a `dist` array and
    a `path` (visited) array.
  - `Dijkstra` is proved correct against walks in the weight matrix.
- `doc_tests.dfy` (module `DocTests`) replays the documentation example of `dijkstra` and the
  quirks below against the contracts alone.

Every `panic!` of the source becomes an explicit error value:

- `GraphError` covers the graph's errors: `InvalidEdge`, `RepeatedEdge`, `NotSquared`,
  `InvalidNode`, `InvalidSource` and `InvalidDestination`.
- `DijkstraError` covers the algorithm's errors. It wraps a `GraphError` from `get_edge`, or holds
  `PathIndexOutOfBounds(i)` for the out-of-range `path[c] = true`.

The model keeps three behaviours of the code as written:

- `dist[src]` starts at the weight of the self-loop (src, src) when there is one, and at 0.0
  otherwise (`StartDistance`). Every distance is therefore measured from that starting value.
- `min_distance_node` returns the sentinel `n_nodes` when every unvisited node is at infinity.
  The following `path[c] = true` then indexes out of range. As a result, `dijkstra` fails
  **exactly** when some node is unreachable from `src`; it never returns infinity.
- The repeat check of `from_edges` and `from_weighted_edges` only asks whether the target cell is
  already non-zero. A pair listed again after a listing of weight 0.0 is therefore accepted, and
  the later weight wins (`OnlyZeroWeightsRepeated`).

Two further consequences of the code as written:

- On a graph with no nodes `dijkstra` does not return an empty vector. It first calls
  `get_edge(src, src)` (`src/algorithm/dijkstra.rs:33`), which rejects every `src` when `n_nodes`
  is 0.
- With a negative edge weight the result is still a walk weight for every node, but not
  necessarily the least one. The source keeps its starting value whatever the weights: it is the
  only finite node at first, so it is visited first, and relaxation skips visited nodes.

The documentation example of `dijkstra` (`src/algorithm/dijkstra.rs:22-27`) calls
`graphst::Graph::from_edges`. `Graph` is a trait that declares no such function, so the example
does not compile as written. `DocTests.DijkstraDocExample` builds the same graph with
`DGraph.FromEdges` instead.

## Model

| member | source | states |
|---|---|---|
| DirectedGraph.Zeros | src/dgraph.rs:50 | the starting matrix is square with side n and every cell is 0.0 |
| DirectedGraph.SetCell | src/dgraph.rs:64 | writing one cell keeps the matrix square, sets that cell to w and leaves every other cell unchanged |
| DirectedGraph.Range | src/dgraph.rs:248-250 | `(0..n)` has length n, holds i at position i, and contains exactly the v with 0 <= v < n |
| DirectedGraph.NonZeroIndices | src/dgraph.rs:173-178 | the enumerate/filter/map pipeline yields a strictly ascending list that contains j exactly when k <= j < length and row[j] != 0.0 |
| DirectedGraph.InsertEdges | src/dgraph.rs:94-109 | the edge loop yields a square matrix whenever it succeeds |
| DirectedGraph.WeightedEdgeMatrixOk | src/dgraph.rs:92-111 | `from_weighted_edges` succeeds if and only if every endpoint is below n_nodes and a pair is repeated only after listings of weight 0.0 |
| DirectedGraph.WeightedEdgeMatrixCells | src/dgraph.rs:92-111 | on success each cell holds the weight of the last edge listed for that pair, and 0.0 for unlisted pairs |
| DirectedGraph.WeightedEdgeMatrixError | src/dgraph.rs:95-105 | the error is the one of the first rejected edge: InvalidEdge when an endpoint is out of range, otherwise RepeatedEdge |
| DirectedGraph.EdgeMatrixOk | src/dgraph.rs:49-68 | `from_edges` succeeds if and only if every endpoint is below n_nodes and no pair is listed twice |
| DirectedGraph.EdgeMatrixCells | src/dgraph.rs:49-68 | on success a cell is 1.0 if its pair is listed and 0.0 otherwise |
| DirectedGraph.WeightedEdgeMatrix | src/dgraph.rs:93-109 | the matrix the edge loop builds from an all-zero start, or its error; on success it is square with side n (what it holds is stated by the three lemmas that follow it in this table) |
| DirectedGraph.DGraph.Init | src/dgraph.rs:67 | the struct literal that ends each constructor gives a valid graph whose fields are the given count and matrix |
| DirectedGraph.DGraph.constructor | src/dgraph.rs:21-26 | `new` gives a valid graph with no nodes and an empty matrix |
| DirectedGraph.DGraph.FromEdges | src/dgraph.rs:49-68 | the loop returns exactly the error or the matrix of `WeightedEdgeMatrix` over unit weights, as a fresh valid graph with n nodes |
| DirectedGraph.DGraph.FromWeightedEdges | src/dgraph.rs:92-111 | the loop returns exactly the error or the matrix of `WeightedEdgeMatrix`, as a fresh valid graph with n nodes |
| DirectedGraph.DGraph.FromAdjacencyMatrix | src/dgraph.rs:134-144 | fails with NotSquared if and only if some row length differs from the row count; otherwise n_nodes is the row count and the matrix is returned unchanged |
| DirectedGraph.DGraph.NNodes | src/dgraph.rs:232-234 | the node count equals the number of rows and the length of every row |
| DirectedGraph.DGraph.Nodes | src/dgraph.rs:248-250 | the nodes are strictly ascending, n_nodes many, and are exactly 0 .. n_nodes-1 |
| DirectedGraph.DGraph.AdjacencyMatrix | src/dgraph.rs:271-273 | the matrix is square and agrees cell by cell with `get_edge` (Some(w) for w != 0.0, None for 0.0) |
| DirectedGraph.DGraph.GetEdge | src/dgraph.rs:303-320 | InvalidSource when src is out of range (checked first), else InvalidDestination when dest is; otherwise Some(w) exactly when the cell is w != 0.0, and None when it is 0.0 |
| DirectedGraph.DGraph.SuccessorsOf | src/dgraph.rs:166-179 | InvalidNode if and only if node >= n_nodes; otherwise an ascending list containing exactly the j with adj[node][j] != 0.0 |
| DirectedGraph.DGraph.PredecessorsOf | src/dgraph.rs:203-216 | InvalidNode if and only if node >= n_nodes; otherwise an ascending list containing exactly the i with adj[i][node] != 0.0 |
| DirectedGraph.DGraph.AddNode | src/dgraph.rs:334-340 | n_nodes grows by one, the matrix stays square, every old cell is kept, and the new last row and column are 0.0 |
| DirectedGraph.DGraph.AddEdge | src/dgraph.rs:365-378 | InvalidSource, then InvalidDestination, with nothing changed; succeeds if and only if both nodes exist, and then only cell (src, dest) changes, to 1.0 |
| DirectedGraph.DGraph.AddWeightedEdge | src/dgraph.rs:404-417 | the same checks in the same order; succeeds if and only if both nodes exist, and then only cell (src, dest) changes, to the weight |
| Dijkstra.MinDistanceNode | src/algorithm/dijkstra.rs:3-15 | returns the lowest-index unvisited node of least finite distance; returns the sentinel n_nodes if and only if every unvisited node is at infinity |
| Dijkstra.Relax | src/algorithm/dijkstra.rs:38-45 | visited nodes keep their distance; a distance changes only to a strictly smaller dist[c] + w along an edge c→n; afterwards no unvisited node can be improved through c |
| Dijkstra.SourceStep | src/algorithm/dijkstra.rs:33-40 | the first visit picks the source, the only finite node, and no later relaxation changes its distance, so it keeps the start value |
| Dijkstra.ClosestIsSettled | src/algorithm/dijkstra.rs:36 | with non-negative weights the node the scan picks already has its shortest distance |
| Dijkstra.StepPreserves | src/algorithm/dijkstra.rs:36-45 | one visit-and-relax step keeps the loop invariant: every distance is witnessed by a walk, and every visited node is final and shortest |
| Dijkstra.StuckMeansUnreachable | src/algorithm/dijkstra.rs:5-14 | if the scan finds no finite unvisited node before every node is visited, some node is unreachable from src |
| Dijkstra.FinalDistances | src/algorithm/dijkstra.rs:35-48 | once every node is visited, every node is reachable and each distance is the start value plus the weight of a walk; with non-negative weights no walk is shorter |
| Dijkstra.Dijkstra | src/algorithm/dijkstra.rs:29-49 | InvalidSource for src >= n_nodes; otherwise succeeds if and only if every node is reachable, failing with PathIndexOutOfBounds(n_nodes); on success n_nodes finite entries, each the start value plus the weight of a walk, which is a shortest walk when weights are non-negative, and dist[src] always equal to the start value |
| DocTests.DocDistances | src/algorithm/dijkstra.rs:22-27 | on the documented graph with edges (0,1), (1,2), (2,2), distances from 0 that are witnessed by walks and have no shorter walk are exactly [0.0, 1.0, 2.0] |

## Left out

- Floating point: weights are `real`, not `f32`. Rounding, NaN (which is unequal to 0.0 and would
  count as an edge) and the distinction between -0.0 and 0.0 are not modelled.
  `f32::INFINITY` is the constructor `Inf`, and adding to it is not modelled, because the node
  being relaxed always has a finite distance.
- Integer width: indices and counts are unbounded `nat`. A `usize` overflow in `n_nodes += 1` is
  not modelled.
- The `Graph` trait (`src/graph.rs`) is not part of this model. It declares signatures only, and
  `dijkstra` is written directly against `DGraph`, the one implementation of the trait.
- `impl fmt::Display for DGraph`, `src/main.rs` and `src/lib.rs` are not part of this model. They
  are formatting, a demo program and module declarations.
- Panics: each panic becomes an error value. The panic message text is not modelled.
- Dijkstra.Dijkstra: shortest-path optimality is stated only for non-negative weights. With a
  negative weight the code still returns a walk weight for every node, and the model proves that,
  but that weight need not be the least.
- Dijkstra.Relax: the loop re-reads `get_edge(c, n)` up to three times. The model reads it once,
  because the graph does not change during the loop.
- DirectedGraph.DGraph.FromAdjacencyMatrix: the matrix is taken by value, so the aliasing of the
  caller's `Vec` is not modelled.
