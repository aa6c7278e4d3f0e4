# Random weighted graph and greedy spanning walk — Dafny model

This project models the computational core of `script.js`, a browser page.
The page generates a random undirected weighted graph on ten vertices,
draws it, and reveals a Prim-style greedy walk one edge per click. The model
covers four parts of that file:

- **Graph generator** (`graph_gen.dfy`, module `GraphGen`).
  It starts from the rounded random draws. `adjMatrix` is the cell-wise
  maximum of the raw 0/1 draw and its transpose. The weights are masked by
  adjacency, and `binMatrix`, `asymMatrix` and `upperTriMatrix` are derived
  from them. The zeroed `weightMatrix` is then filled in place by the
  nested loop, which writes each cell on or above the diagonal and mirrors
  it below. The loop is `FillWeightMatrix` over an `array2<int>`; its result
  is specified by the function `WeightMatrix`.
- **Node list** (`node_list.dfy`, module `NodeLists`).
  `GraphNode` and `NodeList` are heap classes. A ghost sequence `nodes` and a
  footprint `Repr` describe the list. `Append` walks `next` pointers to the
  tail and links a new node there. `BuildNodeList` is the fill loop that puts
  vertex `k` with row `k` of the weight matrix into node `k`.
- **Traversal** (`traversal.dfy`, module `Traversal`).
  The class `Walk` holds the list and the traversal state: the visited
  vertices, the log of chosen `[start, end]` edges, and `totalWeight`.
  `Scan` has the two nested loops of `nextStep`. They follow two left folds
  (`NodeScan`, `RowScan`), and those folds are proved to find the *first
  minimum*: the lightest non-zero edge from a visited to an unvisited vertex.
  Among equally light edges it is the first in scan order. `NextStep` takes
  that edge. The pure function `Step` specifies it, and the trace invariant
  `IsTrace` is proved to hold across every step.
- **Formatter** (`format.dfy`, module `Format`).
  `formatMatrix` prints the numbers of a row joined by spaces and the rows
  joined by newlines. A parser is its partner, and the two are proved to
  round-trip.

`program.dfy` (module `Program`) strings the parts together as the page's
start-up does. `matrices.dfy` holds the shared matrix type and predicates.

The floating-point random draws are inputs here, already rounded:
- `raw[i][j]` stands for `floor(rng.next() * factor)`.
- `w[i][j]` stands for `ceil(rng.next() * 100)`.
- The masked weight is `w[i][j]` where `adj[i][j] == 1` and `0` elsewhere.
  This equals `ceil(val * 100 * adj[i][j])` for any 0/1 adjacency.

Three points where the code's behaviour is easy to misread, and which the model follows:
- The walk starts at `nodeList.head.value`, which is vertex 0. It does not
  start at the first vertex that has an edge. `initialVertex` is computed
  but never used.
- `nextStep` has no "no candidate" branch, so it is not a no-op once the
  graph is exhausted (see `Traversal.Walk.NextStep` below).
- A weight draw lies in `[0, 2)`, so a weight can be as large as 200, not 100.

## Model

| member | source | states |
|---|---|---|
| `GraphGen.Adjacency` | script.js:65 | the cell-wise maximum of the draw and its transpose, n-by-n; `AdjacencyProperties` proves it symmetric and 1 exactly where either direction drew 1 |
| `GraphGen.Weighted` | script.js:71 | the masked weights, n-by-n; `WeightedMasked` proves them 0 off the edges and equal to the draw on them |
| `GraphGen.Bin` | script.js:72 | one 0/1 cell per masked weight, as many rows and columns; `MaskProperties` proves it 1 exactly where the weight is positive |
| `GraphGen.Asym` | script.js:73 | n-by-n; `MaskProperties` proves it a symmetric 0/1 matrix with a zero diagonal, 1 exactly where the two directions disagree |
| `GraphGen.UpperTri` | script.js:74 | n-by-n; `MaskProperties` proves it 1 exactly above the diagonal |
| `GraphGen.Cell` | script.js:81 | the value written for one pair: 0 where the masked weight is 0, and for 0/1 masks always 0, the masked weight or twice it |
| `GraphGen.WeightMatrix` | script.js:76-85 | the filled weight matrix, n-by-n; `FillWeightMatrix` is proved to produce it and `WeightMatrixSymmetric`, `CellOnOrAbove` and `WeightMatrixOnEdges` state its properties |
| `GraphGen.Derive` | script.js:65-85 | every derived matrix is n-by-n for n-by-n draws |
| `GraphGen.AdjacencyProperties` | script.js:65 | the adjacency is symmetric; every cell is one of the two draws and at least both of them; for a 0/1 draw it is 0/1, and 1 exactly when either direction drew 1 |
| `GraphGen.WeightedMasked` | script.js:71 | a cell with no edge has masked weight 0; a cell on an edge keeps its draw; a non-zero masked weight lies on an edge; non-negative draws give non-negative masked weights |
| `GraphGen.MaskProperties` | script.js:72-74 | `bin` is 1 exactly where the masked weight is positive; `asym` is 0/1, symmetric, 0 on the diagonal, and 1 exactly where the two directions disagree on being positive; `upper` is 1 exactly when `i < j` |
| `GraphGen.FillWeightMatrix` | script.js:76-85 | in-place fill of a zeroed n-by-n matrix; the loop invariant keeps finished cells at their final value and unfinished ones at 0, so no cell is overwritten with another value; afterwards every cell equals the `WeightMatrix` specification |
| `GraphGen.WeightMatrixSymmetric` | script.js:78-85 | the mirrored fill is symmetric for any inputs |
| `GraphGen.CellOnOrAbove` | script.js:80-82 | for `i <= j`: the mirror cell is equal; the diagonal keeps the masked weight; above the diagonal the masked weight is doubled exactly when `bin[i][j] != bin[j][i]`; the cell is non-negative, non-zero exactly when the masked weight is positive, and positive only on an edge |
| `GraphGen.WeightMatrixOnEdges` | script.js:71-85 | the final weight matrix is symmetric and non-negative; a positive weight implies an edge; a cell is non-zero exactly when the masked weight of its upper-triangle twin is positive |
| `NodeLists.GraphNode.constructor` | script.js:90-96 | a new node holds the value and the row, with `next == null` |
| `NodeLists.NodeList.constructor` | script.js:98-101 | a new list is empty with a null head |
| `NodeLists.NodeList.Append` | script.js:102-111 | walks to the tail; earlier nodes keep their order and contents; exactly one node `(value, weight)` is added last with `next == null`; the list stays acyclic |
| `NodeLists.BuildNodeList` | script.js:131-132 | node `k` holds vertex `k` and row `k`; with at least one row the head's value is 0 |
| `Traversal.Consider` | script.js:149-153 | one column of the scan: the kept pair stays a valid position of the list; `RowScanIsBest` states what it keeps |
| `Traversal.RowScan` | script.js:148-154 | the fold over one row yields a valid position; `RowScanIsBest` proves it the first minimum so far |
| `Traversal.NodeScan` | script.js:145-157 | the fold over the first `k` nodes yields a valid position; `NodeScanIsBest` proves it the first minimum so far |
| `Traversal.Select` | script.js:143-157 | the pair one call chooses is a valid position; `SelectIsFirstMinimum` proves it the first minimum, found exactly when a candidate exists |
| `Traversal.RowScanIsBest` | script.js:148-154 | after columns `0 .. c-1` of a visited node, the kept pair is the first minimum among all candidates before `(p, c)` in scan order |
| `Traversal.NodeScanIsBest` | script.js:145-157 | after the first `k` nodes, the kept pair is the first minimum among all candidates in those nodes |
| `Traversal.SelectIsFirstMinimum` | script.js:143-157 | the scan finds a pair exactly when a candidate exists; the pair is a candidate, no candidate is lighter, and every earlier candidate is strictly heavier |
| `Traversal.FirstMinimumIsUnique` | script.js:149 | the first minimum is unique, so the strict `<` fixes the tie-break completely |
| `Traversal.StepIsGreedy` | script.js:145-161 | in vertex terms: the new edge runs from a visited vertex to an unvisited one with a non-zero weight, no such edge is lighter, and an equally light edge has a larger start vertex, or the same start and a larger end vertex |
| `Traversal.Step` | script.js:158-166 | one step appends exactly one vertex, not visited before, and one edge from a visited vertex to it; both prefixes are kept and the total changes (the weight is non-zero) |
| `Traversal.InitialIsTrace` | script.js:139-140 | the start state `[0]`, no edges, weight 0 satisfies the trace invariant |
| `Traversal.TraceAppend` | script.js:158-166 | appending an edge from a visited vertex to an unvisited one with a non-zero weight, together with its weight, keeps the trace invariant |
| `Traversal.StepPreservesTrace` | script.js:158-166 | a step adds exactly one new, previously unvisited vertex; it keeps the visited prefix and the log prefix; it logs an edge from an earlier visited vertex; `totalWeight` stays the sum of the logged edges' weights |
| `Traversal.PathLeaves` | script.js:145-157 | a path of non-zero weights from a visited vertex to an unvisited one has a hop from a visited vertex to an unvisited one |
| `Traversal.ConnectedHasCandidate` | script.js:145-158 | when every vertex is reachable from 0 along non-zero weights and fewer than n are visited, a candidate edge exists, so `nextStep` is never stuck early |
| `Traversal.Run` | script.js:142-168 | `k` calls of `nextStep` on a connected graph keep the trace invariant, add exactly `k` vertices and keep the visited prefix and the log prefix |
| `Traversal.ConnectedWalkVisitsAll` | script.js:139-168 | on a connected graph, n - 1 steps from the start log n - 1 edges and visit every vertex, after which no candidate is left |
| `Traversal.VisitedBounded` | script.js:147-158 | at most n vertices are visited, so there are at most n - 1 steps; with all n visited no candidate remains |
| `Traversal.Walk.constructor` | script.js:139-140 | the traversal starts with the head's vertex 0 visited, an empty log and weight 0, and satisfies the trace invariant |
| `Traversal.ScanRow` | script.js:148-154 | the loop over one visited node's row carries the loop variables from the pair kept so far to the pair `RowScan` keeps after that row |
| `Traversal.Walk.Scan` | script.js:143-157 | the loop over the list (the row loop is `ScanRow`) leaves the loop variables agreeing with `Select`: no pair (weight still Infinity) or the first-minimum pair with its weight, start vertex and end vertex |
| `Traversal.StepFromScan` | script.js:158-166 | the values those loop variables hold give exactly the state `Step` specifies |
| `Traversal.Walk.NextStep` | script.js:142-168 | the new state is `Step` of the old one: the end vertex is appended to the visited list, `[start, end]` to the log and the weight to the total; the trace invariant is kept |
| `Program.Setup` | script.js:64-140 | from square draws, it produces a traversal over a list whose node `k` holds `(k, weightMatrix[k])` of the derived matrices, in its start state; the walk, its list and the list's nodes are all newly allocated |
| `Format.IntToString` | script.js:181 | a non-empty text: a '-' exactly for a negative number, then decimal digits with no leading zero (a lone `0` for zero); `IntRoundTrip` proves it parses back to the number |
| `Format.NatToString` | script.js:181 | a non-empty string of decimal digits that begins with `0` only for zero; `NatRoundTrip` proves it parses back to the number |
| `Format.IntRoundTrip` | script.js:181 | a printed integer parses back to itself, negative ones included |
| `Format.Join` | script.js:181 | `join`: empty for no parts, starting with the first part, with the separator right after the first part when there are more |
| `Format.FormatRow` | script.js:181 | one line with no newline, empty exactly when the row is; `RowRoundTrip` proves it parses back |
| `Format.FormatMatrix` | script.js:180-182 | empty without rows, starting with the first row's line otherwise; `MatrixRoundTrip` proves one line per row and the round trip |
| `Format.RowRoundTrip` | script.js:181 | a non-empty formatted row has no newline and parses back to the row |
| `Format.MatrixRoundTrip` | script.js:180-182 | the text has exactly one line per row, so there is no trailing newline; it parses back to the matrix when no row is empty |

## Left out

- The random generator `RNG` (lines 1-8). In JavaScript `1103515245 * seed` exceeds 2^53, so the `%` works on rounded doubles, and `next()` returns a float. An exact integer generator would not match it, so the draws are inputs.
- The floating-point steps: `factor` (line 62), `Math.floor(rng.next() * factor)` (line 64) and `Math.ceil(val * 100 * adj)` (line 71). Their integer results are inputs, as described above.
- The end-to-end run for seed 3307 and its exact matrices and traversal order. That run depends on the floating-point generator.
- The circular layout with `cos`/`sin` (lines 117-126). It is floating-point geometry.
- Canvas drawing: `drawVertex`, `drawEdge` and `selfLoop` (lines 10-57), and the draw calls at lines 130, 133 and 162-165. This is user interface.
- Format.IntToString: prints decimal digits for every integer, while JavaScript switches to exponent notation from 10^21 on. The printed values here are at most 400, far below that.
- `logToConsole` (lines 170-178) and every call to it. This is DOM output.
- `initialVertex` (line 128). It is computed but has no effect.
- Traversal.Walk.NextStep: requires that a visited-to-unvisited non-zero edge exists. With none, the source pushes `undefined` and adds `Infinity` (lines 143-144, 158, 166); those values have no integer counterpart. On a graph whose every vertex is reachable from 0, `ConnectedHasCandidate` shows the requirement holds until all vertices are visited.
- Traversal.Walk: `visitedVertices` is one array: its element 0 is the visited list and the edge pairs follow it. The model keeps them as two fields, `visited` and `edges`.
- NodeLists.GraphNode: a node's `weight` is a sequence value, not a reference to the row array. The rows are never changed after the list is built, so the sharing cannot be observed.
- NodeLists.NodeList.Append: the source creates the node before the walk. The model creates it after the walk, just before linking it. Nothing reads the node in between.
- `Program.Setup` requires at least one vertex, because line 139 reads `nodeList.head.value`.
