# Graph engine: adjacency-matrix rewrites and graph algebra

This project models the `Graph` class of `src/main.cpp`: it holds an undirected graph on vertices
`0 .. n-1` as a square 0/1 adjacency matrix. It also caches the edge count and the adjacency lists,
and it recomputes both after every change. The modelled operations are:

- random generation;
- vertex identification and edge contraction;
- vertex splitting;
- the elementwise combinators (union, intersection, ring sum);
- the Cartesian product.

Layout:

- `matrix.dfy` (module `Matrix`) holds the representation and the two derived views as functions:
  `EdgeCount` counts the pairs `i < j` with a nonzero entry, and `AdjList` lists each row's nonzero
  columns in order. It also proves their properties: zero, complete, bound, the diagonal ignored,
  exact ascending neighbour lists.
- `generator.dfy` (module `Generator`) models the random matrix the generator builds.
- `rewrite.dfy` (module `Rewrite`) models identification and splitting as functions of the old
  matrix, with their properties.
- `algebra.dfy` (module `Algebra`) models the combinators and the Cartesian product as functions of
  the two matrices, with their properties.
- `graph.dfy` (module `GraphEngine`) holds the class `Graph`:
  - its fields are `matrix`, `adjList`, `vertexCount` and `edgeCount`, with `Valid()` as the object
    invariant;
  - each method rebuilds the matrix with the source's loops and ends by calling `CountEdges` and
    `GenAdjList`, as the source does;
  - each loop nest is a method over matrix values (`RandomMatrix`, `IdentifiedMatrix`,
    `SplitMatrix`, `CombinedMatrix`, `ProductMatrix`), proved to produce the matrix that the
    specification function of the other modules describes;
  - a rejected rewrite returns a `Status` (`InvalidVertex` or `NoEdge`) and leaves every field
    unchanged. That `Status` stands for the source's error message and early `return`.

Randomness is modelled as a parameter `coins: seq<bool>`, and `coins[k]` is the outcome of the k-th
draw.

- The generator draws once per pair `i < j`, row by row, and joins the pair when the draw is below
  the probability.
- Splitting draws only for the columns `j` with `matrix[v][j] != 0 && j != v`, because the draw is
  the last operand of a short-circuit `&&`. The edge `(v, j)` moves to the new vertex when the draw
  is below 0.5.

The state after each call is a function of the old state and the coins it consumed.

`genAdjList` pushes every nonzero column, diagonal included (`src/main.cpp:162`). A self-loop made
by identifying two adjacent vertices therefore appears in that vertex's adjacency list.
`Matrix.AdjList` and `Matrix.AdjListExact` state this. The edge count never reads the diagonal
(`Matrix.EdgeCountIgnoresDiagonal`). Identification is the only operation that can create a diagonal
1:

- generation is loopless (`Generator.GenerationShape`);
- splitting copies the diagonal and gives the new vertex none (`Rewrite.SplittingPartitionsEdges`);
- the combinators and the product of loopless graphs are loopless (`Algebra.CombinatorsLoopless`,
  `Algebra.ProductLoopless`).

## Model

| member | source | states |
|---|---|---|
| GraphEngine.Graph.constructor | src/main.cpp:10 | the default graph is empty and satisfies the invariant |
| GraphEngine.Graph.Random | src/main.cpp:11 | the constructing generator gives a valid graph whose matrix is the generated one |
| GraphEngine.Graph.CountEdges | src/main.cpp:168-173 | edgeCount becomes the number of pairs i < j whose entry is nonzero |
| Matrix.EdgeCountZero | src/main.cpp:168-173 | the edge count is 0 exactly when no pair i < j has a nonzero entry |
| Matrix.EdgeCountComplete | src/main.cpp:168-173 | when every pair i < j is joined, the count is n(n-1)/2 |
| Matrix.EdgeCountBound | src/main.cpp:168-173 | the count never exceeds n(n-1)/2 |
| Matrix.EdgeCountIgnoresDiagonal | src/main.cpp:170-172 | matrices that agree off the diagonal have the same count, so self-loops never count |
| Matrix.CountRowZero | src/main.cpp:171-172 | a row segment counts 0 exactly when all its entries are 0 |
| Matrix.PairCountClosed | src/main.cpp:21-22 | the generator's loops visit n(n-1)/2 pairs |
| GraphEngine.Graph.GenAdjList | src/main.cpp:158-165 | adjList becomes, for every vertex, the list of its row's nonzero columns in column order |
| Matrix.NeighboursExact | src/main.cpp:161-163 | a row's list holds exactly its nonzero columns, diagonal included, strictly ascending |
| Matrix.AdjListExact | src/main.cpp:158-165 | list i holds exactly the vertices x with matrix[i][x] != 0, strictly ascending |
| GraphEngine.Graph.GenAdjMatrix | src/main.cpp:14-28 | the graph is replaced by the generated matrix on n vertices, with the invariant and both derived views restored |
| GraphEngine.RandomMatrix | src/main.cpp:16-24 | the generator's loops, consuming one draw per pair i < j in row-major order, build exactly Generation(n, coins) |
| Generator.PairIndex | src/main.cpp:21-23 | the draw for pair (i, j) lies inside row i's block of draws and inside the PairCount(n) draws made |
| Generator.PairIndexInjective | src/main.cpp:21-23 | distinct pairs are decided by distinct draws |
| Generator.GenerationShape | src/main.cpp:16-24 | the generated matrix is square, 0/1, symmetric and loopless, and pair i < j is joined exactly when its draw succeeded |
| Generator.GenerationAllFail | src/main.cpp:23 | when every draw fails (probability 0) the graph has no edge |
| Generator.GenerationAllSucceed | src/main.cpp:23 | when every draw succeeds (probability 1) the graph has n(n-1)/2 edges |
| GraphEngine.Graph.Identify | src/main.cpp:53-79 | out-of-range or equal vertices are rejected with nothing changed; otherwise the graph has one vertex fewer, its matrix is Identification(old matrix, v1, v2), and the views are rebuilt |
| GraphEngine.IdentifiedMatrix | src/main.cpp:58-73 | the merged-row loop and the remapping loops that skip row and column v2 produce exactly Identification(mat, v1, v2) |
| Rewrite.ShiftSkip | src/main.cpp:63-72 | skipping v2 maps the old indices other than v2 one to one onto the new range, and back |
| Rewrite.IdentificationAt | src/main.cpp:59-73 | in old indices, the merged vertex's row and column carry row v1 OR row v2, and every other surviving entry is copied |
| Rewrite.IdentificationShape | src/main.cpp:58-73 | identification keeps the matrix square, 0/1 and symmetric, one vertex smaller |
| Rewrite.IdentificationSelfLoop | src/main.cpp:59-69 | starting from a loopless graph, the merged vertex has a self-loop exactly when v1 and v2 were adjacent, and no other vertex does |
| Rewrite.IdentificationOfTriangle | src/main.cpp:53-79 | identifying vertices 0 and 1 of the triangle gives [[1,1],[1,0]] with one edge |
| GraphEngine.Graph.Contract | src/main.cpp:82-90 | invalid vertices give InvalidVertex and non-adjacent ones give NoEdge, both with nothing changed; otherwise the result is exactly an identification |
| Rewrite.ContractionSelfLoop | src/main.cpp:86-89 | a successful contraction always leaves a self-loop on the merged vertex |
| GraphEngine.Graph.Split | src/main.cpp:93-119 | an out-of-range v is rejected with nothing changed; otherwise the graph has one vertex more, its matrix is Splitting(old matrix, v, coins), and the edge count is unchanged |
| GraphEngine.SplitMatrix | src/main.cpp:98-113 | the copy loops and the draw loop, consuming draws only for candidate columns, produce exactly Splitting(mat, v, coins) |
| Rewrite.DrawsBeforeMono | src/main.cpp:108-109 | the number of draws made grows with the column, so every candidate's draw exists |
| Rewrite.SplittingMoves | src/main.cpp:109 | only edges (v, j) with j != v are ever moved |
| Rewrite.SplitWithShape | src/main.cpp:98-113 | splitting keeps the matrix square, 0/1 and symmetric, one vertex larger |
| Rewrite.SplittingPartitionsEdges | src/main.cpp:108-113 | each edge (v, j) ends on exactly one of v and the new vertex; v is never joined to the new vertex; the new vertex gets no other edge; all other entries are copied |
| Rewrite.SplitWithEdgeCount | src/main.cpp:108-117 | moving any set of v's edges to the new vertex keeps the edge count |
| Rewrite.SplittingEdgeCount | src/main.cpp:108-117 | splitting keeps the edge count, whatever the draws |
| Rewrite.SplittingIsolated | src/main.cpp:108-113 | splitting a vertex without edges consumes no draw and only adds an isolated vertex |
| GraphEngine.Graph.Combine | src/main.cpp:176-187 | a fresh valid graph on min(n1, n2) vertices whose cell (i, j) is op applied to the two inputs' cells, as 0 or 1 |
| GraphEngine.CombinedMatrix | src/main.cpp:177-183 | the combinator's loops produce exactly Combination(m1, m2, op) |
| GraphEngine.Graph.Unite | src/main.cpp:122-124 | the combination under "either cell nonzero" |
| GraphEngine.Graph.Intersection | src/main.cpp:125-127 | the combination under "both cells nonzero" |
| GraphEngine.Graph.XorSum | src/main.cpp:128-130 | the combination under "cells differ" |
| Algebra.CombinationShape | src/main.cpp:176-183 | the combination is a square, 0/1, symmetric matrix on the common vertices |
| Algebra.CombinationCommutes | src/main.cpp:176-183 | with a symmetric operator, the order of the two graphs does not matter |
| Algebra.UniteCommutes | src/main.cpp:122-124 | the union of g1 and g2 equals the union of g2 and g1 |
| Algebra.IntersectionCommutes | src/main.cpp:125-127 | the intersection of g1 and g2 equals the intersection of g2 and g1 |
| Algebra.XorCommutes | src/main.cpp:128-130 | the ring sum of g1 and g2 equals the ring sum of g2 and g1 |
| Algebra.CombinationLoopless | src/main.cpp:176-183 | an operator that is false on two zeros combines loopless graphs into a loopless one |
| Algebra.CombinatorsLoopless | src/main.cpp:122-130 | union, intersection and ring sum of loopless graphs are loopless |
| Algebra.UniteSelf | src/main.cpp:122-124 | the union of a graph with itself is the graph |
| Algebra.IntersectSelf | src/main.cpp:125-127 | the intersection of a graph with itself is the graph |
| Algebra.XorSelfEdgeless | src/main.cpp:128-130 | the ring sum of a graph with itself has no edge |
| Algebra.XorIsUnionMinusIntersection | src/main.cpp:122-130 | on 0/1 matrices, a pair is in the ring sum exactly when it is in the union and not in the intersection |
| GraphEngine.Graph.Product | src/main.cpp:133-149 | a fresh valid graph on n1 * n2 vertices whose matrix is CartesianProduct(m1, m2) |
| GraphEngine.ProductMatrix | src/main.cpp:134-144 | the four nested loops produce exactly CartesianProduct(m1, m2) |
| Algebra.FlatDivMod | src/main.cpp:144 | index u1 * n2 + u2 determines the pair (u1, u2) |
| Algebra.UnflatBounds | src/main.cpp:136-144 | every index below n1 * n2 is u1 * n2 + u2 for a pair in range |
| Algebra.ProductAt | src/main.cpp:139-144 | pairs (u1, u2) and (v1, v2) are joined exactly when they agree in one coordinate and are adjacent in the other factor |
| Algebra.ProductShape | src/main.cpp:133-144 | the product is a square, 0/1, symmetric matrix on n1 * n2 vertices |
| Algebra.ProductLoopless | src/main.cpp:139-144 | the product of loopless graphs is loopless, since no pair is adjacent to itself |
| Algebra.ProductWithSingleVertex | src/main.cpp:133-144 | the product with the one-vertex graph is the graph itself |
| Algebra.ProductOfEdges | src/main.cpp:133-149 | the product of two single edges is the 4-cycle, with four edges |

## Left out

- `print` (`src/main.cpp:31-50`), the menus and `main` (`src/main.cpp:192-330`): console I/O, outside the engine.
- The error messages written with `cout`: each rejected call returns a `Status` instead and changes nothing.
- `random_device`, `mt19937` and `uniform_real_distribution`, with their double comparisons against the probability or 0.5: replaced by the `coins` parameter. Each call draws from a fresh generator, and the model does not capture that reseeding.
- GraphEngine.Graph.GenAdjMatrix: requires at least PairCount(n) coins and a nonnegative n. A negative n is not modelled: the source sets `vertexCount` first, then `vector<int>(n, 0)` throws `std::length_error`, which nothing catches, so the program ends.
- GraphEngine.Graph.Split: requires as many coins as there are candidate columns; that is the number of draws the source makes.
- GraphEngine.Graph.Product: `n1 * n2` is unbounded. The 32-bit `int` overflow of the source for very large graphs is not modelled.
- Matrix entries are `int`, and the matrix is a value (`seq<seq<int>>`). This matches `vector<vector<int>>`, which is copied and moved by value; `move` is an ordinary assignment.
- The methods require `Valid()`: a square, symmetric 0/1 matrix with current views. Every constructor and operation establishes it again, so it is the class invariant. The source itself does not check it.
