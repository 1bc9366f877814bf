/** The graph engine: an undirected graph held as a square 0/1 adjacency
    matrix, with its edge count and adjacency lists recomputed after every
    mutation. Each method rebuilds the matrix cell by cell as the source
    does and is proved to produce the matrix its specification function
    describes. */
module GraphEngine {
  import opened Matrix
  import Generator
  import Rewrite
  import Algebra

  /** The outcome of a rewrite: done, or rejected with the graph left unchanged. */
  datatype Status = Done | InvalidVertex | NoEdge

  class Graph {
    var matrix: Matrix
    var adjList: seq<seq<int>>
    var vertexCount: int
    var edgeCount: int

    /** The object invariant: an n-by-n symmetric 0/1 matrix whose derived
        views are up to date. Diagonal 1s are allowed (identification makes them). */
    ghost predicate Valid()
      reads this
    {
      vertexCount >= 0 && IsSquare(matrix, vertexCount) && IsBinary(matrix) && IsSymmetric(matrix) &&
      edgeCount == EdgeCount(matrix) && adjList == AdjList(matrix)
    }

    /** All four fields still hold the given values. */
    ghost predicate Unchanged(m: Matrix, n: int, e: int, adj: seq<seq<int>>)
      reads this
    {
      matrix == m && vertexCount == n && edgeCount == e && adjList == adj
    }

    /** The empty graph. */
    constructor ()
      ensures Valid() && vertexCount == 0 && matrix == []
    {
      matrix, adjList, vertexCount, edgeCount := [], [], 0, 0;
    }

    /** A random graph on n vertices; coins are the outcomes of the draws. */
    constructor Random(n: nat, coins: seq<bool>)
      requires PairCount(n) <= |coins|
      ensures Valid() && vertexCount == n && matrix == Generator.Generation(n, coins)
    {
      new;
      GenAdjMatrix(n, coins);
    }

    /** Recomputes the edge count: pairs i < j with a nonzero entry. */
    method CountEdges()
      requires vertexCount >= 0 && IsSquare(matrix, vertexCount)
      modifies this`edgeCount
      ensures edgeCount == EdgeCount(matrix)
    {
      edgeCount := 0;
      for i := 0 to vertexCount
        invariant edgeCount == EdgesBelow(matrix, i)
      {
        for j := i + 1 to vertexCount
          invariant edgeCount == EdgesBelow(matrix, i) + CountRow(matrix[i], i + 1, j)
        {
          if matrix[i][j] != 0 {
            edgeCount := edgeCount + 1;
          }
        }
      }
    }

    /** Recomputes the adjacency lists: for each row, its nonzero columns in order. */
    method GenAdjList()
      requires vertexCount >= 0 && IsSquare(matrix, vertexCount)
      modifies this`adjList
      ensures adjList == AdjList(matrix)
    {
      var n := vertexCount;
      adjList := seq(n, _ => []);
      for i := 0 to n
        invariant |adjList| == n
        invariant forall a :: 0 <= a < i ==> adjList[a] == Neighbours(matrix[a], n)
        invariant forall a :: i <= a < n ==> adjList[a] == []
      {
        for j := 0 to n
          invariant |adjList| == n
          invariant forall a :: 0 <= a < i ==> adjList[a] == Neighbours(matrix[a], n)
          invariant forall a :: i < a < n ==> adjList[a] == []
          invariant adjList[i] == Neighbours(matrix[i], j)
        {
          if matrix[i][j] != 0 {
            adjList := adjList[i := adjList[i] + [j]];
          }
        }
      }
    }

    /** Replaces the graph by a random one on n vertices. The k-th draw is
        coins[k]; it joins the pair it decides when it succeeds. */
    method GenAdjMatrix(n: nat, coins: seq<bool>)
      requires PairCount(n) <= |coins|
      modifies this
      ensures Valid() && vertexCount == n && matrix == Generator.Generation(n, coins)
    {
      var m := RandomMatrix(n, coins);
      Generator.GenerationShape(n, coins);
      vertexCount := n;
      matrix := m;
      CountEdges();
      GenAdjList();
    }

    /** Vertex identification: merges v2 into v1 and drops v2. Out-of-range
        or equal vertices are rejected and change nothing. */
    method Identify(v1: int, v2: int) returns (status: Status)
      requires Valid()
      modifies this
      ensures Valid()
      ensures status == if 0 <= v1 < old(vertexCount) && 0 <= v2 < old(vertexCount) && v1 != v2
        then Done else InvalidVertex
      ensures status == InvalidVertex ==> Unchanged(old(matrix), old(vertexCount), old(edgeCount), old(adjList))
      ensures status == Done ==>
        vertexCount == old(vertexCount) - 1 && matrix == Rewrite.Identification(old(matrix), v1, v2)
    {
      if v1 < 0 || v2 < 0 || v1 >= vertexCount || v2 >= vertexCount || v1 == v2 {
        return InvalidVertex;
      }
      var n, mat := vertexCount, matrix;
      var newMatrix := IdentifiedMatrix(mat, v1, v2);
      Rewrite.IdentificationShape(mat, v1, v2);
      matrix := newMatrix;
      vertexCount := n - 1;
      CountEdges();
      GenAdjList();
      status := Done;
    }

    /** Edge contraction: identification of v1 and v2, allowed only when they
        are adjacent. A rejected call changes nothing. */
    method Contract(v1: int, v2: int) returns (status: Status)
      requires Valid()
      modifies this
      ensures Valid()
      ensures status ==
        if !(0 <= v1 < old(vertexCount) && 0 <= v2 < old(vertexCount) && v1 != v2) then InvalidVertex
        else if old(matrix)[v1][v2] == 0 then NoEdge
        else Done
      ensures status != Done ==> Unchanged(old(matrix), old(vertexCount), old(edgeCount), old(adjList))
      ensures status == Done ==>
        vertexCount == old(vertexCount) - 1 && matrix == Rewrite.Identification(old(matrix), v1, v2)
    {
      if v1 < 0 || v2 < 0 || v1 >= vertexCount || v2 >= vertexCount || v1 == v2 {
        return InvalidVertex;
      }
      if matrix[v1][v2] == 0 {
        return NoEdge;
      }
      status := Identify(v1, v2);
    }

    /** Vertex splitting: adds vertex n and moves each edge (v, j), j != v,
        onto it when its draw succeeds. An out-of-range v changes nothing. */
    method Split(v: int, coins: seq<bool>) returns (status: Status)
      requires Valid()
      requires 0 <= v < vertexCount ==> Rewrite.DrawsNeeded(matrix[v], v) <= |coins|
      modifies this
      ensures Valid()
      ensures status == if 0 <= v < old(vertexCount) then Done else InvalidVertex
      ensures status == InvalidVertex ==> Unchanged(old(matrix), old(vertexCount), old(edgeCount), old(adjList))
      ensures status == Done ==>
        vertexCount == old(vertexCount) + 1 && matrix == Rewrite.Splitting(old(matrix), v, coins) &&
        edgeCount == old(edgeCount)
    {
      if v < 0 || v >= vertexCount {
        return InvalidVertex;
      }
      var n, mat := vertexCount, matrix;
      var newMatrix := SplitMatrix(mat, v, coins);
      Rewrite.SplittingMoves(mat, v, coins);
      Rewrite.SplitWithShape(mat, v, Rewrite.Moves(mat[v], v, coins, n));
      Rewrite.SplittingEdgeCount(mat, v, coins);
      matrix := newMatrix;
      vertexCount := n + 1;
      CountEdges();
      GenAdjList();
      status := Done;
    }

    /** The elementwise combinator: a fresh graph on the common vertices,
        cell (i, j) the result of op on the two inputs' cells. */
    static method Combine(g1: Graph, g2: Graph, op: (int, int) -> bool) returns (g: Graph)
      requires g1.Valid() && g2.Valid()
      ensures fresh(g) && g.Valid()
      ensures g.vertexCount == Algebra.Min(g1.vertexCount, g2.vertexCount)
      ensures g.matrix == Algebra.Combination(g1.matrix, g2.matrix, op)
    {
      var m := CombinedMatrix(g1.matrix, g2.matrix, op);
      Algebra.CombinationShape(g1.matrix, g2.matrix, op);
      g := new Graph();
      g.vertexCount := |m|;
      g.matrix := m;
      g.CountEdges();
      g.GenAdjList();
    }

    /** Union: an edge of either graph. */
    static method Unite(g1: Graph, g2: Graph) returns (g: Graph)
      requires g1.Valid() && g2.Valid()
      ensures fresh(g) && g.Valid()
      ensures g.vertexCount == Algebra.Min(g1.vertexCount, g2.vertexCount)
      ensures g.matrix == Algebra.Combination(g1.matrix, g2.matrix, Algebra.Or)
    {
      g := Combine(g1, g2, Algebra.Or);
    }

    /** Intersection: an edge of both graphs. */
    static method Intersection(g1: Graph, g2: Graph) returns (g: Graph)
      requires g1.Valid() && g2.Valid()
      ensures fresh(g) && g.Valid()
      ensures g.vertexCount == Algebra.Min(g1.vertexCount, g2.vertexCount)
      ensures g.matrix == Algebra.Combination(g1.matrix, g2.matrix, Algebra.And)
    {
      g := Combine(g1, g2, Algebra.And);
    }

    /** Ring sum: an edge of exactly one graph. */
    static method XorSum(g1: Graph, g2: Graph) returns (g: Graph)
      requires g1.Valid() && g2.Valid()
      ensures fresh(g) && g.Valid()
      ensures g.vertexCount == Algebra.Min(g1.vertexCount, g2.vertexCount)
      ensures g.matrix == Algebra.Combination(g1.matrix, g2.matrix, Algebra.Differ)
    {
      g := Combine(g1, g2, Algebra.Differ);
    }

    /** The Cartesian product: a fresh graph on n1 * n2 vertices. */
    static method Product(g1: Graph, g2: Graph) returns (g: Graph)
      requires g1.Valid() && g2.Valid()
      ensures fresh(g) && g.Valid()
      ensures g.vertexCount == g1.vertexCount * g2.vertexCount
      ensures g.matrix == Algebra.CartesianProduct(g1.matrix, g2.matrix)
    {
      var m := ProductMatrix(g1.matrix, g2.matrix);
      Algebra.ProductShape(g1.matrix, g2.matrix);
      g := new Graph();
      g.vertexCount := g1.vertexCount * g2.vertexCount;
      g.matrix := m;
      g.CountEdges();
      g.GenAdjList();
    }
  }

  // ---------------------------------------------------------------------------
  // The matrix-building loops of the methods above, over matrix values

  /** The generator's loops: one draw per pair i < j in row-major order,
      both cells set when it succeeds. */
  method RandomMatrix(n: nat, coins: seq<bool>) returns (m: Matrix)
    requires PairCount(n) <= |coins|
    ensures m == Generator.Generation(n, coins)
  {
    ghost var target := Generator.Generation(n, coins);
    m := Zeros(n);
    var k := 0;
    for i := 0 to n
      invariant IsSquare(m, n)
      invariant k == PairsBefore(n, i)
      invariant forall a, b :: 0 <= a < n && 0 <= b < n ==>
        m[a][b] == if a < i || b < i then target[a][b] else 0
    {
      for j := i + 1 to n
        invariant IsSquare(m, n)
        invariant k == PairsBefore(n, i) + (j - i - 1)
        invariant forall a, b :: 0 <= a < n && 0 <= b < n ==>
          m[a][b] == if a < i || b < i || (a == i && i < b < j) || (b == i && i < a < j) then target[a][b] else 0
      {
        assert k == Generator.PairIndex(n, i, j);
        if coins[k] {
          m := m[i := m[i][j := 1]];
          m := m[j := m[j][i := 1]];
        }
        k := k + 1;
      }
    }
    forall a | 0 <= a < n ensures m[a] == target[a] {
      assert forall b :: 0 <= b < n ==> m[a][b] == target[a][b];
    }
  }

  /** The identification loops: the merged row first, then every cell of the
      smaller matrix, skipping row and column v2. */
  method IdentifiedMatrix(mat: Matrix, v1: int, v2: int) returns (newMatrix: Matrix)
    requires Rewrite.ValidPair(mat, v1, v2)
    ensures newMatrix == Rewrite.Identification(mat, v1, v2)
  {
    var n := |mat|;
    ghost var target := Rewrite.Identification(mat, v1, v2);
    var merged := seq(n, _ => 0);
    for i := 0 to n
      invariant |merged| == n
      invariant forall c :: 0 <= c < i ==> merged[c] == Rewrite.MergedBit(mat, v1, v2, c)
    {
      merged := merged[i := if mat[v1][i] != 0 || mat[v2][i] != 0 then 1 else 0];
    }
    newMatrix := Zeros(n - 1);
    var ni := 0;
    for i := 0 to n
      invariant IsSquare(newMatrix, n - 1)
      invariant ni == if i > v2 then i - 1 else i
      invariant forall a :: 0 <= a < ni ==> newMatrix[a] == target[a]
    {
      if i == v2 {
        continue;
      }
      var nj := 0;
      for j := 0 to n
        invariant IsSquare(newMatrix, n - 1)
        invariant nj == if j > v2 then j - 1 else j
        invariant forall a :: 0 <= a < ni ==> newMatrix[a] == target[a]
        invariant forall b :: 0 <= b < nj ==> newMatrix[ni][b] == target[ni][b]
      {
        if j == v2 {
          continue;
        }
        assert Rewrite.Skip(ni, v2) == i && Rewrite.Skip(nj, v2) == j;
        newMatrix := newMatrix[ni := newMatrix[ni][nj := if i == v1 then merged[j] else if j == v1 then merged[i] else mat[i][j]]];
        nj := nj + 1;
      }
      assert newMatrix[ni] == target[ni];
      ni := ni + 1;
    }
  }

  /** The splitting loops: copy the matrix into one a vertex larger, then
      decide each edge (v, j), j != v, by the next draw. */
  method SplitMatrix(mat: Matrix, v: int, coins: seq<bool>) returns (newMatrix: Matrix)
    requires IsSquare(mat, |mat|) && 0 <= v < |mat| && Rewrite.DrawsNeeded(mat[v], v) <= |coins|
    ensures newMatrix == Rewrite.Splitting(mat, v, coins)
  {
    var n := |mat|;
    newMatrix := Zeros(n + 1);
    for i := 0 to n
      invariant IsSquare(newMatrix, n + 1)
      invariant forall a, b :: 0 <= a < n + 1 && 0 <= b < n + 1 ==>
        newMatrix[a][b] == if a < i && b < n then mat[a][b] else 0
    {
      for j := 0 to n
        invariant IsSquare(newMatrix, n + 1)
        invariant forall a, b :: 0 <= a < n + 1 && 0 <= b < n + 1 ==>
          newMatrix[a][b] == if (a < i || (a == i && b < j)) && b < n then mat[a][b] else 0
      {
        newMatrix := newMatrix[i := newMatrix[i][j := mat[i][j]]];
      }
    }
    var newV := n;
    var k := 0;
    for j := 0 to n
      invariant k == Rewrite.DrawsBefore(mat[v], v, j)
      invariant SplitFilledUpTo(newMatrix, mat, v, coins, j)
    {
      SplitColumn(newMatrix, mat, v, coins, j);
      if mat[v][j] != 0 && j != v {
        Rewrite.DrawsBeforeMono(mat[v], v, j + 1, n);
        var success := coins[k];
        k := k + 1;
        if success {
          ghost var before := newMatrix;
          newMatrix := newMatrix[v := newMatrix[v][j := 0]];
          newMatrix := newMatrix[j := newMatrix[j][v := 0]];
          newMatrix := newMatrix[newV := newMatrix[newV][j := 1]];
          newMatrix := newMatrix[j := newMatrix[j][newV := 1]];
          assert newMatrix == MoveEdge(before, v, j, newV);
        }
      }
    }
    SplitFilledAll(newMatrix, mat, v, coins);
  }

  /** The combinator loops: every cell of the common vertices, op applied to
      the two inputs' cells. */
  method CombinedMatrix(m1: Matrix, m2: Matrix, op: (int, int) -> bool) returns (m: Matrix)
    requires IsSquare(m1, |m1|) && IsSquare(m2, |m2|)
    ensures m == Algebra.Combination(m1, m2, op)
  {
    var n := if |m1| < |m2| then |m1| else |m2|;
    ghost var target := Algebra.Combination(m1, m2, op);
    m := Zeros(n);
    for i := 0 to n
      invariant IsSquare(m, n)
      invariant forall a :: 0 <= a < i ==> m[a] == target[a]
    {
      for j := 0 to n
        invariant IsSquare(m, n)
        invariant forall a :: 0 <= a < i ==> m[a] == target[a]
        invariant forall b :: 0 <= b < j ==> m[i][b] == target[i][b]
      {
        m := m[i := m[i][j := Bit(op(m1[i][j], m2[i][j]))]];
      }
      assert m[i] == target[i];
    }
  }

  /** The product loops: pair (u1, u2) against pair (v1, v2), joined when they
      agree in one coordinate and are adjacent in the other factor. */
  method ProductMatrix(m1: Matrix, m2: Matrix) returns (m: Matrix)
    requires IsSquare(m1, |m1|) && IsSquare(m2, |m2|)
    ensures m == Algebra.CartesianProduct(m1, m2)
  {
    var n1, n2 := |m1|, |m2|;
    ghost var target := Algebra.CartesianProduct(m1, m2);
    Algebra.ProductSquareBinary(m1, m2);
    m := Zeros(n1 * n2);
    for u1 := 0 to n1
      invariant FilledUpTo(m, target, u1 * n2, 0)
    {
      for u2 := 0 to n2
        invariant FilledUpTo(m, target, u1 * n2 + u2, 0)
      {
        Algebra.FlatBounds(u1, u2, n1, n2);
        for v1 := 0 to n1
          invariant FilledUpTo(m, target, u1 * n2 + u2, v1 * n2)
        {
          for v2 := 0 to n2
            invariant FilledUpTo(m, target, u1 * n2 + u2, v1 * n2 + v2)
          {
            Algebra.ProductAt(m1, m2, u1, u2, v1, v2);
            FillCell(m, target, u1 * n2 + u2, v1 * n2 + v2);
            if (u1 == v1 && m2[u2][v2] != 0) || (u2 == v2 && m1[u1][v1] != 0) {
              m := m[u1 * n2 + u2 := m[u1 * n2 + u2][v1 * n2 + v2 := 1]];
            }
          }
          assert v1 * n2 + n2 == (v1 + 1) * n2;
        }
        FillRow(m, target, u1 * n2 + u2);
      }
      assert u1 * n2 + n2 == (u1 + 1) * n2;
    }
    FillAll(m, target);
  }

  /** The cells before (A, B) in row-major order hold the target's 0/1
      value, all later cells are still 0. */
  ghost predicate FilledUpTo(m: Matrix, target: Matrix, A: int, B: int) {
    IsSquare(m, |target|) && IsSquare(target, |target|) && IsBinary(target) &&
    forall a, b :: 0 <= a < |target| && 0 <= b < |target| ==>
      m[a][b] == if a < A || (a == A && b < B) then target[a][b] else 0
  }

  /** Setting cell (A, B) exactly when the target has a 1 there moves the front by one cell. */
  lemma FillCell(m: Matrix, target: Matrix, A: int, B: int)
    requires FilledUpTo(m, target, A, B) && 0 <= A < |target| && 0 <= B < |target|
    ensures target[A][B] == 1 ==> FilledUpTo(m[A := m[A][B := 1]], target, A, B + 1)
    ensures target[A][B] != 1 ==> FilledUpTo(m, target, A, B + 1)
  {
  }

  /** A finished row moves the front to the start of the next row. */
  lemma FillRow(m: Matrix, target: Matrix, A: int)
    requires FilledUpTo(m, target, A, |target|)
    ensures FilledUpTo(m, target, A + 1, 0)
  {
  }

  /** Once every row is finished the matrix is the target. */
  lemma FillAll(m: Matrix, target: Matrix)
    requires FilledUpTo(m, target, |target|, 0)
    ensures m == target
  {
    forall a | 0 <= a < |target| ensures m[a] == target[a] {
      assert forall b :: 0 <= b < |target| ==> m[a][b] == target[a][b];
    }
  }

  /** The split matrix under construction: the columns below j have been
      decided, the others still carry the copied edges of v. */
  ghost predicate SplitFilledUpTo(nm: Matrix, m: Matrix, v: int, coins: seq<bool>, j: int) {
    IsSquare(m, |m|) && 0 <= v < |m| && 0 <= j <= |m| && Rewrite.DrawsNeeded(m[v], v) <= |coins| &&
    IsSquare(nm, |m| + 1) &&
    forall a, b :: 0 <= a < |m| + 1 && 0 <= b < |m| + 1 ==>
      nm[a][b] == Rewrite.SplitEntry(m, v, Rewrite.Moves(m[v], v, coins, j), a, b)
  }

  /** The four writes that move edge (v, j) onto vertex w. */
  function MoveEdge(nm: Matrix, v: int, j: int, w: int): Matrix
    requires IsSquare(nm, |nm|) && 0 <= v < |nm| && 0 <= j < |nm| && 0 <= w < |nm|
  {
    var nm1 := nm[v := nm[v][j := 0]];
    var nm2 := nm1[j := nm1[j][v := 0]];
    var nm3 := nm2[w := nm2[w][j := 1]];
    nm3[j := nm3[j][w := 1]]
  }

  /** Deciding column j: a candidate whose draw succeeds moves, every other
      column stays. */
  lemma SplitColumn(nm: Matrix, m: Matrix, v: int, coins: seq<bool>, j: int)
    requires SplitFilledUpTo(nm, m, v, coins, j) && j < |m|
    ensures Rewrite.Qualifies(m[v], v, j) && Rewrite.DrawFor(m[v], v, coins, j) ==>
      SplitFilledUpTo(MoveEdge(nm, v, j, |m|), m, v, coins, j + 1)
    ensures !(Rewrite.Qualifies(m[v], v, j) && Rewrite.DrawFor(m[v], v, coins, j)) ==>
      SplitFilledUpTo(nm, m, v, coins, j + 1)
  {
    var before := Rewrite.Moves(m[v], v, coins, j);
    var after := Rewrite.Moves(m[v], v, coins, j + 1);
    assert forall c :: 0 <= c < |m| && c != j ==> before[c] == after[c];
    assert !before[j];
  }

  lemma SplitFilledAll(nm: Matrix, m: Matrix, v: int, coins: seq<bool>)
    requires SplitFilledUpTo(nm, m, v, coins, |m|)
    ensures nm == Rewrite.Splitting(m, v, coins)
  {
    var target := Rewrite.Splitting(m, v, coins);
    forall a | 0 <= a < |m| + 1 ensures nm[a] == target[a] {
      assert forall b :: 0 <= b < |m| + 1 ==> nm[a][b] == target[a][b];
    }
  }
}
