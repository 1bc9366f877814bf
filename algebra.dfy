/** The binary operations as functions of the two matrices: the elementwise
    combinators (union, intersection, ring sum) and the Cartesian product. */
module Algebra {
  import opened Matrix

  function Min(a: int, b: int): int {
    if a < b then a else b
  }

  // ---------------------------------------------------------------------------
  // Elementwise combinators

  /** The matrix of a combinator: both inputs truncated to the smaller size,
      cell (i, j) the bool `op` returns, converted to 0 or 1. */
  function Combination(m1: Matrix, m2: Matrix, op: (int, int) -> bool): Matrix
    requires IsSquare(m1, |m1|) && IsSquare(m2, |m2|)
  {
    var n := Min(|m1|, |m2|);
    seq(n, i requires 0 <= i < n => seq(n, j requires 0 <= j < n => Bit(op(m1[i][j], m2[i][j]))))
  }

  /** The three operators the source hands to combine. */
  function Or(a: int, b: int): bool { a != 0 || b != 0 }
  function And(a: int, b: int): bool { a != 0 && b != 0 }
  function Differ(a: int, b: int): bool { a != b }

  /** A combination is a square 0/1 matrix of the smaller size, symmetric
      when both inputs are, and built from the common vertices only. */
  lemma CombinationShape(m1: Matrix, m2: Matrix, op: (int, int) -> bool)
    requires IsSymmetric(m1) && IsSymmetric(m2)
    ensures IsSquare(Combination(m1, m2, op), Min(|m1|, |m2|))
    ensures IsBinary(Combination(m1, m2, op))
    ensures IsSymmetric(Combination(m1, m2, op))
  {
    var r, n := Combination(m1, m2, op), Min(|m1|, |m2|);
    assert IsSquare(r, n);
    forall i, j | 0 <= i < |r| && 0 <= j < |r[i]| ensures r[i][j] == 0 || r[i][j] == 1 {
      assert r[i][j] == Bit(op(m1[i][j], m2[i][j]));
    }
    forall i, j | 0 <= i < n && 0 <= j < n ensures r[i][j] == r[j][i] {
      assert m1[i][j] == m1[j][i] && m2[i][j] == m2[j][i];
    }
  }

  /** Union of a graph with itself is the graph. */
  lemma UniteSelf(m: Matrix)
    requires IsSquare(m, |m|) && IsBinary(m)
    ensures Combination(m, m, Or) == m
  {
    var r := Combination(m, m, Or);
    forall i | 0 <= i < |m| ensures r[i] == m[i] {
      forall j | 0 <= j < |m| ensures r[i][j] == m[i][j] {
        assert r[i][j] == Bit(Or(m[i][j], m[i][j]));
        assert m[i][j] == 0 || m[i][j] == 1;
      }
    }
  }

  /** Intersection of a graph with itself is the graph. */
  lemma IntersectSelf(m: Matrix)
    requires IsSquare(m, |m|) && IsBinary(m)
    ensures Combination(m, m, And) == m
  {
    var r := Combination(m, m, And);
    forall i | 0 <= i < |m| ensures r[i] == m[i] {
      forall j | 0 <= j < |m| ensures r[i][j] == m[i][j] {
        assert r[i][j] == Bit(And(m[i][j], m[i][j]));
        assert m[i][j] == 0 || m[i][j] == 1;
      }
    }
  }

  /** The ring sum of a graph with itself has no edge. */
  lemma XorSelfEdgeless(m: Matrix)
    requires IsSquare(m, |m|)
    ensures IsSquare(Combination(m, m, Differ), |m|)
    ensures EdgeCount(Combination(m, m, Differ)) == 0
  {
    EdgeCountZero(Combination(m, m, Differ));
  }

  /** A combinator whose operator is symmetric does not depend on the order
      of its operands; all three of the source's are. */
  lemma CombinationCommutes(m1: Matrix, m2: Matrix, op: (int, int) -> bool)
    requires IsSquare(m1, |m1|) && IsSquare(m2, |m2|)
    requires forall a, b :: op(a, b) == op(b, a)
    ensures Combination(m1, m2, op) == Combination(m2, m1, op)
  {
    var r, s := Combination(m1, m2, op), Combination(m2, m1, op);
    forall i | 0 <= i < |r| ensures r[i] == s[i] {
      forall j | 0 <= j < |r| ensures r[i][j] == s[i][j] {
        assert r[i][j] == Bit(op(m1[i][j], m2[i][j]));
        assert s[i][j] == Bit(op(m2[i][j], m1[i][j]));
        var x, y := m1[i][j], m2[i][j];
        assert op(x, y) == op(y, x);
      }
    }
  }

  /** Union, intersection and ring sum do not depend on the order of the two graphs. */
  lemma UniteCommutes(m1: Matrix, m2: Matrix)
    requires IsSquare(m1, |m1|) && IsSquare(m2, |m2|)
    ensures Combination(m1, m2, Or) == Combination(m2, m1, Or)
  {
    assert forall a, b :: Or(a, b) == Or(b, a);
    CombinationCommutes(m1, m2, Or);
  }

  lemma IntersectionCommutes(m1: Matrix, m2: Matrix)
    requires IsSquare(m1, |m1|) && IsSquare(m2, |m2|)
    ensures Combination(m1, m2, And) == Combination(m2, m1, And)
  {
    assert forall a, b :: And(a, b) == And(b, a);
    CombinationCommutes(m1, m2, And);
  }

  lemma XorCommutes(m1: Matrix, m2: Matrix)
    requires IsSquare(m1, |m1|) && IsSquare(m2, |m2|)
    ensures Combination(m1, m2, Differ) == Combination(m2, m1, Differ)
  {
    assert forall a, b :: Differ(a, b) == Differ(b, a);
    CombinationCommutes(m1, m2, Differ);
  }

  /** A combinator whose operator is false on two zeros creates no self-loop
      from loopless inputs; this holds for all three of the source's. */
  lemma CombinationLoopless(m1: Matrix, m2: Matrix, op: (int, int) -> bool)
    requires IsSquare(m1, |m1|) && IsSquare(m2, |m2|) && IsLoopless(m1) && IsLoopless(m2)
    requires !op(0, 0)
    ensures IsSquare(Combination(m1, m2, op), Min(|m1|, |m2|))
    ensures IsLoopless(Combination(m1, m2, op))
  {
    var r := Combination(m1, m2, op);
    forall i | 0 <= i < |r| ensures r[i][i] == 0 {
      assert r[i][i] == Bit(op(m1[i][i], m2[i][i]));
    }
  }

  /** Union, intersection and ring sum of loopless graphs are loopless. */
  lemma CombinatorsLoopless(m1: Matrix, m2: Matrix)
    requires IsSquare(m1, |m1|) && IsSquare(m2, |m2|) && IsLoopless(m1) && IsLoopless(m2)
    ensures IsSquare(Combination(m1, m2, Or), Min(|m1|, |m2|)) && IsLoopless(Combination(m1, m2, Or))
    ensures IsSquare(Combination(m1, m2, And), Min(|m1|, |m2|)) && IsLoopless(Combination(m1, m2, And))
    ensures IsSquare(Combination(m1, m2, Differ), Min(|m1|, |m2|)) && IsLoopless(Combination(m1, m2, Differ))
  {
    CombinationLoopless(m1, m2, Or);
    CombinationLoopless(m1, m2, And);
    CombinationLoopless(m1, m2, Differ);
  }

  /** On 0/1 matrices the ring sum holds exactly the edges of the union that
      are not in the intersection. */
  lemma XorIsUnionMinusIntersection(m1: Matrix, m2: Matrix, i: int, j: int)
    requires IsSquare(m1, |m1|) && IsSquare(m2, |m2|) && IsBinary(m1) && IsBinary(m2)
    requires 0 <= i < Min(|m1|, |m2|) && 0 <= j < Min(|m1|, |m2|)
    ensures Combination(m1, m2, Differ)[i][j] == 1 <==>
      Combination(m1, m2, Or)[i][j] == 1 && Combination(m1, m2, And)[i][j] == 0
  {
    assert m1[i][j] == 0 || m1[i][j] == 1;
    assert m2[i][j] == 0 || m2[i][j] == 1;
    assert Combination(m1, m2, Differ)[i][j] == Bit(Differ(m1[i][j], m2[i][j]));
    assert Combination(m1, m2, Or)[i][j] == Bit(Or(m1[i][j], m2[i][j]));
    assert Combination(m1, m2, And)[i][j] == Bit(And(m1[i][j], m2[i][j]));
  }

  // ---------------------------------------------------------------------------
  // Cartesian product

  /** Flattened index of the vertex pair (u1, u2): u1 * n2 + u2. */
  function Flat(u1: int, u2: int, n2: int): int {
    u1 * n2 + u2
  }

  lemma FlatBounds(u1: int, u2: int, n1: int, n2: int)
    requires 0 <= u1 < n1 && 0 <= u2 < n2
    ensures 0 <= Flat(u1, u2, n2) < n1 * n2
  {
    assert u1 * n2 <= (n1 - 1) * n2 by {
      MulMono(u1, n1 - 1, n2);
    }
  }

  lemma MulMono(a: int, b: int, c: int)
    requires a <= b && 0 <= c
    ensures a * c <= b * c
  {
  }

  /** The flat index determines the pair: division and remainder by n2 recover it. */
  lemma FlatDivMod(u1: int, u2: int, n2: int)
    requires 0 <= u1 && 0 <= u2 < n2
    ensures Flat(u1, u2, n2) / n2 == u1 && Flat(u1, u2, n2) % n2 == u2
  {
    var a := Flat(u1, u2, n2);
    var q, r := a / n2, a % n2;
    assert (q - u1) * n2 == u2 - r;
    if q > u1 {
      MulMono(1, q - u1, n2);
    } else if q < u1 {
      MulMono(1, u1 - q, n2);
    }
  }

  /** A flat index below n1 * n2 splits into a pair in range. */
  lemma UnflatBounds(a: int, n1: int, n2: int)
    requires 0 <= a < n1 * n2 && 0 <= n1 && 0 <= n2
    ensures 0 < n2 && 0 <= a / n2 < n1 && 0 <= a % n2 < n2
    ensures Flat(a / n2, a % n2, n2) == a
  {
    if a / n2 >= n1 {
      MulMono(n1, a / n2, n2);
    }
  }

  /** Cell (a, b) of the product, with a and b read back as vertex pairs. */
  function ProductEntry(m1: Matrix, m2: Matrix, a: int, b: int): int
    requires IsSquare(m1, |m1|) && IsSquare(m2, |m2|)
    requires 0 <= a < |m1| * |m2| && 0 <= b < |m1| * |m2|
  {
    var n2 := |m2|;
    UnflatBounds(a, |m1|, n2);
    UnflatBounds(b, |m1|, n2);
    var u1, u2, v1, v2 := a / n2, a % n2, b / n2, b % n2;
    Bit((u1 == v1 && m2[u2][v2] != 0) || (u2 == v2 && m1[u1][v1] != 0))
  }

  /** The Cartesian product: n1 * n2 vertices, pair (u1, u2) at u1 * n2 + u2. */
  function CartesianProduct(m1: Matrix, m2: Matrix): Matrix
    requires IsSquare(m1, |m1|) && IsSquare(m2, |m2|)
  {
    var n := |m1| * |m2|;
    seq(n, a requires 0 <= a < n => seq(n, b requires 0 <= b < n => ProductEntry(m1, m2, a, b)))
  }

  /** Two pairs are joined exactly when they agree in one coordinate and are
      joined in the other factor. */
  lemma ProductAt(m1: Matrix, m2: Matrix, u1: int, u2: int, v1: int, v2: int)
    requires IsSquare(m1, |m1|) && IsSquare(m2, |m2|)
    requires 0 <= u1 < |m1| && 0 <= v1 < |m1| && 0 <= u2 < |m2| && 0 <= v2 < |m2|
    ensures 0 <= Flat(u1, u2, |m2|) < |m1| * |m2| && 0 <= Flat(v1, v2, |m2|) < |m1| * |m2|
    ensures CartesianProduct(m1, m2)[Flat(u1, u2, |m2|)][Flat(v1, v2, |m2|)] ==
      Bit((u1 == v1 && m2[u2][v2] != 0) || (u2 == v2 && m1[u1][v1] != 0))
  {
    FlatBounds(u1, u2, |m1|, |m2|);
    FlatBounds(v1, v2, |m1|, |m2|);
    FlatDivMod(u1, u2, |m2|);
    FlatDivMod(v1, v2, |m2|);
  }

  /** The product of square matrices is a square 0/1 matrix of size n1 * n2. */
  lemma ProductSquareBinary(m1: Matrix, m2: Matrix)
    requires IsSquare(m1, |m1|) && IsSquare(m2, |m2|)
    ensures IsSquare(CartesianProduct(m1, m2), |m1| * |m2|)
    ensures IsBinary(CartesianProduct(m1, m2))
  {
  }

  /** The product is a square 0/1 matrix of size n1 * n2, symmetric when both
      factors are. */
  lemma ProductShape(m1: Matrix, m2: Matrix)
    requires IsSymmetric(m1) && IsSymmetric(m2)
    ensures IsSquare(CartesianProduct(m1, m2), |m1| * |m2|)
    ensures IsBinary(CartesianProduct(m1, m2))
    ensures IsSymmetric(CartesianProduct(m1, m2))
  {
    var r := CartesianProduct(m1, m2);
    var n := |m1| * |m2|;
    ProductSquareBinary(m1, m2);
    forall a, b | 0 <= a < n && 0 <= b < n ensures r[a][b] == r[b][a] {
      ProductEntrySymmetric(m1, m2, a, b);
    }
  }

  /** The product of loopless factors is loopless: a pair is never adjacent
      to itself in either coordinate. */
  lemma ProductLoopless(m1: Matrix, m2: Matrix)
    requires IsSquare(m1, |m1|) && IsSquare(m2, |m2|) && IsLoopless(m1) && IsLoopless(m2)
    ensures IsSquare(CartesianProduct(m1, m2), |m1| * |m2|)
    ensures IsLoopless(CartesianProduct(m1, m2))
  {
    var r := CartesianProduct(m1, m2);
    var n2 := |m2|;
    ProductSquareBinary(m1, m2);
    forall a | 0 <= a < |r| ensures r[a][a] == 0 {
      UnflatBounds(a, |m1|, n2);
      ProductAt(m1, m2, a / n2, a % n2, a / n2, a % n2);
    }
  }

  lemma ProductEntrySymmetric(m1: Matrix, m2: Matrix, a: int, b: int)
    requires IsSymmetric(m1) && IsSymmetric(m2)
    requires 0 <= a < |m1| * |m2| && 0 <= b < |m1| * |m2|
    ensures ProductEntry(m1, m2, a, b) == ProductEntry(m1, m2, b, a)
  {
  }

  /** The product with the one-vertex graph is the graph itself. */
  lemma ProductWithSingleVertex(m: Matrix)
    requires IsSquare(m, |m|) && IsBinary(m)
    ensures CartesianProduct(m, [[0]]) == m
  {
    var r := CartesianProduct(m, [[0]]);
    assert |r| == |m|;
    forall a | 0 <= a < |m| ensures r[a] == m[a] {
      forall b | 0 <= b < |m| ensures r[a][b] == m[a][b] {
        ProductAt(m, [[0]], a, 0, b, 0);
        assert Flat(a, 0, 1) == a && Flat(b, 0, 1) == b;
        assert m[a][b] == 0 || m[a][b] == 1;
      }
    }
  }

  /** K2 times K2 is the 4-cycle (0,0)-(0,1)-(1,1)-(1,0)-(0,0), with four edges. */
  lemma ProductOfEdges()
    ensures CartesianProduct([[0, 1], [1, 0]], [[0, 1], [1, 0]]) ==
      [[0, 1, 1, 0], [1, 0, 0, 1], [1, 0, 0, 1], [0, 1, 1, 0]]
    ensures EdgeCount(CartesianProduct([[0, 1], [1, 0]], [[0, 1], [1, 0]])) == 4
  {
    var k2: Matrix := [[0, 1], [1, 0]];
    var r := CartesianProduct(k2, k2);
    var c4: Matrix := [[0, 1, 1, 0], [1, 0, 0, 1], [1, 0, 0, 1], [0, 1, 1, 0]];
    forall a | 0 <= a < 4 ensures r[a] == c4[a] {
      assert forall b :: 0 <= b < 4 ==> r[a][b] == c4[a][b];
    }
    assert r == c4;
    assert CountRow(c4[0], 1, 4) == 2;
    assert CountRow(c4[1], 2, 4) == 1;
    assert CountRow(c4[2], 3, 4) == 1;
    assert EdgesBelow(c4, 4) == 4;
  }
}
