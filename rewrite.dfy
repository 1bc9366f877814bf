/** The rewrite operations as functions of the matrix: vertex identification
    (which edge contraction reuses) and vertex splitting. */
module Rewrite {
  import opened Matrix

  // ---------------------------------------------------------------------------
  // Vertex identification

  /** Old index of the vertex at new index a once vertex v2 is dropped. */
  function Skip(a: int, v2: int): int {
    if a < v2 then a else a + 1
  }

  /** New index of an old vertex i other than v2. */
  function Shift(i: int, v2: int): int {
    if i < v2 then i else i - 1
  }

  /** Entry c of the merged row: row v1 OR row v2, over the old indices. */
  function MergedBit(m: Matrix, v1: int, v2: int, c: int): int
    requires IsSquare(m, |m|) && 0 <= v1 < |m| && 0 <= v2 < |m| && 0 <= c < |m|
  {
    Bit(m[v1][c] != 0 || m[v2][c] != 0)
  }

  predicate ValidPair(m: Matrix, v1: int, v2: int) {
    IsSquare(m, |m|) && 0 <= v1 < |m| && 0 <= v2 < |m| && v1 != v2
  }

  /** The matrix after merging v2 into v1: row and column v2 are gone, the
      remaining indices close up, the surviving row and column v1 carry the
      merged row, and every other entry is copied. */
  function Identification(m: Matrix, v1: int, v2: int): Matrix
    requires ValidPair(m, v1, v2)
  {
    seq(|m| - 1, a requires 0 <= a < |m| - 1 => seq(|m| - 1, b requires 0 <= b < |m| - 1 =>
      var i, j := Skip(a, v2), Skip(b, v2);
      if i == v1 then MergedBit(m, v1, v2, j)
      else if j == v1 then MergedBit(m, v1, v2, i)
      else m[i][j]))
  }

  /** Indices skipping v2 are remapped one to one onto the new index range. */
  lemma ShiftSkip(n: int, v2: int)
    requires 0 <= v2 < n
    ensures forall i :: 0 <= i < n && i != v2 ==> 0 <= Shift(i, v2) < n - 1 && Skip(Shift(i, v2), v2) == i
    ensures forall a :: 0 <= a < n - 1 ==> 0 <= Skip(a, v2) < n && Skip(a, v2) != v2 && Shift(Skip(a, v2), v2) == a
  {
  }

  /** Entry by entry in the old index space: the merged vertex takes the
      union of the two rows, everything else keeps its entry. */
  lemma IdentificationAt(m: Matrix, v1: int, v2: int, i: int, j: int)
    requires ValidPair(m, v1, v2)
    requires 0 <= i < |m| && 0 <= j < |m| && i != v2 && j != v2
    ensures 0 <= Shift(i, v2) < |m| - 1 && 0 <= Shift(j, v2) < |m| - 1
    ensures Identification(m, v1, v2)[Shift(i, v2)][Shift(j, v2)] ==
      if i == v1 then MergedBit(m, v1, v2, j)
      else if j == v1 then MergedBit(m, v1, v2, i)
      else m[i][j]
  {
    ShiftSkip(|m|, v2);
  }

  /** Identification yields a square, 0/1, symmetric matrix one vertex smaller. */
  lemma IdentificationShape(m: Matrix, v1: int, v2: int)
    requires ValidPair(m, v1, v2) && IsBinary(m) && IsSymmetric(m)
    ensures IsSquare(Identification(m, v1, v2), |m| - 1)
    ensures IsBinary(Identification(m, v1, v2))
    ensures IsSymmetric(Identification(m, v1, v2))
  {
  }

  /** In a loopless graph the merged vertex gets a self-loop exactly when v1
      and v2 were adjacent, and no other vertex gets one. */
  lemma IdentificationSelfLoop(m: Matrix, v1: int, v2: int)
    requires ValidPair(m, v1, v2) && IsSymmetric(m) && IsLoopless(m)
    ensures 0 <= Shift(v1, v2) < |m| - 1
    ensures Identification(m, v1, v2)[Shift(v1, v2)][Shift(v1, v2)] == Bit(m[v1][v2] != 0)
    ensures forall a :: 0 <= a < |m| - 1 && a != Shift(v1, v2) ==> Identification(m, v1, v2)[a][a] == 0
  {
    IdentificationAt(m, v1, v2, v1, v1);
    ShiftSkip(|m|, v2);
  }

  /** Contracting an existing edge always leaves a self-loop on the merged vertex. */
  lemma ContractionSelfLoop(m: Matrix, v1: int, v2: int)
    requires ValidPair(m, v1, v2) && IsSymmetric(m) && m[v1][v2] != 0
    ensures 0 <= Shift(v1, v2) < |m| - 1
    ensures Identification(m, v1, v2)[Shift(v1, v2)][Shift(v1, v2)] == 1
  {
    IdentificationAt(m, v1, v2, v1, v1);
  }

  /** The triangle with vertices 0 and 1 identified is [[1,1],[1,0]] with one edge. */
  lemma IdentificationOfTriangle()
    ensures Identification([[0, 1, 1], [1, 0, 1], [1, 1, 0]], 0, 1) == [[1, 1], [1, 0]]
    ensures EdgeCount(Identification([[0, 1, 1], [1, 0, 1], [1, 1, 0]], 0, 1)) == 1
  {
    var m: Matrix := [[0, 1, 1], [1, 0, 1], [1, 1, 0]];
    var r := Identification(m, 0, 1);
    assert r[0] == [1, 1] && r[1] == [1, 0];
    assert r == [[1, 1], [1, 0]];
    assert EdgesBelow(r, 1) == CountRow(r[0], 1, 2) == 1;
    assert EdgesBelow(r, 2) == EdgesBelow(r, 1) + CountRow(r[1], 2, 2);
  }

  // ---------------------------------------------------------------------------
  // Vertex splitting

  /** Column j of row v is a candidate for moving: an edge to another vertex. */
  predicate Qualifies(row: seq<int>, v: int, j: int)
    requires 0 <= j < |row|
  {
    row[j] != 0 && j != v
  }

  /** Draws the source makes before column j: one per candidate column,
      because the draw is the last operand of a short-circuit `&&`. */
  function DrawsBefore(row: seq<int>, v: int, j: int): (k: nat)
    requires 0 <= j <= |row|
    ensures k <= j
  {
    if j == 0 then 0 else DrawsBefore(row, v, j - 1) + Bit(Qualifies(row, v, j - 1))
  }

  /** Draws a whole split of the vertex with this row makes. */
  function DrawsNeeded(row: seq<int>, v: int): nat {
    DrawsBefore(row, v, |row|)
  }

  lemma {:induction false} DrawsBeforeMono(row: seq<int>, v: int, j: int, j': int)
    requires 0 <= j <= j' <= |row|
    ensures DrawsBefore(row, v, j) <= DrawsBefore(row, v, j')
    decreases j' - j
  {
    if j < j' {
      DrawsBeforeMono(row, v, j, j' - 1);
    }
  }

  /** The outcome of the draw for candidate column j. */
  function DrawFor(row: seq<int>, v: int, coins: seq<bool>, j: int): bool
    requires 0 <= j < |row| && Qualifies(row, v, j) && DrawsNeeded(row, v) <= |coins|
  {
    DrawsBeforeMono(row, v, j + 1, |row|);
    coins[DrawsBefore(row, v, j)]
  }

  /** Which columns below upTo have had their edge moved to the new vertex. */
  function Moves(row: seq<int>, v: int, coins: seq<bool>, upTo: int): (moved: seq<bool>)
    requires 0 <= upTo <= |row| && DrawsNeeded(row, v) <= |coins|
    ensures |moved| == |row|
  {
    seq(|row|, j requires 0 <= j < |row| => j < upTo && Qualifies(row, v, j) && DrawFor(row, v, coins, j))
  }

  /** Entry (a, b) of the split matrix, of size |m| + 1, given the moved columns:
      a moved edge (v, j) is cleared and reappears as (new, j). */
  function SplitEntry(m: Matrix, v: int, moved: seq<bool>, a: int, b: int): int
    requires IsSquare(m, |m|) && |moved| == |m| && 0 <= a <= |m| && 0 <= b <= |m|
  {
    var n := |m|;
    if a < n && b < n then (if (a == v && moved[b]) || (b == v && moved[a]) then 0 else m[a][b])
    else if a < n then Bit(moved[a])
    else if b < n then Bit(moved[b])
    else 0
  }

  function SplitWith(m: Matrix, v: int, moved: seq<bool>): Matrix
    requires IsSquare(m, |m|) && |moved| == |m|
  {
    seq(|m| + 1, a requires 0 <= a < |m| + 1 => seq(|m| + 1, b requires 0 <= b < |m| + 1 =>
      SplitEntry(m, v, moved, a, b)))
  }

  /** The matrix after splitting vertex v with the given draw outcomes. */
  function Splitting(m: Matrix, v: int, coins: seq<bool>): Matrix
    requires IsSquare(m, |m|) && 0 <= v < |m| && DrawsNeeded(m[v], v) <= |coins|
  {
    SplitWith(m, v, Moves(m[v], v, coins, |m|))
  }

  /** Moved columns are edges of v to other vertices. */
  predicate MovesEdgesOf(m: Matrix, v: int, moved: seq<bool>)
    requires IsSquare(m, |m|) && 0 <= v < |m| && |moved| == |m|
  {
    forall c :: 0 <= c < |m| && moved[c] ==> m[v][c] != 0 && c != v
  }

  lemma SplittingMoves(m: Matrix, v: int, coins: seq<bool>)
    requires IsSquare(m, |m|) && 0 <= v < |m| && DrawsNeeded(m[v], v) <= |coins|
    ensures MovesEdgesOf(m, v, Moves(m[v], v, coins, |m|))
  {
  }

  /** Splitting keeps the matrix square, 0/1 and symmetric, one vertex larger. */
  lemma SplitWithShape(m: Matrix, v: int, moved: seq<bool>)
    requires IsSymmetric(m) && IsBinary(m) && |moved| == |m|
    ensures IsSquare(SplitWith(m, v, moved), |m| + 1)
    ensures IsBinary(SplitWith(m, v, moved))
    ensures IsSymmetric(SplitWith(m, v, moved))
  {
  }

  /** Each edge (v, j) ends up on exactly one of v and the new vertex; v is
      never joined to the new vertex, the new vertex has no other edge, and
      every entry not involving v or the new vertex is copied. */
  lemma SplittingPartitionsEdges(m: Matrix, v: int, coins: seq<bool>)
    requires IsSymmetric(m) && 0 <= v < |m| && DrawsNeeded(m[v], v) <= |coins|
    ensures var r, n := Splitting(m, v, coins), |m|;
      IsSquare(r, n + 1) &&
      (forall j :: 0 <= j < n && j != v && m[v][j] != 0 ==> (r[v][j] != 0 <==> r[n][j] == 0)) &&
      (forall j :: 0 <= j < n && (j == v || m[v][j] == 0) ==> r[n][j] == 0 && r[v][j] == m[v][j]) &&
      r[v][n] == 0 && r[n][v] == 0 && r[n][n] == 0 &&
      (forall i, j :: 0 <= i < n && 0 <= j < n && i != v && j != v ==> r[i][j] == m[i][j])
  {
  }

  /** The moved columns as a 0/1 row, 1 where the edge moved, so that CountRow counts them. */
  function MovedBits(moved: seq<bool>): (r: seq<int>)
    ensures |r| == |moved|
  {
    seq(|moved|, c requires 0 <= c < |moved| => Bit(moved[c]))
  }

  /** Row i of the split matrix, restricted to the old columns above i, loses
      the moved entries of the row and gains a 1 in the new column when the
      edge (v, i) moved. */
  lemma SplitRow(m: Matrix, v: int, moved: seq<bool>, i: int)
    requires IsSymmetric(m) && 0 <= v < |m| && |moved| == |m| && MovesEdgesOf(m, v, moved)
    requires 0 <= i < |m|
    ensures var r := SplitWith(m, v, moved);
      CountRow(r[i], i + 1, |m| + 1) ==
        if i < v then CountRow(m[i], i + 1, |m|)
        else if i == v then CountRow(m[i], i + 1, |m|) - CountRow(MovedBits(moved), i + 1, |m|)
        else CountRow(m[i], i + 1, |m|) + Bit(moved[i])
  {
    var r := SplitWith(m, v, moved);
    var n := |m|;
    assert CountRow(r[i], i + 1, n + 1) == CountRow(r[i], i + 1, n) + Bit(moved[i]);
    if i == v {
      CountRowMasked(m[v], r[v], MovedBits(moved), i + 1, n);
    } else if moved[i] {
      CountRowClearOne(m[i], r[i], v, i + 1, n);
    } else {
      CountRowSame(m[i], r[i], i + 1, n);
    }
  }

  /** The partial edge counts of the split matrix trail the original's by
      the moved edges not yet reached. */
  lemma {:induction false} SplitEdgesBelow(m: Matrix, v: int, moved: seq<bool>, k: nat)
    requires IsSymmetric(m) && 0 <= v < |m| && |moved| == |m| && MovesEdgesOf(m, v, moved)
    requires k <= |m|
    ensures IsSquare(SplitWith(m, v, moved), |m| + 1)
    ensures EdgesBelow(SplitWith(m, v, moved), k) + (if k > v then CountRow(MovedBits(moved), k, |m|) else 0)
      == EdgesBelow(m, k)
  {
    var r := SplitWith(m, v, moved);
    var bits := MovedBits(moved);
    if k > 0 {
      SplitEdgesBelow(m, v, moved, k - 1);
      SplitRow(m, v, moved, k - 1);
      if k - 1 > v {
        CountRowSplit(bits, k - 1, k, |m|);
      }
    }
  }

  /** Splitting preserves the edge count: each moved edge is counted once on
      the new vertex instead of once on v. */
  lemma SplitWithEdgeCount(m: Matrix, v: int, moved: seq<bool>)
    requires IsSymmetric(m) && 0 <= v < |m| && |moved| == |m| && MovesEdgesOf(m, v, moved)
    ensures IsSquare(SplitWith(m, v, moved), |m| + 1)
    ensures EdgeCount(SplitWith(m, v, moved)) == EdgeCount(m)
  {
    SplitEdgesBelow(m, v, moved, |m|);
  }

  lemma SplittingEdgeCount(m: Matrix, v: int, coins: seq<bool>)
    requires IsSymmetric(m) && 0 <= v < |m| && DrawsNeeded(m[v], v) <= |coins|
    ensures IsSquare(Splitting(m, v, coins), |m| + 1)
    ensures EdgeCount(Splitting(m, v, coins)) == EdgeCount(m)
  {
    SplitWithEdgeCount(m, v, Moves(m[v], v, coins, |m|));
  }

  /** Splitting an isolated vertex adds a vertex with no edges and copies the rest. */
  lemma SplittingIsolated(m: Matrix, v: int, coins: seq<bool>)
    requires IsSymmetric(m) && 0 <= v < |m|
    requires forall j :: 0 <= j < |m| && j != v ==> m[v][j] == 0
    ensures DrawsNeeded(m[v], v) == 0
    ensures forall a, b :: 0 <= a <= |m| && 0 <= b <= |m| ==>
      Splitting(m, v, coins)[a][b] == if a < |m| && b < |m| then m[a][b] else 0
  {
    var row := m[v];
    assert forall j :: 0 <= j <= |row| ==> DrawsBefore(row, v, j) == 0 by {
      forall j | 0 <= j <= |row| ensures DrawsBefore(row, v, j) == 0 {
        DrawsNone(row, v, j);
      }
    }
  }

  lemma {:induction false} DrawsNone(row: seq<int>, v: int, j: int)
    requires 0 <= j <= |row|
    requires forall c :: 0 <= c < |row| && c != v ==> row[c] == 0
    ensures DrawsBefore(row, v, j) == 0
  {
    if j > 0 {
      DrawsNone(row, v, j - 1);
    }
  }
}
