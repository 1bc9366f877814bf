/** The representation every graph operation shares: a dense square 0/1
    adjacency matrix, and the two views derived from it after every mutation,
    the edge count and the adjacency lists. */
module Matrix {

  /** Row i, column j holds the edge bit between vertices i and j. */
  type Matrix = seq<seq<int>>

  /** The int a C++ bool converts to. */
  function Bit(b: bool): int { if b then 1 else 0 }

  predicate IsSquare(m: Matrix, n: int) {
    |m| == n && forall i :: 0 <= i < |m| ==> |m[i]| == n
  }

  predicate IsBinary(m: Matrix) {
    forall i, j :: 0 <= i < |m| && 0 <= j < |m[i]| ==> m[i][j] == 0 || m[i][j] == 1
  }

  predicate IsSymmetric(m: Matrix) {
    IsSquare(m, |m|) && forall i, j :: 0 <= i < |m| && 0 <= j < |m| ==> m[i][j] == m[j][i]
  }

  /** No vertex carries a self-loop (a 1 on the diagonal). */
  predicate IsLoopless(m: Matrix)
    requires IsSquare(m, |m|)
  {
    forall i :: 0 <= i < |m| ==> m[i][i] == 0
  }

  /** The n-by-n zero matrix, what `assign(n, vector<int>(n, 0))` allocates. */
  function Zeros(n: nat): Matrix {
    seq(n, _ => seq(n, _ => 0))
  }

  /** Number of columns c in [lo, hi) whose entry in row r is nonzero,
      counted left to right as the source's loops do. */
  function CountRow(r: seq<int>, lo: int, hi: int): (k: nat)
    requires 0 <= lo <= hi <= |r|
    ensures k <= hi - lo
    decreases hi - lo
  {
    if lo == hi then 0 else CountRow(r, lo, hi - 1) + Bit(r[hi - 1] != 0)
  }

  /** Edges counted in rows 0 .. k-1: for row i, the columns j > i. */
  function EdgesBelow(m: Matrix, k: nat): nat
    requires IsSquare(m, |m|) && k <= |m|
  {
    if k == 0 then 0 else EdgesBelow(m, k - 1) + CountRow(m[k - 1], k, |m|)
  }

  /** The edge count: pairs i < j with a nonzero entry. The diagonal is never read. */
  function EdgeCount(m: Matrix): nat
    requires IsSquare(m, |m|)
  {
    EdgesBelow(m, |m|)
  }

  /** Number of pairs i < j < n whose first vertex i lies below k. */
  function PairsBefore(n: nat, k: nat): nat
    requires k <= n
  {
    if k == 0 then 0 else PairsBefore(n, k - 1) + (n - k)
  }

  /** Number of unordered pairs of distinct vertices among n. */
  function PairCount(n: nat): nat {
    PairsBefore(n, n)
  }

  /** The columns c < hi of row r with a nonzero entry, in the order the
      source pushes them; the diagonal is not skipped. */
  function Neighbours(r: seq<int>, hi: nat): seq<int>
    requires hi <= |r|
  {
    if hi == 0 then [] else Neighbours(r, hi - 1) + (if r[hi - 1] != 0 then [hi - 1] else [])
  }

  /** One neighbour list per vertex. */
  function AdjList(m: Matrix): seq<seq<int>>
    requires IsSquare(m, |m|)
  {
    seq(|m|, i requires 0 <= i < |m| => Neighbours(m[i], |m|))
  }

  // ---------------------------------------------------------------------------
  // Counting rows

  /** Rows that agree on which entries are nonzero have the same count. */
  lemma {:induction false} CountRowSame(r: seq<int>, s: seq<int>, lo: int, hi: int)
    requires 0 <= lo <= hi <= |r| && hi <= |s|
    requires forall c :: lo <= c < hi ==> (r[c] != 0 <==> s[c] != 0)
    ensures CountRow(r, lo, hi) == CountRow(s, lo, hi)
    decreases hi - lo
  {
    if lo < hi {
      CountRowSame(r, s, lo, hi - 1);
    }
  }

  lemma {:induction false} CountRowZero(r: seq<int>, lo: int, hi: int)
    requires 0 <= lo <= hi <= |r|
    ensures CountRow(r, lo, hi) == 0 <==> forall c :: lo <= c < hi ==> r[c] == 0
    decreases hi - lo
  {
    if lo < hi {
      CountRowZero(r, lo, hi - 1);
    }
  }

  lemma {:induction false} CountRowFull(r: seq<int>, lo: int, hi: int)
    requires 0 <= lo <= hi <= |r|
    requires forall c :: lo <= c < hi ==> r[c] != 0
    ensures CountRow(r, lo, hi) == hi - lo
    decreases hi - lo
  {
    if lo < hi {
      CountRowFull(r, lo, hi - 1);
    }
  }

  /** Counting over [lo, hi) is counting over [lo, mid) and then over [mid, hi). */
  lemma {:induction false} CountRowSplit(r: seq<int>, lo: int, mid: int, hi: int)
    requires 0 <= lo <= mid <= hi <= |r|
    ensures CountRow(r, lo, hi) == CountRow(r, lo, mid) + CountRow(r, mid, hi)
    decreases hi - mid
  {
    if mid < hi {
      CountRowSplit(r, lo, mid, hi - 1);
    }
  }

  /** Clearing the nonzero entries that a mask selects lowers the count by
      the number of entries selected. */
  lemma {:induction false} CountRowMasked(r: seq<int>, s: seq<int>, mask: seq<int>, lo: int, hi: int)
    requires 0 <= lo <= hi <= |r| && hi <= |s| && hi <= |mask|
    requires forall c :: lo <= c < hi && mask[c] != 0 ==> r[c] != 0 && s[c] == 0
    requires forall c :: lo <= c < hi && mask[c] == 0 ==> (r[c] != 0 <==> s[c] != 0)
    ensures CountRow(s, lo, hi) + CountRow(mask, lo, hi) == CountRow(r, lo, hi)
    decreases hi - lo
  {
    if lo < hi {
      CountRowMasked(r, s, mask, lo, hi - 1);
    }
  }

  /** Clearing one nonzero entry at column p lowers the count by one when p is counted. */
  lemma {:induction false} CountRowClearOne(r: seq<int>, s: seq<int>, p: int, lo: int, hi: int)
    requires 0 <= lo <= hi <= |r| && hi <= |s|
    requires 0 <= p < |r| && p < |s| && r[p] != 0 && s[p] == 0
    requires forall c :: lo <= c < hi && c != p ==> (r[c] != 0 <==> s[c] != 0)
    ensures CountRow(s, lo, hi) + Bit(lo <= p < hi) == CountRow(r, lo, hi)
    decreases hi - lo
  {
    if lo < hi {
      CountRowClearOne(r, s, p, lo, hi - 1);
    }
  }

  // ---------------------------------------------------------------------------
  // The edge count

  /** Rows below k that agree off the diagonal give the same partial count. */
  lemma {:induction false} EdgesBelowOffDiagonal(m: Matrix, m': Matrix, k: nat)
    requires IsSquare(m, |m|) && IsSquare(m', |m|) && k <= |m|
    requires forall i, j :: 0 <= i < |m| && 0 <= j < |m| && i != j ==> (m[i][j] != 0 <==> m'[i][j] != 0)
    ensures EdgesBelow(m, k) == EdgesBelow(m', k)
  {
    if k > 0 {
      EdgesBelowOffDiagonal(m, m', k - 1);
      CountRowSame(m[k - 1], m'[k - 1], k, |m|);
    }
  }

  /** Self-loops never contribute: matrices that differ only on the diagonal
      have the same edge count. */
  lemma EdgeCountIgnoresDiagonal(m: Matrix, m': Matrix)
    requires IsSquare(m, |m|) && IsSquare(m', |m|)
    requires forall i, j :: 0 <= i < |m| && 0 <= j < |m| && i != j ==> (m[i][j] != 0 <==> m'[i][j] != 0)
    ensures EdgeCount(m) == EdgeCount(m')
  {
    EdgesBelowOffDiagonal(m, m', |m|);
  }

  lemma {:induction false} EdgesBelowZero(m: Matrix, k: nat)
    requires IsSquare(m, |m|) && k <= |m|
    ensures EdgesBelow(m, k) == 0 <==> forall i, j :: 0 <= i < k && i < j < |m| ==> m[i][j] == 0
  {
    if k > 0 {
      EdgesBelowZero(m, k - 1);
      CountRowZero(m[k - 1], k, |m|);
    }
  }

  /** The edge count is zero exactly when no pair i < j has an edge. */
  lemma EdgeCountZero(m: Matrix)
    requires IsSquare(m, |m|)
    ensures EdgeCount(m) == 0 <==> forall i, j :: 0 <= i < j < |m| ==> m[i][j] == 0
  {
    EdgesBelowZero(m, |m|);
  }

  lemma {:induction false} EdgesBelowComplete(m: Matrix, k: nat)
    requires IsSquare(m, |m|) && k <= |m|
    requires forall i, j :: 0 <= i < j < |m| ==> m[i][j] != 0
    ensures EdgesBelow(m, k) == PairsBefore(|m|, k)
  {
    if k > 0 {
      EdgesBelowComplete(m, k - 1);
      CountRowFull(m[k - 1], k, |m|);
    }
  }

  /** Twice the pairs below row k, in closed form. */
  lemma {:induction false} PairsBeforeClosed(n: nat, k: nat)
    requires k <= n
    ensures 2 * PairsBefore(n, k) == k * (2 * n - k - 1)
  {
    if k > 0 {
      PairsBeforeClosed(n, k - 1);
      assert (k - 1) * (2 * n - k) == k * (2 * n - k - 1) - 2 * (n - k);
    }
  }

  lemma PairCountClosed(n: nat)
    ensures PairCount(n) == n * (n - 1) / 2
  {
    PairsBeforeClosed(n, n);
    assert n * (2 * n - n - 1) == n * (n - 1);
  }

  /** A complete graph on n vertices has n(n-1)/2 edges. */
  lemma EdgeCountComplete(m: Matrix)
    requires IsSquare(m, |m|)
    requires forall i, j :: 0 <= i < j < |m| ==> m[i][j] != 0
    ensures EdgeCount(m) == |m| * (|m| - 1) / 2
  {
    EdgesBelowComplete(m, |m|);
    PairCountClosed(|m|);
  }

  lemma {:induction false} EdgesBelowBound(m: Matrix, k: nat)
    requires IsSquare(m, |m|) && k <= |m|
    ensures EdgesBelow(m, k) <= PairsBefore(|m|, k)
  {
    if k > 0 {
      EdgesBelowBound(m, k - 1);
    }
  }

  /** No graph has more edges than pairs of distinct vertices. */
  lemma EdgeCountBound(m: Matrix)
    requires IsSquare(m, |m|)
    ensures EdgeCount(m) <= |m| * (|m| - 1) / 2
  {
    EdgesBelowBound(m, |m|);
    PairCountClosed(|m|);
  }

  lemma {:induction false} PairsBeforeMono(n: nat, k: nat, k': nat)
    requires k <= k' <= n
    ensures PairsBefore(n, k) <= PairsBefore(n, k')
    decreases k' - k
  {
    if k < k' {
      PairsBeforeMono(n, k, k' - 1);
    }
  }

  // ---------------------------------------------------------------------------
  // The adjacency list

  /** A neighbour list holds exactly the columns below hi with a nonzero
      entry, diagonal included, in strictly ascending order. */
  lemma {:induction false} NeighboursExact(r: seq<int>, hi: nat)
    requires hi <= |r|
    ensures forall x :: x in Neighbours(r, hi) <==> 0 <= x < hi && r[x] != 0
    ensures forall a, b :: 0 <= a < b < |Neighbours(r, hi)| ==> Neighbours(r, hi)[a] < Neighbours(r, hi)[b]
  {
    if hi > 0 {
      NeighboursExact(r, hi - 1);
      var p := Neighbours(r, hi - 1);
      assert forall a :: 0 <= a < |p| ==> p[a] in p && p[a] < hi - 1;
    }
  }

  /** Every adjacency list is the ascending list of the row's nonzero columns. */
  lemma AdjListExact(m: Matrix, i: int)
    requires IsSquare(m, |m|) && 0 <= i < |m|
    ensures forall x :: x in AdjList(m)[i] <==> 0 <= x < |m| && m[i][x] != 0
    ensures forall a, b :: 0 <= a < b < |AdjList(m)[i]| ==> AdjList(m)[i][a] < AdjList(m)[i][b]
  {
    NeighboursExact(m[i], |m|);
  }
}
