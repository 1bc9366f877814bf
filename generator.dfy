/** The random generator, with its random source replaced by a sequence of
    coin outcomes. The source draws one number per pair i < j, row by row and
    left to right, and joins the pair when the draw is below the probability;
    coins[k] is the outcome of the k-th draw. */
module Generator {
  import opened Matrix

  /** Position of the draw that decides the pair i < j. */
  function PairIndex(n: nat, i: nat, j: nat): (k: nat)
    requires i < j < n
    ensures PairsBefore(n, i) <= k < PairsBefore(n, i + 1)
    ensures k < PairCount(n)
  {
    PairsBeforeMono(n, i + 1, n);
    PairsBefore(n, i) + (j - i - 1)
  }

  /** The outcome of the draw for the pair i < j. */
  function CoinFor(n: nat, coins: seq<bool>, i: nat, j: nat): bool
    requires i < j < n && PairCount(n) <= |coins|
  {
    coins[PairIndex(n, i, j)]
  }

  /** The matrix the generator builds: zero diagonal, and each pair i < j
      set on both sides by its own draw. */
  function Generation(n: nat, coins: seq<bool>): Matrix
    requires PairCount(n) <= |coins|
  {
    seq(n, i requires 0 <= i < n => seq(n, j requires 0 <= j < n =>
      if i < j then Bit(CoinFor(n, coins, i, j))
      else if j < i then Bit(CoinFor(n, coins, j, i))
      else 0))
  }

  /** Distinct pairs are decided by distinct draws. */
  lemma PairIndexInjective(n: nat, i: nat, j: nat, i': nat, j': nat)
    requires i < j < n && i' < j' < n
    requires PairIndex(n, i, j) == PairIndex(n, i', j')
    ensures i == i' && j == j'
  {
    if i < i' {
      PairsBeforeMono(n, i + 1, i');
    } else if i' < i {
      PairsBeforeMono(n, i' + 1, i);
    }
  }

  /** The generated graph is a well-formed simple graph, and the pair i < j
      is joined exactly when its draw succeeded. */
  lemma GenerationShape(n: nat, coins: seq<bool>)
    requires PairCount(n) <= |coins|
    ensures IsSquare(Generation(n, coins), n)
    ensures IsBinary(Generation(n, coins))
    ensures IsSymmetric(Generation(n, coins))
    ensures IsLoopless(Generation(n, coins))
    ensures forall i, j :: 0 <= i < j < n ==>
      (Generation(n, coins)[i][j] == 1 <==> coins[PairIndex(n, i, j)])
  {
  }

  /** With probability 0 every draw fails and the graph has no edge. */
  lemma GenerationAllFail(n: nat, coins: seq<bool>)
    requires PairCount(n) <= |coins|
    requires forall k :: 0 <= k < |coins| ==> !coins[k]
    ensures EdgeCount(Generation(n, coins)) == 0
  {
    var m := Generation(n, coins);
    forall i, j | 0 <= i < j < n
      ensures m[i][j] == 0
    {
      assert !coins[PairIndex(n, i, j)];
    }
    EdgeCountZero(m);
  }

  /** With probability 1 every draw succeeds and the graph is complete. */
  lemma GenerationAllSucceed(n: nat, coins: seq<bool>)
    requires PairCount(n) <= |coins|
    requires forall k :: 0 <= k < |coins| ==> coins[k]
    ensures EdgeCount(Generation(n, coins)) == n * (n - 1) / 2
  {
    var m := Generation(n, coins);
    forall i, j | 0 <= i < j < n
      ensures m[i][j] != 0
    {
      assert coins[PairIndex(n, i, j)];
    }
    EdgeCountComplete(m);
  }
}
