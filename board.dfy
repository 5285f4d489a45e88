/**
  The solver's board: how many knights it must place (numKnights) and the
  initial list of free squares (initializeBoard).
 */
module Board {
  import opened Lists
  import opened Positions

  /**
    numKnights: half the squares for an even board larger than 2, otherwise
    half the squares rounded up. Either way it is the number of squares of
    one colour of the checkerboard colouring, the larger colour class.
   */
  function NumKnights(n: int): (r: int)
    ensures r >= 0
    ensures n % 2 == 0 ==> 2 * r == n * n
    ensures n % 2 != 0 ==> 2 * r == n * n + 1
  {
    SquareParity(n);
    if n % 2 == 0 && n > 2 then (n * n) / 2 else (n * n + 1) / 2
  }

  /** A square has the parity of its root. */
  lemma SquareParity(n: int)
    ensures (n * n) % 2 == (if n % 2 == 0 then 0 else 1)
  {
    var h := n / 2;
    if n % 2 == 0 {
      assert n == 2 * h;
      assert n * n == 2 * (2 * h * h) by { assert n * n == (2 * h) * (2 * h); }
    } else {
      assert n == 2 * h + 1;
      assert n * n == 2 * (2 * h * h + 2 * h) + 1 by { assert n * n == (2 * h + 1) * (2 * h + 1); }
    }
  }

  /** The targets for the smallest boards and for the chessboard. */
  lemma NumKnightsExamples()
    ensures NumKnights(3) == 5 && NumKnights(4) == 8 && NumKnights(5) == 13 && NumKnights(8) == 32
  {
  }

  /** Entry `k` of the row-major enumeration of an n x n board. */
  function RowMajorAt(n: int, k: int): Pos
    requires n > 0
  {
    Pos(k / n, k % n)
  }

  /**
    initializeBoard: the nested loops over `i` then `j` append (i, j), so
    entry `k` is (k / n, k % n); every square of the board occurs exactly once.
   */
  method InitializeBoard(n: int) returns (bps: seq<Pos>)
    ensures |bps| == if n > 0 then n * n else 0
    ensures n > 0 ==> forall k :: 0 <= k < |bps| ==> bps[k] == RowMajorAt(n, k)
    ensures forall q :: q in bps <==> InBounds(n, q)
    ensures NoDup(bps)
  {
    bps := [];
    if n <= 0 {
      return;
    }
    var i := 0;
    while i < n
      invariant 0 <= i <= n
      invariant |bps| == i * n
      invariant forall k :: 0 <= k < |bps| ==> bps[k] == RowMajorAt(n, k)
    {
      var j := 0;
      while j < n
        invariant 0 <= j <= n
        invariant |bps| == i * n + j
        invariant forall k :: 0 <= k < |bps| ==> bps[k] == RowMajorAt(n, k)
      {
        RowMajorIndex(n, i, j);
        bps := bps + [Pos(i, j)];
        j := j + 1;
      }
      i := i + 1;
    }
    RowMajorComplete(n, bps);
  }

  /** Square (i, j) sits at index i * n + j of the enumeration. */
  lemma RowMajorIndex(n: int, i: int, j: int)
    requires n > 0 && 0 <= j < n
    ensures RowMajorAt(n, i * n + j) == Pos(i, j)
  {
    var k := i * n + j;
    assert k == n * i + j;
    DivModUnique(n, k, i, j);
  }

  /** Euclidean division has one quotient and one remainder. */
  lemma DivModUnique(n: int, k: int, q: int, r: int)
    requires n > 0 && 0 <= r < n && k == n * q + r
    ensures k / n == q && k % n == r
  {
    var q', r' := k / n, k % n;
    assert k == n * q' + r';
    if q > q' {
      MulStep(n, q', q);
    } else if q < q' {
      MulStep(n, q, q');
    }
  }

  /** A larger factor adds at least one more `n`. */
  lemma {:induction false} MulStep(n: int, a: int, b: int)
    requires n >= 0 && a < b
    ensures n * a + n <= n * b
    decreases b - a
  {
    if a + 1 < b {
      MulStep(n, a, b - 1);
    }
    assert n * b == n * (b - 1) + n;
  }

  /** The full enumeration holds every square of the board exactly once. */
  lemma RowMajorComplete(n: int, bps: seq<Pos>)
    requires n > 0 && |bps| == n * n
    requires forall k :: 0 <= k < |bps| ==> bps[k] == RowMajorAt(n, k)
    ensures forall q :: q in bps <==> InBounds(n, q)
    ensures NoDup(bps)
  {
    forall q ensures q in bps <==> InBounds(n, q) {
      if q in bps {
        var k :| 0 <= k < |bps| && bps[k] == q;
        RowMajorOnBoard(n, k);
      }
      if InBounds(n, q) {
        RowMajorIndex(n, q.x, q.y);
        RowMajorBelow(n, q.x, q.y);
        assert bps[q.x * n + q.y] == q;
      }
    }
    forall a, b | 0 <= a < b < |bps| ensures bps[a] != bps[b] {
      RowMajorInjective(n, a, b);
    }
  }

  /** Every index below n * n names a square of the board. */
  lemma RowMajorOnBoard(n: int, k: int)
    requires n > 0 && 0 <= k < n * n
    ensures InBounds(n, RowMajorAt(n, k))
  {
    assert k == n * (k / n) + k % n;
    assert n * (n - 1) + n == n * n;
    if k / n >= n {
      MulStep(n, n - 1, k / n);
    }
  }

  /** The index of a square of the board is below n * n. */
  lemma RowMajorBelow(n: int, i: int, j: int)
    requires n > 0 && 0 <= i < n && 0 <= j < n
    ensures 0 <= i * n + j < n * n
  {
    MulStep(n, i, n);
    assert i * n == n * i;
  }

  /** Distinct indices name distinct squares. */
  lemma RowMajorInjective(n: int, a: int, b: int)
    requires n > 0 && a != b
    ensures RowMajorAt(n, a) != RowMajorAt(n, b)
  {
    assert a == n * (a / n) + a % n && b == n * (b / n) + b % n;
  }
}
