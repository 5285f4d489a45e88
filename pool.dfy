/**
  The pool of available squares (availBoardPositions) as a value, and the
  invariant that ties it to the knights committed so far: the pool holds,
  without repetition, exactly the squares of the board that carry no knight
  and that no knight attacks. The two transitions of the search, commit and
  backtrack, are stated here as pool updates and proved to keep it.
 */
module Pool {
  import opened Lists
  import opened Positions

  /** Knights on distinct squares of the board, no one attacking another. */
  predicate Placement(n: int, ks: seq<Pos>) {
    NoDup(ks) &&
    (forall i :: 0 <= i < |ks| ==> InBounds(n, ks[i])) &&
    (forall i, j :: 0 <= i < |ks| && 0 <= j < |ks| ==> ks[j] !in Attacks(n, ks[i]))
  }

  /** The pool invariant: the free, unattacked squares, each exactly once. */
  ghost predicate PoolMatches(n: int, ks: seq<Pos>, pool: seq<Pos>) {
    NoDup(pool) &&
    forall q :: q in pool <==> InBounds(n, q) && q !in ks && q !in Conflicts(n, ks)
  }

  /** The pool after committing a knight to `bp`: `bp` and the squares it attacks go. */
  function CommitPool(n: int, pool: seq<Pos>, bp: Pos): (r: seq<Pos>)
    ensures forall q :: q in r <==> q in pool && q != bp && q !in Attacks(n, bp)
    ensures NoDup(pool) ==> NoDup(r)
    ensures Subsequence(r, pool)
  {
    var ex := [bp] + Attacks(n, bp);
    KeepIsSubsequence(pool, ex);
    assert NoDup(pool) ==> NoDup(Keep(pool, ex)) by {
      if NoDup(pool) { KeepNoDup(pool, ex); }
    }
    Keep(pool, ex)
  }

  /**
    The pool after undoing the knight on `k` (the knights before it being
    `ks`): `k` goes back at the end, followed by those squares `k` attacks
    that no earlier knight attacks, in attack order.
   */
  function RestoredPool(n: int, ks: seq<Pos>, pool: seq<Pos>, k: Pos): (r: seq<Pos>)
    ensures forall q :: q in r <==> q in pool || q == k || (q in Attacks(n, k) && q !in Conflicts(n, ks))
    ensures |pool| < |r| && r[..|pool| + 1] == pool + [k]
  {
    var r := pool + [k] + Keep(Attacks(n, k), Conflicts(n, ks));
    assert r[..|pool| + 1] == pool + [k];
    r
  }

  /**
    The pool update of the commit step: `remove(bp)`, then for each square
    `bp` attacks the index loop that removes the entries with its coordinates.
   */
  method RemoveAttacked(n: int, pool: seq<Pos>, bp: Pos) returns (avail: seq<Pos>)
    requires NoDup(pool)
    ensures avail == CommitPool(n, pool, bp)
  {
    avail := RemoveFirst(pool, bp);
    RemoveFirstIsKeep(pool, bp);
    assert [bp] + [] == [bp];
    KeepNoDup(pool, [bp]);
    var bms := Attacks(n, bp);
    var j := 0;
    while j < |bms|
      invariant 0 <= j <= |bms|
      invariant avail == Keep(pool, [bp] + bms[..j]) && NoDup(avail)
    {
      KeepKeep(pool, [bp] + bms[..j], [bms[j]]);
      assert [bp] + bms[..j + 1] == [bp] + bms[..j] + [bms[j]];
      KeepNoDup(avail, [bms[j]]);
      avail := RemoveMatching(avail, bms[j]);
      j := j + 1;
    }
    assert bms[..j] == bms;
  }

  /**
    The pool update of the backtrack step: append the undone square `k`,
    then each square `k` attacks that the flag scan does not find in
    `prevConflicts`.
   */
  method RestoreAttacked(n: int, pool: seq<Pos>, k: Pos, prevConflicts: seq<Pos>) returns (avail: seq<Pos>)
    ensures avail == pool + [k] + Keep(Attacks(n, k), prevConflicts)
  {
    avail := pool + [k];
    var bms := Attacks(n, k);
    var j := 0;
    while j < |bms|
      invariant 0 <= j <= |bms|
      invariant avail == pool + [k] + Keep(bms[..j], prevConflicts)
    {
      var found := Contains(prevConflicts, bms[j]);
      KeepPrefixStep(bms, j, prevConflicts);
      if !found {
        avail := avail + [bms[j]];
      }
      j := j + 1;
    }
    assert bms[..j] == bms;
  }

  /** The conflict list grows by the attack list of the knight added last. */
  lemma ConflictsSnoc(n: int, ks: seq<Pos>, k: Pos)
    ensures Conflicts(n, ks + [k]) == Conflicts(n, ks) + Attacks(n, k)
  {
    assert (ks + [k])[..|ks|] == ks;
  }

  /** No knights yet: the whole board is free. */
  lemma InitialPool(n: int, pool: seq<Pos>)
    requires NoDup(pool) && forall q :: q in pool <==> InBounds(n, q)
    ensures Placement(n, []) && PoolMatches(n, [], pool)
  {
  }

  /** The squares left in the pool are exactly the candidates that carry no knight. */
  lemma PoolSquaresFree(n: int, ks: seq<Pos>, pool: seq<Pos>, q: Pos)
    requires PoolMatches(n, ks, pool) && q in pool
    ensures InBounds(n, q) && q !in ks
  {
  }

  /**
    Commit keeps the invariant: a knight on any pool square extends the
    placement (it attacks no committed knight, by symmetry of the attack
    relation), and the updated pool matches the longer placement.
   */
  lemma CommitPreserves(n: int, ks: seq<Pos>, pool: seq<Pos>, bp: Pos)
    requires Placement(n, ks) && PoolMatches(n, ks, pool) && bp in pool
    ensures Placement(n, ks + [bp]) && PoolMatches(n, ks + [bp], CommitPool(n, pool, bp))
  {
    var ks' := ks + [bp];
    ConflictsSnoc(n, ks, bp);
    forall i | 0 <= i < |ks| ensures ks[i] !in Attacks(n, bp) && bp !in Attacks(n, ks[i]) {
      assert bp !in Attacks(n, ks[i]);
      AttackSymmetric(n, ks[i], bp);
    }
    AttacksExactly(n, bp);
    assert NoDup(ks') by {
      forall i, j | 0 <= i < j < |ks'| ensures ks'[i] != ks'[j] {
        if j == |ks| {
          assert ks'[i] == ks[i];
        } else {
          assert ks'[i] == ks[i] && ks'[j] == ks[j];
        }
      }
    }
    forall i, j | 0 <= i < |ks'| && 0 <= j < |ks'| ensures ks'[j] !in Attacks(n, ks'[i]) {
      if i < |ks| && j < |ks| {
        assert ks'[i] == ks[i] && ks'[j] == ks[j];
      } else if i < |ks| {
        assert ks'[i] == ks[i];
      } else if j < |ks| {
        assert ks'[j] == ks[j];
      }
    }
  }

  /**
    Backtrack keeps the invariant, and the restore rule is exact: re-adding
    the undone square and those of its attacked squares that are in no earlier
    knight's attack list yields precisely the pool of the shorter placement.
   */
  lemma BacktrackPreserves(n: int, ks: seq<Pos>, k: Pos, pool: seq<Pos>)
    requires Placement(n, ks + [k]) && PoolMatches(n, ks + [k], pool)
    ensures Placement(n, ks) && PoolMatches(n, ks, RestoredPool(n, ks, pool, k))
  {
    var ks' := ks + [k];
    var last := |ks|;
    assert ks'[last] == k;
    ConflictsSnoc(n, ks, k);
    AttacksExactly(n, k);
    assert Placement(n, ks) by {
      forall i | 0 <= i < |ks| ensures ks[i] == ks'[i] {
      }
    }
    assert k !in ks && k !in Conflicts(n, ks) by {
      forall i | 0 <= i < |ks| ensures ks[i] != k && k !in Attacks(n, ks[i]) {
        assert ks[i] == ks'[i];
      }
    }
    var extra := Keep(Attacks(n, k), Conflicts(n, ks));
    KeepNoDup(Attacks(n, k), Conflicts(n, ks));
    forall i | 0 <= i < |ks| ensures ks[i] !in Attacks(n, k) {
      assert ks[i] == ks'[i];
    }
    var r := RestoredPool(n, ks, pool, k);
    assert r == (pool + [k]) + extra;
    NoDupSnoc(pool, k);
    NoDupAppend(pool + [k], extra);
  }

  /** Appending a new element keeps a sequence duplicate-free. */
  lemma NoDupSnoc(s: seq<Pos>, x: Pos)
    requires NoDup(s) && x !in s
    ensures NoDup(s + [x])
  {
    forall i, j | 0 <= i < j < |s + [x]| ensures (s + [x])[i] != (s + [x])[j] {
      assert (s + [x])[i] == s[i];
    }
  }

  /** Concatenating disjoint duplicate-free sequences keeps them duplicate-free. */
  lemma NoDupAppend(a: seq<Pos>, b: seq<Pos>)
    requires NoDup(a) && NoDup(b) && forall q :: q in b ==> q !in a
    ensures NoDup(a + b)
  {
    forall i, j | 0 <= i < j < |a + b| ensures (a + b)[i] != (a + b)[j] {
      if j < |a| {
        assert (a + b)[i] == a[i] && (a + b)[j] == a[j];
      } else if i < |a| {
        assert (a + b)[i] == a[i] && (a + b)[j] == b[j - |a|] && b[j - |a|] in b;
      } else {
        assert (a + b)[i] == b[i - |a|] && (a + b)[j] == b[j - |a|];
      }
    }
  }

  /** In a duplicate-free sequence every element occurs once. */
  lemma {:induction false} NoDupCount(s: seq<Pos>, q: Pos)
    requires NoDup(s)
    ensures multiset(s)[q] == if q in s then 1 else 0
  {
    if s != [] {
      NoDupTail(s);
      NoDupCount(s[1..], q);
      assert s == [s[0]] + s[1..];
      assert multiset(s) == multiset{s[0]} + multiset(s[1..]);
    }
  }

  /** Duplicate-free sequences with the same elements are permutations of each other. */
  lemma SameElementsPermutation(a: seq<Pos>, b: seq<Pos>)
    requires NoDup(a) && NoDup(b) && forall q :: q in a <==> q in b
    ensures multiset(a) == multiset(b)
  {
    forall q ensures multiset(a)[q] == multiset(b)[q] {
      NoDupCount(a, q);
      NoDupCount(b, q);
    }
  }

  /**
    Commit followed by backtrack gives back the pool it started from, up to
    order: the search leaves no square lost or duplicated behind it.
   */
  lemma CommitThenBacktrack(n: int, ks: seq<Pos>, pool: seq<Pos>, bp: Pos)
    requires Placement(n, ks) && PoolMatches(n, ks, pool) && bp in pool
    ensures multiset(RestoredPool(n, ks, CommitPool(n, pool, bp), bp)) == multiset(pool)
  {
    CommitPreserves(n, ks, pool, bp);
    BacktrackPreserves(n, ks, bp, CommitPool(n, pool, bp));
    SameElementsPermutation(RestoredPool(n, ks, CommitPool(n, pool, bp), bp), pool);
  }
}
