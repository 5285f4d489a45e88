/**
  Sequence operations the solver performs on its java.util.ArrayList fields:
  membership scans, appending without duplicates, removal of the first
  occurrence, and the index-based removal loop of the commit step. Since
  board positions compare by coordinates everywhere except one call whose
  argument is always in the list, datatype equality stands for both.
 */
module Lists {

  /** No element occurs twice. */
  predicate NoDup<T(==)>(s: seq<T>) {
    forall i, j :: 0 <= i < j < |s| ==> s[i] != s[j]
  }

  /** The elements of `s` that are not in `ex`, in their original order. */
  function Keep<T(==, !new)>(s: seq<T>, ex: seq<T>): (r: seq<T>)
    ensures forall q :: q in r <==> q in s && q !in ex
    ensures |r| <= |s|
  {
    if s == [] then [] else (if s[0] in ex then [] else [s[0]]) + Keep(s[1..], ex)
  }

  /** `a` is `b` with some elements left out, the rest in their order. */
  predicate Subsequence<T(==)>(a: seq<T>, b: seq<T>)
    decreases |b|
  {
    if a == [] then true
    else if b == [] then false
    else (a[0] == b[0] && Subsequence(a[1..], b[1..])) || Subsequence(a, b[1..])
  }

  /** Filtering keeps the surviving elements in their relative order. */
  lemma {:induction false} KeepIsSubsequence<T(!new)>(s: seq<T>, ex: seq<T>)
    ensures Subsequence(Keep(s, ex), s)
  {
    if s != [] {
      KeepIsSubsequence(s[1..], ex);
      if s[0] !in ex {
        assert Keep(s, ex) == [s[0]] + Keep(s[1..], ex);
        assert Keep(s, ex)[1..] == Keep(s[1..], ex);
      } else {
        assert Keep(s, ex) == Keep(s[1..], ex);
      }
    }
  }

  lemma {:induction false} KeepConcat<T(!new)>(a: seq<T>, b: seq<T>, ex: seq<T>)
    ensures Keep(a + b, ex) == Keep(a, ex) + Keep(b, ex)
  {
    if a == [] {
      assert a + b == b;
    } else {
      assert (a + b)[1..] == a[1..] + b;
      KeepConcat(a[1..], b, ex);
    }
  }

  /** The tail of a duplicate-free sequence is duplicate-free and lacks the head. */
  lemma NoDupTail<T(!new)>(s: seq<T>)
    requires NoDup(s) && s != []
    ensures NoDup(s[1..]) && s[0] !in s[1..]
  {
    forall i, j | 0 <= i < j < |s[1..]| ensures s[1..][i] != s[1..][j] {
      assert s[1..][i] == s[i + 1] && s[1..][j] == s[j + 1];
    }
    forall k | 0 <= k < |s[1..]| ensures s[1..][k] != s[0] {
      assert s[1..][k] == s[k + 1];
    }
  }

  /** Filtering a duplicate-free sequence leaves it duplicate-free. */
  lemma {:induction false} KeepNoDup<T(!new)>(s: seq<T>, ex: seq<T>)
    requires NoDup(s)
    ensures NoDup(Keep(s, ex))
  {
    if s != [] {
      NoDupTail(s);
      KeepNoDup(s[1..], ex);
      var t := Keep(s[1..], ex);
      assert s[0] !in t;
      var head := if s[0] in ex then [] else [s[0]];
      assert Keep(s, ex) == head + t;
      forall i, j | 0 <= i < j < |head + t| ensures (head + t)[i] != (head + t)[j] {
        if head != [] && i == 0 {
          assert (head + t)[j] == t[j - 1];
        }
      }
    }
  }

  /** Two filters in a row are one filter by both exclusion lists. */
  lemma {:induction false} KeepKeep<T(!new)>(s: seq<T>, a: seq<T>, b: seq<T>)
    ensures Keep(Keep(s, a), b) == Keep(s, a + b)
  {
    if s != [] {
      var head := if s[0] in a then [] else [s[0]];
      KeepConcat(head, Keep(s[1..], a), b);
      KeepKeep(s[1..], a, b);
    }
  }

  /** Filtering a prefix one element longer adds at most that element. */
  lemma KeepPrefixStep<T(!new)>(s: seq<T>, j: nat, ex: seq<T>)
    requires j < |s|
    ensures Keep(s[..j + 1], ex) == Keep(s[..j], ex) + (if s[j] in ex then [] else [s[j]])
  {
    assert s[..j + 1] == s[..j] + [s[j]];
    KeepConcat(s[..j], [s[j]], ex);
  }

  /** `ArrayList.remove(Object)`: drop the first occurrence of `x`, if any. */
  function RemoveFirst<T(==)>(s: seq<T>, x: T): (r: seq<T>)
    ensures x !in s ==> r == s
    ensures x in s ==> |r| == |s| - 1 && multiset(r) == multiset(s) - multiset{x}
  {
    if s == [] then []
    else if s[0] == x then
      assert s == [s[0]] + s[1..];
      s[1..]
    else
      assert s == [s[0]] + s[1..];
      [s[0]] + RemoveFirst(s[1..], x)
  }

  /** On a duplicate-free list, removing the first occurrence removes every occurrence. */
  lemma {:induction false} RemoveFirstIsKeep<T(!new)>(s: seq<T>, x: T)
    requires NoDup(s)
    ensures RemoveFirst(s, x) == Keep(s, [x])
  {
    if s != [] {
      NoDupTail(s);
      if s[0] == x {
        KeepAll(s[1..], [x]);
      } else {
        RemoveFirstIsKeep(s[1..], x);
      }
    }
  }

  /** A filter that excludes nothing of `s` leaves `s` as it is. */
  lemma {:induction false} KeepAll<T(!new)>(s: seq<T>, ex: seq<T>)
    requires forall q :: q in s ==> q !in ex
    ensures Keep(s, ex) == s
  {
    if s != [] {
      KeepAll(s[1..], ex);
    }
  }

  /**
    The loop `for (i = 0; i < list.size(); i++) if (list.get(i) equals c) list.remove(i);`.
    After a removal the next element slides into slot `i` and is skipped by
    `i++`; on a duplicate-free list that element cannot equal `c`, so the
    loop removes exactly the occurrence of `c`.
   */
  method RemoveMatching<T(==, !new)>(s: seq<T>, c: T) returns (r: seq<T>)
    requires NoDup(s)
    ensures r == Keep(s, [c])
  {
    r := s;
    var i := 0;
    ghost var j := 0;
    while i < |r|
      invariant 0 <= j <= |s|
      invariant r == Keep(s[..j], [c]) + s[j..]
      invariant i == |Keep(s[..j], [c])| || (j == |s| && i == |r| + 1)
      decreases |r| + 1 - i
    {
      DropAt(Keep(s[..j], [c]), s[j..]);
      assert s[j..][1..] == s[j + 1..];
      if r[i] == c {
        r := r[..i] + r[i + 1..];
        if j + 1 < |s| { NoDupAt(s, j, j + 1); }
        j := RemovedStep(s, j, c);
      } else {
        KeptStep(s, j, c);
        j := j + 1;
      }
      i := i + 1;
    }
    assert s[..j] == s;
  }

  /** Removing index `|a|` of `a + b` drops the head of `b`. */
  lemma DropAt<T>(a: seq<T>, b: seq<T>)
    requires b != []
    ensures (a + b)[|a|] == b[0]
    ensures (a + b)[..|a|] + (a + b)[|a| + 1..] == a + b[1..]
  {
    assert (a + b)[..|a|] == a;
    assert (a + b)[|a| + 1..] == b[1..];
  }

  /**
    A removal in RemoveMatching seen on the original list: `s[j] == c` goes
    and, when there is one, the skipped `s[j + 1]` stays. Returns the index
    into `s` the loop has reached afterwards.
   */
  lemma RemovedStep<T(!new)>(s: seq<T>, j: nat, c: T) returns (j': nat)
    requires j < |s| && s[j] == c && (j + 1 < |s| ==> s[j + 1] != c)
    ensures j' <= |s|
    ensures Keep(s[..j], [c]) + s[j + 1..] == Keep(s[..j'], [c]) + s[j'..]
    ensures |Keep(s[..j'], [c])| == |Keep(s[..j], [c])| + 1 || (j' == |s| && |Keep(s[..j], [c])| == |Keep(s[..j'], [c])|)
  {
    var done := Keep(s[..j], [c]);
    assert Keep(s[..j + 1], [c]) == done by { KeepPrefixStep(s, j, [c]); }
    if j + 1 < |s| {
      assert Keep(s[..j + 2], [c]) == done + [s[j + 1]] by { KeepPrefixStep(s, j + 1, [c]); }
      assert s[j + 1..] == [s[j + 1]] + s[j + 2..];
      assert done + s[j + 1..] == (done + [s[j + 1]]) + s[j + 2..];
      j' := j + 2;
    } else {
      j' := j + 1;
    }
  }

  /** A step of RemoveMatching past an element other than `c`. */
  lemma KeptStep<T(!new)>(s: seq<T>, j: nat, c: T)
    requires j < |s| && s[j] != c
    ensures Keep(s[..j], [c]) + s[j..] == Keep(s[..j + 1], [c]) + s[j + 1..]
    ensures |Keep(s[..j + 1], [c])| == |Keep(s[..j], [c])| + 1
  {
    KeepPrefixStep(s, j, [c]);
    assert s[j..] == [s[j]] + s[j + 1..];
  }

  lemma NoDupAt<T(!new)>(s: seq<T>, i: nat, j: nat)
    requires NoDup(s) && i < j < |s|
    ensures s[i] != s[j]
  {
  }

  /** The flag scan `found = false; for (e : s) if (e equals p) found = true;`. */
  method Contains<T(==)>(s: seq<T>, p: T) returns (found: bool)
    ensures found <==> p in s
  {
    found := false;
    var k := 0;
    while k < |s|
      invariant 0 <= k <= |s|
      invariant found <==> p in s[..k]
    {
      assert s[..k + 1] == s[..k] + [s[k]];
      if s[k] == p {
        found := true;
      }
      k := k + 1;
    }
    assert s[..k] == s;
  }

  /** Append `x` unless an equal element is already present. */
  function Inserted<T(==, !new)>(s: seq<T>, x: T): (r: seq<T>)
    ensures x in r
    ensures forall q :: q in r <==> q in s || q == x
    ensures |s| <= |r| <= |s| + 1 && r[..|s|] == s
    ensures NoDup(s) ==> NoDup(r)
  {
    if x in s then s else s + [x]
  }

  /** Inserting the same element twice is inserting it once. */
  lemma InsertedIdempotent<T(!new)>(s: seq<T>, x: T)
    ensures Inserted(Inserted(s, x), x) == Inserted(s, x)
  {
  }
}
