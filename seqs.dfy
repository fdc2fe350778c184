/** Sequence helpers that stand for JavaScript array built-ins on `number[]`. */
module Seqs {

  /** `Array.prototype.indexOf`: the first index holding `x`, or -1. */
  function IndexOf(s: seq<int>, x: int): (r: int)
    ensures -1 <= r < |s|
    ensures r == -1 <==> x !in s
    ensures 0 <= r ==> r < |s| && s[r] == x && x !in s[..r]
  {
    if s == [] then -1
    else if s[0] == x then 0
    else
      var k := IndexOf(s[1..], x);
      assert s[1..][..if k < 0 then 0 else k] == s[1..if k < 0 then 1 else k + 1];
      if k < 0 then -1 else k + 1
  }

  /** No value occurs twice: the head is not repeated in the tail, and so on. */
  predicate Distinct(s: seq<int>) {
    s == [] || (s[0] !in s[1..] && Distinct(s[1..]))
  }

  /** A sequence with a head is duplicate-free exactly when the head is not
      in the tail and the tail is duplicate-free. */
  lemma DistinctCons(x: int, s: seq<int>)
    ensures Distinct([x] + s) <==> x !in s && Distinct(s)
  {
    assert ([x] + s)[1..] == s;
  }

  /** The positional reading of `Distinct`: two positions hold different values. */
  lemma {:induction false} DistinctAt(s: seq<int>, i: int, j: int)
    requires Distinct(s) && 0 <= i < j < |s|
    ensures s[i] != s[j]
  {
    if i == 0 {
      assert s[j] == s[1..][j - 1];
    } else {
      DistinctAt(s[1..], i - 1, j - 1);
    }
  }

  /** Positions with pairwise different values make a duplicate-free sequence. */
  lemma {:induction false} DistinctFromPositions(s: seq<int>)
    requires forall i, j :: 0 <= i < j < |s| ==> s[i] != s[j]
    ensures Distinct(s)
  {
    if s != [] {
      forall i, j | 0 <= i < j < |s[1..]| ensures s[1..][i] != s[1..][j] {
        assert s[1..][i] == s[i + 1] && s[1..][j] == s[j + 1];
      }
      DistinctFromPositions(s[1..]);
      forall j | 0 <= j < |s[1..]| ensures s[1..][j] != s[0] {
        assert s[1..][j] == s[j + 1];
      }
    }
  }

  /** Number of occurrences of `x`. */
  function Count(s: seq<int>, x: int): (n: nat)
    ensures n == 0 <==> x !in s
    ensures n <= |s|
  {
    if s == [] then 0 else (if s[0] == x then 1 else 0) + Count(s[1..], x)
  }

  /** `s` with every occurrence of `x` filtered out, the others kept in order. */
  function Without(s: seq<int>, x: int): (r: seq<int>)
    ensures x !in r
    ensures |r| == |s| - Count(s, x)
  {
    if s == [] then [] else (if s[0] == x then [] else [s[0]]) + Without(s[1..], x)
  }

  /** Filtering out `x` keeps every other value that was there and adds none. */
  lemma {:induction false} WithoutMembers(s: seq<int>, x: int, y: int)
    requires y != x
    ensures y in Without(s, x) <==> y in s
  {
    if s != [] {
      WithoutMembers(s[1..], x, y);
      assert s == [s[0]] + s[1..];
    }
  }

  /** In a duplicate-free sequence `indexOf` finds each element at its own position. */
  lemma IndexOfDistinct(s: seq<int>, k: int)
    requires Distinct(s) && 0 <= k < |s|
    ensures IndexOf(s, s[k]) == k
  {
    var r := IndexOf(s, s[k]);
    if r != k {
      if r < k {
        DistinctAt(s, r, k);
      } else {
        DistinctAt(s, k, r);
      }
    }
  }

  lemma {:induction false} WithoutConcat(a: seq<int>, b: seq<int>, x: int)
    ensures Without(a + b, x) == Without(a, x) + Without(b, x)
  {
    if a == [] {
      assert a + b == b;
    } else {
      assert (a + b)[1..] == a[1..] + b;
      WithoutConcat(a[1..], b, x);
    }
  }

  lemma {:induction false} CountConcat(a: seq<int>, b: seq<int>, x: int)
    ensures Count(a + b, x) == Count(a, x) + Count(b, x)
  {
    if a == [] {
      assert a + b == b;
    } else {
      assert (a + b)[1..] == a[1..] + b;
      CountConcat(a[1..], b, x);
    }
  }

  /** The halves of a duplicate-free concatenation are duplicate-free and apart. */
  lemma DistinctSplit(a: seq<int>, b: seq<int>)
    requires Distinct(a + b)
    ensures Distinct(a) && Distinct(b)
    ensures forall x :: x in a ==> x !in b
  {
    DistinctConcat(a, b);
  }

  /** Two duplicate-free sequences that share nothing concatenate to one. */
  lemma DistinctJoin(a: seq<int>, b: seq<int>)
    requires Distinct(a) && Distinct(b)
    requires forall x :: x in a ==> x !in b
    ensures Distinct(a + b)
  {
    DistinctConcat(a, b);
  }

  /** A concatenation is duplicate-free exactly when both halves are and they share nothing. */
  lemma {:induction false} DistinctConcat(a: seq<int>, b: seq<int>)
    ensures Distinct(a + b) <==> Distinct(a) && Distinct(b) && (forall x :: x in a ==> x !in b)
  {
    if a == [] {
      assert a + b == b;
    } else {
      assert (a + b)[0] == a[0];
      assert (a + b)[1..] == a[1..] + b;
      DistinctConcat(a[1..], b);
      assert a[0] in (a + b)[1..] <==> a[0] in a[1..] || a[0] in b;
      assert forall x :: x in a <==> x == a[0] || x in a[1..];
    }
  }

  /** Regrouping a three-part concatenation to the right. */
  lemma ConcatAssoc<T>(a: seq<T>, b: seq<T>, c: seq<T>)
    ensures a + b + c == a + (b + c)
  {
  }

  /** Regrouping a concatenation whose middle part is itself split in three. */
  lemma RegroupMiddle<T>(a: seq<T>, p: seq<T>, x: seq<T>, q: seq<T>, b: seq<T>)
    ensures a + (p + x + q) + b == (a + p) + x + (q + b)
  {
  }

  /** Regrouping a concatenation whose last part is itself split in three. */
  lemma RegroupLast<T>(a: seq<T>, b: seq<T>, p: seq<T>, x: seq<T>, q: seq<T>)
    ensures a + b + (p + x + q) == (a + b + p) + x + q
  {
  }
}
