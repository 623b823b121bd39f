/** Sums, index permutations and the multiset facts the graph model is built on. */
module Sequences {

  /** Sum of a sequence of integers, peeling off the last element, so that
      extending a prefix by one position adds exactly one term. */
  function Sum(s: seq<int>): int
    decreases |s|
  {
    if s == [] then 0 else Sum(s[..|s| - 1]) + s[|s| - 1]
  }

  lemma {:induction false} SumConcat(a: seq<int>, b: seq<int>)
    ensures Sum(a + b) == Sum(a) + Sum(b)
    decreases |b|
  {
    if b == [] {
      assert a + b == a;
    } else {
      var b' := b[..|b| - 1];
      assert (a + b)[..|a + b| - 1] == a + b';
      SumConcat(a, b');
    }
  }

  /** Adding `d` to one entry adds `d` to the sum. */
  lemma SumUpdate(s: seq<int>, i: int, d: int)
    requires 0 <= i < |s|
    ensures Sum(s[i := s[i] + d]) == Sum(s) + d
  {
    var t := s[i := s[i] + d];
    assert s == s[..i] + [s[i]] + s[i + 1..];
    assert t == s[..i] + [s[i] + d] + s[i + 1..];
    SumConcat(s[..i] + [s[i]], s[i + 1..]);
    SumConcat(s[..i], [s[i]]);
    SumConcat(s[..i] + [s[i] + d], s[i + 1..]);
    SumConcat(s[..i], [s[i] + d]);
    assert Sum([s[i]]) == s[i] by { assert [s[i]][..0] == []; }
    assert Sum([s[i] + d]) == s[i] + d by { assert [s[i] + d][..0] == []; }
  }

  lemma {:induction false} SumOfZeros(n: nat)
    ensures Sum(seq(n, _ => 0)) == 0
  {
    if n > 0 {
      assert seq(n, _ => 0)[..n - 1] == seq(n - 1, _ => 0);
      SumOfZeros(n - 1);
    }
  }

  /** The sum only depends on the multiset of the entries. */
  lemma {:induction false} SumPermutation(a: seq<int>, b: seq<int>)
    requires multiset(a) == multiset(b)
    ensures Sum(a) == Sum(b)
    decreases |a|
  {
    if a == [] {
      assert |b| == |multiset(b)| == 0;
    } else {
      var a', x := a[..|a| - 1], a[|a| - 1];
      assert a == a' + [x];
      assert x in multiset(b);
      var k :| 0 <= k < |b| && b[k] == x;
      var b' := b[..k] + b[k + 1..];
      assert b == b[..k] + [x] + b[k + 1..];
      assert multiset(b) == multiset(b[..k]) + multiset{x} + multiset(b[k + 1..]);
      assert multiset(a) == multiset(a') + multiset{x};
      assert multiset(b') == multiset(b[..k]) + multiset(b[k + 1..]);
      assert multiset(b') == multiset(b) - multiset{x};
      assert multiset(a') == multiset(a) - multiset{x};
      SumPermutation(a', b');
      SumConcat(b[..k], [x]);
      SumConcat(b[..k] + [x], b[k + 1..]);
      SumConcat(b[..k], b[k + 1..]);
      assert Sum([x]) == x by { assert [x][..0] == []; }
    }
  }

  /** The identity arrangement 0, 1, ..., n - 1. */
  function Range(n: nat): seq<int>
  {
    seq(n, i => i)
  }

  /** `p` rearranges 0 .. n - 1 (what `std::shuffle` leaves in an identity
      vector). The range clause is implied by the multiset clause and is kept
      because every use of `p` as an index needs it. */
  predicate IsPermutation(p: seq<int>, n: nat)
  {
    |p| == n &&
    (forall i :: 0 <= i < n ==> 0 <= p[i] < n) &&
    multiset(p) == multiset(Range(n))
  }

  /** `f` applied to every element. */
  function Map<A, B>(f: A -> B, s: seq<A>): (r: seq<B>)
    ensures |r| == |s| && forall i :: 0 <= i < |s| ==> r[i] == f(s[i])
  {
    seq(|s|, i requires 0 <= i < |s| => f(s[i]))
  }

  /** Taking out position `k` takes one copy of `s[k]` out of the multiset. */
  lemma RemoveAt<A>(s: seq<A>, k: int)
    requires 0 <= k < |s|
    ensures multiset(s[..k] + s[k + 1..]) == multiset(s) - multiset{s[k]}
  {
    assert s == s[..k] + [s[k]] + s[k + 1..];
  }

  /** The same, seen through `f`. */
  lemma MapRemoveAt<A, B>(f: A -> B, s: seq<A>, k: int)
    requires 0 <= k < |s|
    ensures multiset(Map(f, s)) == multiset(Map(f, s[..k] + s[k + 1..])) + multiset{f(s[k])}
  {
    var s1, s2 := s[..k], s[k + 1..];
    var m, m1, m2 := Map(f, s), Map(f, s1), Map(f, s2);
    assert m == m1 + [f(s[k])] + m2 by {
      forall i | 0 <= i < |m| ensures m[i] == (m1 + [f(s[k])] + m2)[i] {
        if i > k { assert s[i] == s2[i - k - 1]; }
      }
    }
    var m12 := Map(f, s1 + s2);
    assert m12 == m1 + m2 by {
      forall i | 0 <= i < |m12| ensures m12[i] == (m1 + m2)[i] {
        if i >= k { assert (s1 + s2)[i] == s2[i - k]; }
      }
    }
  }

  /** Rearranging the arguments rearranges the images. */
  lemma {:induction false} MapPermutation<A, B>(f: A -> B, s: seq<A>, t: seq<A>)
    requires multiset(s) == multiset(t)
    ensures multiset(Map(f, s)) == multiset(Map(f, t))
    decreases |s|
  {
    if s == [] {
      assert |t| == |multiset(t)| == 0;
    } else {
      var x := s[|s| - 1];
      assert x in multiset(t) by { assert x in multiset(s); }
      var k :| 0 <= k < |t| && t[k] == x;
      var s', t' := s[..|s| - 1] + s[|s|..], t[..k] + t[k + 1..];
      RemoveAt(s, |s| - 1);
      RemoveAt(t, k);
      MapPermutation(f, s', t');
      MapRemoveAt(f, s, |s| - 1);
      MapRemoveAt(f, t, k);
    }
  }

  /** The entries of `row` read in the order `idx` gives. */
  function Pick(row: seq<int>, idx: seq<int>): (r: seq<int>)
    requires forall k :: 0 <= k < |idx| ==> 0 <= idx[k] < |row|
    ensures |r| == |idx| && forall k :: 0 <= k < |idx| ==> r[k] == row[idx[k]]
  {
    Map(i => if 0 <= i < |row| then row[i] else 0, idx)
  }

  /** Reading a row through a permutation of its indices rearranges it. */
  lemma PickPermutation(row: seq<int>, p: seq<int>)
    requires IsPermutation(p, |row|)
    ensures multiset(Pick(row, p)) == multiset(row)
    ensures Sum(Pick(row, p)) == Sum(row)
  {
    var f := i => if 0 <= i < |row| then row[i] else 0;
    MapPermutation(f, p, Range(|row|));
    assert Map(f, Range(|row|)) == row;
    SumPermutation(Pick(row, p), row);
  }
}
