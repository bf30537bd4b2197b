/** Order-aware sequence operations shared by the views: `Array.prototype.filter`,
    the insertion-ordered de-duplication `Array.from(new Set(xs))`, and the
    subsequence relation that says an operation only ever deletes. */
module Seqs {

  /** `a` is what is left of `b` after deleting some elements: relative order is
      kept and nothing is invented. */
  predicate IsSubseq<T(==)>(a: seq<T>, b: seq<T>)
    decreases |b|
  {
    || |a| == 0
    || (|b| > 0 && ((a[0] == b[0] && IsSubseq(a[1..], b[1..])) || IsSubseq(a, b[1..])))
  }

  /** Every element of a subsequence comes from the original. */
  lemma {:induction false} SubseqMembers<T>(a: seq<T>, b: seq<T>)
    requires IsSubseq(a, b)
    ensures forall x :: x in a ==> x in b
    ensures |a| <= |b|
    decreases |b|
  {
    if |a| > 0 {
      if a[0] == b[0] && IsSubseq(a[1..], b[1..]) {
        SubseqMembers(a[1..], b[1..]);
        assert a == [a[0]] + a[1..];
      } else {
        SubseqMembers(a, b[1..]);
      }
    }
  }

  /** Deleting from what was obtained by deleting is still deleting. */
  lemma {:induction false} SubseqTransitive<T>(a: seq<T>, b: seq<T>, c: seq<T>)
    requires IsSubseq(a, b) && IsSubseq(b, c)
    ensures IsSubseq(a, c)
    decreases |c|
  {
    if |a| > 0 {
      assert |b| > 0;
      if b[0] == c[0] && IsSubseq(b[1..], c[1..]) {
        if a[0] == b[0] && IsSubseq(a[1..], b[1..]) {
          SubseqTransitive(a[1..], b[1..], c[1..]);
        } else {
          SubseqTransitive(a, b[1..], c[1..]);
        }
      } else {
        SubseqTransitive(a, b, c[1..]);
      }
    }
  }

  /** Every sequence is a subsequence of itself. */
  lemma {:induction false} SubseqRefl<T>(a: seq<T>)
    ensures IsSubseq(a, a)
  {
    if |a| > 0 {
      SubseqRefl(a[1..]);
    }
  }

  /** Subsequences of two pieces glue into a subsequence of the glued pieces. */
  lemma {:induction false} SubseqConcat<T>(a1: seq<T>, b1: seq<T>, a2: seq<T>, b2: seq<T>)
    requires IsSubseq(a1, b1) && IsSubseq(a2, b2)
    ensures IsSubseq(a1 + a2, b1 + b2)
    decreases |b1|
  {
    if |b1| == 0 {
      assert a1 == [] && a1 + a2 == a2 && b1 + b2 == b2;
    } else if |a1| > 0 && a1[0] == b1[0] && IsSubseq(a1[1..], b1[1..]) {
      SubseqConcat(a1[1..], b1[1..], a2, b2);
      assert (a1 + a2)[1..] == a1[1..] + a2;
      assert (b1 + b2)[1..] == b1[1..] + b2;
    } else {
      SubseqConcat(a1, b1[1..], a2, b2);
      assert (b1 + b2)[1..] == b1[1..] + b2;
    }
  }

  /** `xs.filter(p)`: the elements satisfying `p`, in their original order. */
  function Filter<T(!new)>(xs: seq<T>, p: T -> bool): (r: seq<T>)
    ensures forall x :: x in r <==> x in xs && p(x)
  {
    if |xs| == 0 then []
    else
      var rest := Filter(xs[1..], p);
      if p(xs[0]) then [xs[0]] + rest else rest
  }

  /** A filter only deletes. */
  lemma {:induction false} FilterSubseq<T(!new)>(xs: seq<T>, p: T -> bool)
    ensures IsSubseq(Filter(xs, p), xs)
  {
    if |xs| > 0 {
      FilterSubseq(xs[1..], p);
      if p(xs[0]) {
        assert ([xs[0]] + Filter(xs[1..], p))[1..] == Filter(xs[1..], p);
      }
    }
  }

  /** A filter keeps every copy of a passing value and no copy of a failing
      one. */
  lemma {:induction false} FilterMultiset<T(!new)>(xs: seq<T>, p: T -> bool)
    ensures forall x :: multiset(Filter(xs, p))[x] == if p(x) then multiset(xs)[x] else 0
  {
    if |xs| > 0 {
      FilterMultiset(xs[1..], p);
      assert xs == [xs[0]] + xs[1..];
      assert multiset(xs) == multiset{xs[0]} + multiset(xs[1..]);
      if p(xs[0]) {
        assert multiset(Filter(xs, p)) == multiset{xs[0]} + multiset(Filter(xs[1..], p));
      }
    }
  }

  /** `xs.filter(p)` when `on`, `xs` itself otherwise. */
  function FilterWhen<T(!new)>(on: bool, xs: seq<T>, p: T -> bool): (r: seq<T>)
    ensures forall x :: x in r <==> x in xs && (on ==> p(x))
    ensures forall x :: multiset(r)[x] == if on && !p(x) then 0 else multiset(xs)[x]
    ensures IsSubseq(r, xs)
    ensures !on ==> r == xs
  {
    if on then
      FilterSubseq(xs, p);
      FilterMultiset(xs, p);
      Filter(xs, p)
    else
      SubseqRefl(xs);
      xs
  }

  /** A filter whose test every element passes returns its input. */
  lemma {:induction false} FilterKeepsAll<T(!new)>(xs: seq<T>, p: T -> bool)
    requires forall i :: 0 <= i < |xs| ==> p(xs[i])
    ensures Filter(xs, p) == xs
  {
    if |xs| > 0 {
      FilterKeepsAll(xs[1..], p);
      assert xs == [xs[0]] + xs[1..];
    }
  }

  /** A filter that no element passes returns nothing. */
  lemma {:induction false} FilterNone<T(!new)>(xs: seq<T>, p: T -> bool)
    requires forall i :: 0 <= i < |xs| ==> !p(xs[i])
    ensures Filter(xs, p) == []
  {
    if |xs| > 0 {
      FilterNone(xs[1..], p);
    }
  }

  /** Filtering distributes over concatenation. */
  lemma {:induction false} FilterConcat<T(!new)>(a: seq<T>, b: seq<T>, p: T -> bool)
    ensures Filter(a + b, p) == Filter(a, p) + Filter(b, p)
  {
    if |a| == 0 {
      assert a + b == b;
    } else {
      var x, t := a[0], a[1..];
      assert a == [x] + t;
      assert a + b == [x] + (t + b);
      FilterConcat(t, b, p);
      FilterCons(x, t + b, p);
      FilterCons(x, t, p);
      if p(x) {
        assert [x] + (Filter(t, p) + Filter(b, p)) == ([x] + Filter(t, p)) + Filter(b, p);
      }
    }
  }

  lemma FilterCons<T(!new)>(x: T, xs: seq<T>, p: T -> bool)
    ensures Filter([x] + xs, p) == if p(x) then [x] + Filter(xs, p) else Filter(xs, p)
  {
    assert ([x] + xs)[0] == x && ([x] + xs)[1..] == xs;
  }

  /** Two tests that agree on every element filter alike. */
  lemma {:induction false} FilterAgree<T(!new)>(xs: seq<T>, p: T -> bool, q: T -> bool)
    requires forall i :: 0 <= i < |xs| ==> p(xs[i]) == q(xs[i])
    ensures Filter(xs, p) == Filter(xs, q)
  {
    if |xs| > 0 {
      FilterAgree(xs[1..], p, q);
    }
  }

  /** Filtering by `q` after a weaker `p` is filtering by `q` alone. */
  lemma {:induction false} FilterFilter<T(!new)>(xs: seq<T>, p: T -> bool, q: T -> bool)
    requires forall i :: 0 <= i < |xs| ==> q(xs[i]) ==> p(xs[i])
    ensures Filter(Filter(xs, p), q) == Filter(xs, q)
  {
    if |xs| > 0 {
      FilterFilter(xs[1..], p, q);
      if p(xs[0]) {
        FilterCons(xs[0], Filter(xs[1..], p), q);
      }
    }
  }

  /** `xs.map(f)`. */
  function MapSeq<T, U>(xs: seq<T>, f: T -> U): (r: seq<U>)
    ensures |r| == |xs| && forall i :: 0 <= i < |xs| ==> r[i] == f(xs[i])
  {
    seq(|xs|, i requires 0 <= i < |xs| => f(xs[i]))
  }

  /** No value occurs twice. */
  predicate NoDup<T(==)>(xs: seq<T>) {
    forall i, j :: 0 <= i < j < |xs| ==> xs[i] != xs[j]
  }

  /** Index of the first occurrence of `x`. */
  function FirstIndex<T(==)>(xs: seq<T>, x: T): (r: nat)
    requires x in xs
    ensures r < |xs| && xs[r] == x
    ensures x !in xs[..r]
  {
    if xs[0] == x then 0 else 1 + FirstIndex(xs[1..], x)
  }

  /** The values of `xs` not in `seen`, each once, in order of first occurrence:
      what inserting `xs` one by one into a JavaScript `Set` that already holds
      `seen` adds to it. */
  function DistinctFrom<T(==,!new)>(xs: seq<T>, seen: set<T>): (r: seq<T>)
    ensures forall x :: x in r <==> x in xs && x !in seen
    ensures NoDup(r)
    ensures IsSubseq(r, xs)
    ensures forall i, j :: 0 <= i < j < |r| ==> FirstIndex(xs, r[i]) < FirstIndex(xs, r[j])
  {
    if |xs| == 0 then []
    else
      var rest := DistinctFrom(xs[1..], seen + {xs[0]});
      assert forall i :: 0 <= i < |rest| ==> rest[i] in rest;
      FirstIndexInTail(xs, rest);
      if xs[0] in seen then
        SubseqDrop(rest, xs);
        rest
      else
        ConsNoDup(xs[0], rest);
        ConsSubseq(rest, xs);
        ConsOrder(xs, rest);
        [xs[0]] + rest
  }

  /** Values that do not start `xs` are first found one place later in `xs`
      than in its tail. */
  lemma FirstIndexInTail<T>(xs: seq<T>, rest: seq<T>)
    requires |xs| > 0
    requires forall i :: 0 <= i < |rest| ==> rest[i] in xs && rest[i] in xs[1..] && rest[i] != xs[0]
    ensures forall i :: 0 <= i < |rest| ==> FirstIndex(xs, rest[i]) == 1 + FirstIndex(xs[1..], rest[i])
  {
    forall i | 0 <= i < |rest| ensures FirstIndex(xs, rest[i]) == 1 + FirstIndex(xs[1..], rest[i]) {
    }
  }

  lemma SubseqDrop<T>(a: seq<T>, b: seq<T>)
    requires |b| > 0 && IsSubseq(a, b[1..])
    ensures IsSubseq(a, b)
  {
  }

  /** A value absent from a repeat-free list can be put in front of it. */
  lemma ConsNoDup<T>(x: T, rest: seq<T>)
    requires NoDup(rest)
    requires forall i :: 0 <= i < |rest| ==> rest[i] != x
    ensures NoDup([x] + rest)
  {
    var r := [x] + rest;
    forall i, j | 0 <= i < j < |r| ensures r[i] != r[j] {
      assert r[j] == rest[j - 1];
      if i > 0 {
        assert r[i] == rest[i - 1];
      }
    }
  }

  /** Keeping the head of `b` on top of a subsequence of its tail. */
  lemma ConsSubseq<T>(a: seq<T>, b: seq<T>)
    requires |b| > 0 && IsSubseq(a, b[1..])
    ensures IsSubseq([b[0]] + a, b)
  {
    assert ([b[0]] + a)[1..] == a;
  }

  /** The head of `xs` is found first, so putting it in front of values
      ordered by where they are first found in the tail keeps the order. */
  lemma ConsOrder<T>(xs: seq<T>, rest: seq<T>)
    requires |xs| > 0
    requires forall i :: 0 <= i < |rest| ==> rest[i] in xs && rest[i] in xs[1..] && rest[i] != xs[0]
    requires forall i, j :: 0 <= i < j < |rest| ==> FirstIndex(xs[1..], rest[i]) < FirstIndex(xs[1..], rest[j])
    requires forall i :: 0 <= i < |rest| ==> FirstIndex(xs, rest[i]) == 1 + FirstIndex(xs[1..], rest[i])
    ensures forall i, j :: 0 <= i < j < |rest| + 1 ==> FirstIndex(xs, ([xs[0]] + rest)[i]) < FirstIndex(xs, ([xs[0]] + rest)[j])
  {
    var r := [xs[0]] + rest;
    assert FirstIndex(xs, xs[0]) == 0;
    forall i, j | 0 <= i < j < |r| ensures FirstIndex(xs, r[i]) < FirstIndex(xs, r[j]) {
      assert r[j] == rest[j - 1];
      if i > 0 {
        assert r[i] == rest[i - 1];
      }
    }
  }

  /** `Array.from(new Set(xs))`: every value of `xs` exactly once, ordered by
      where it first appears. */
  function Distinct<T(==,!new)>(xs: seq<T>): (r: seq<T>)
    ensures forall x :: x in r <==> x in xs
    ensures NoDup(r)
    ensures IsSubseq(r, xs)
    ensures forall i, j :: 0 <= i < j < |r| ==> FirstIndex(xs, r[i]) < FirstIndex(xs, r[j])
  {
    DistinctFrom(xs, {})
  }

  /** A sequence that already has no repeats is its own de-duplication. */
  lemma {:induction false} DistinctOfNoDup<T(!new)>(xs: seq<T>, seen: set<T>)
    requires NoDup(xs)
    requires forall i :: 0 <= i < |xs| ==> xs[i] !in seen
    ensures DistinctFrom(xs, seen) == xs
  {
    if |xs| > 0 {
      assert forall i :: 0 <= i < |xs[1..]| ==> xs[1..][i] == xs[i + 1];
      DistinctOfNoDup(xs[1..], seen + {xs[0]});
      assert xs == [xs[0]] + xs[1..];
    }
  }

  /** No two elements share a key. */
  predicate DistinctBy<T, K(==)>(xs: seq<T>, key: T -> K) {
    forall i, j :: 0 <= i < j < |xs| ==> key(xs[i]) != key(xs[j])
  }

  /** Deleting elements cannot make two keys collide. */
  lemma {:induction false} SubseqDistinctBy<T, K>(a: seq<T>, b: seq<T>, key: T -> K)
    requires IsSubseq(a, b) && DistinctBy(b, key)
    ensures DistinctBy(a, key)
    decreases |b|
  {
    if |a| > 0 {
      assert DistinctBy(b[1..], key) by {
        forall i, j | 0 <= i < j < |b[1..]| ensures key(b[1..][i]) != key(b[1..][j]) {
          assert b[1..][i] == b[i + 1] && b[1..][j] == b[j + 1];
        }
      }
      if a[0] == b[0] && IsSubseq(a[1..], b[1..]) {
        SubseqDistinctBy(a[1..], b[1..], key);
        SubseqMembers(a[1..], b[1..]);
        forall i, j | 0 <= i < j < |a| ensures key(a[i]) != key(a[j]) {
          assert a[j] == a[1..][j - 1];
          if i > 0 {
            assert a[i] == a[1..][i - 1];
          } else {
            assert a[j] in b[1..];
            var m :| 0 <= m < |b[1..]| && b[1..][m] == a[j];
            assert b[m + 1] == a[j];
          }
        }
      } else {
        SubseqDistinctBy(a, b[1..], key);
      }
    }
  }
}
