/** The array operations the todo list is built from: JavaScript's
    `Array.prototype.filter` and `Array.prototype.map` on immutable sequences,
    an independent element count, and the subsequence relation that states
    what "filtering preserves order" means. */
module Sequences {

  /** The elements of `s` that satisfy `p`, in their original order. */
  function Filter<T>(s: seq<T>, p: T -> bool): (r: seq<T>)
    ensures |r| <= |s|
    ensures forall i :: 0 <= i < |r| ==> r[i] in s && p(r[i])
    ensures forall i :: 0 <= i < |s| && p(s[i]) ==> s[i] in r
  {
    if s == [] then []
    else if p(s[0]) then [s[0]] + Filter(s[1..], p)
    else Filter(s[1..], p)
  }

  /** `f` applied to every element of `s`, position by position. */
  function Map<T, U>(s: seq<T>, f: T -> U): (r: seq<U>)
    ensures |r| == |s|
    ensures forall i :: 0 <= i < |s| ==> r[i] == f(s[i])
  {
    if s == [] then [] else [f(s[0])] + Map(s[1..], f)
  }

  /** The number of positions of `s` whose element satisfies `p`. */
  function Count<T>(s: seq<T>, p: T -> bool): (n: nat)
    ensures n <= |s|
  {
    if s == [] then 0 else (if p(s[0]) then 1 else 0) + Count(s[1..], p)
  }

  /** `r` is obtained from `s` by deleting some elements, keeping the order of the rest. */
  ghost predicate SubsequenceOf<T>(r: seq<T>, s: seq<T>)
    decreases |s|
  {
    r == [] ||
    (s != [] && ((r[0] == s[0] && SubsequenceOf(r[1..], s[1..])) || SubsequenceOf(r, s[1..])))
  }

  /** Filtering keeps exactly as many elements as satisfy `p`. */
  lemma {:induction false} FilterLength<T>(s: seq<T>, p: T -> bool)
    ensures |Filter(s, p)| == Count(s, p)
  {
    if s != [] {
      FilterLength(s[1..], p);
    }
  }

  /** Filtering preserves order: its result is a subsequence of its input. */
  lemma {:induction false} FilterIsSubsequence<T>(s: seq<T>, p: T -> bool)
    ensures SubsequenceOf(Filter(s, p), s)
  {
    if s != [] {
      FilterIsSubsequence(s[1..], p);
    }
  }

  /** Filtering a concatenation filters each part in place. */
  lemma {:induction false} FilterConcat<T>(a: seq<T>, b: seq<T>, p: T -> bool)
    ensures Filter(a + b, p) == Filter(a, p) + Filter(b, p)
  {
    if a != [] {
      assert (a + b)[1..] == a[1..] + b;
      FilterConcat(a[1..], b, p);
    } else {
      assert a + b == b;
    }
  }

  /** A filter returns its input exactly when every element passes. */
  lemma {:induction false} FilterKeepsAll<T>(s: seq<T>, p: T -> bool)
    ensures Filter(s, p) == s <==> forall i :: 0 <= i < |s| ==> p(s[i])
  {
    if s != [] {
      FilterKeepsAll(s[1..], p);
      if forall i :: 0 <= i < |s| ==> p(s[i]) {
        assert forall i :: 0 <= i < |s[1..]| ==> p(s[1..][i]) by {
          forall i | 0 <= i < |s[1..]| ensures p(s[1..][i]) {
            assert s[1..][i] == s[i + 1];
          }
        }
        assert s == [s[0]] + s[1..];
      }
      if Filter(s, p) == s {
        forall i | 0 <= i < |s| ensures p(s[i]) {
          assert s[i] in Filter(s, p);
        }
      }
    }
  }

  /** A filter returns nothing exactly when no element passes. */
  lemma {:induction false} FilterDropsAll<T>(s: seq<T>, p: T -> bool)
    ensures Filter(s, p) == [] <==> forall i :: 0 <= i < |s| ==> !p(s[i])
  {
    if Filter(s, p) == [] {
      forall i | 0 <= i < |s| ensures !p(s[i]) {
        assert s[i] in s;
      }
    } else {
      assert Filter(s, p)[0] in Filter(s, p);
    }
  }

  /** Filtering twice with the same predicate is filtering once. */
  lemma FilterIdempotent<T>(s: seq<T>, p: T -> bool)
    ensures Filter(Filter(s, p), p) == Filter(s, p)
  {
  }

  /** The elements satisfying `p` and those failing it together account for the whole sequence. */
  lemma {:induction false} CountComplement<T>(s: seq<T>, p: T -> bool, q: T -> bool)
    requires forall x :: q(x) == !p(x)
    ensures Count(s, p) + Count(s, q) == |s|
  {
    if s != [] {
      CountComplement(s[1..], p, q);
    }
  }

  /** Counting with two predicates that agree everywhere gives the same number. */
  lemma {:induction false} CountSame<T>(s: seq<T>, p: T -> bool, q: T -> bool)
    requires forall x :: p(x) == q(x)
    ensures Count(s, p) == Count(s, q)
  {
    if s != [] {
      CountSame(s[1..], p, q);
    }
  }

  /** No element satisfies `p` exactly when the count is zero. */
  lemma {:induction false} CountZero<T>(s: seq<T>, p: T -> bool)
    ensures Count(s, p) == 0 <==> forall x :: x in s ==> !p(x)
  {
    if s != [] {
      CountZero(s[1..], p);
      assert s == [s[0]] + s[1..];
    }
  }

  /** One step of the filter, in terms of multisets. */
  lemma FilterStep<T>(s: seq<T>, p: T -> bool)
    requires s != []
    ensures multiset(Filter(s, p))
            == (if p(s[0]) then multiset{s[0]} else multiset{}) + multiset(Filter(s[1..], p))
  {
    if p(s[0]) {
      assert Filter(s, p) == [s[0]] + Filter(s[1..], p);
    }
  }

  /** A filter and its complement split the multiset of elements. */
  lemma {:induction false} FilterPartition<T>(s: seq<T>, p: T -> bool, q: T -> bool)
    requires forall x :: q(x) == !p(x)
    ensures multiset(Filter(s, p)) + multiset(Filter(s, q)) == multiset(s)
  {
    if s != [] {
      var h, t := s[0], s[1..];
      FilterPartition(t, p, q);
      assert q(h) == !p(h);
      assert multiset(s) == multiset{h} + multiset(t) by {
        assert s == [h] + t;
      }
      FilterStep(s, p);
      FilterStep(s, q);
    }
  }

  /** The filter is the one longest subsequence made of passing elements: every other
      such subsequence is shorter, and one of the same length is the filter itself. */
  lemma {:induction false} FilterIsLargestSubsequence<T>(s: seq<T>, p: T -> bool, r: seq<T>)
    requires SubsequenceOf(r, s)
    requires forall i :: 0 <= i < |r| ==> p(r[i])
    ensures |r| <= |Filter(s, p)|
    ensures |r| == |Filter(s, p)| ==> r == Filter(s, p)
    decreases |s|
  {
    FilterLength(s, p);
    if r == [] {
      if |Filter(s, p)| == 0 {
        assert Filter(s, p) == [];
      }
    } else {
      FilterLength(s[1..], p);
      if r[0] == s[0] && SubsequenceOf(r[1..], s[1..]) {
        assert p(s[0]);
        FilterIsLargestSubsequence(s[1..], p, r[1..]);
        if |r| == |Filter(s, p)| {
          assert r == [r[0]] + r[1..];
        }
      } else {
        assert SubsequenceOf(r, s[1..]);
        FilterIsLargestSubsequence(s[1..], p, r);
        assert |r| == |Filter(s, p)| ==> !p(s[0]);
      }
    }
  }
}
