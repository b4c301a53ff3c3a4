/**
 * Order-preserving filtering of sequences, the model of JavaScript's
 * `Array.prototype.filter`, together with the subsequence relation that
 * describes what such a filter may produce.
 */
module Seqs {

  /** The elements of `s` that satisfy `p`, in their original order. */
  function Keep<T>(s: seq<T>, p: T -> bool): (r: seq<T>)
    ensures |r| <= |s|
    ensures forall i :: 0 <= i < |r| ==> r[i] in s && p(r[i])
    ensures forall i :: 0 <= i < |s| && p(s[i]) ==> s[i] in r
  {
    if s == [] then []
    else if p(s[0]) then [s[0]] + Keep(s[1..], p)
    else Keep(s[1..], p)
  }

  /** `a` is obtained from `b` by deleting zero or more elements. */
  predicate IsSubsequence<T(==)>(a: seq<T>, b: seq<T>)
    decreases |b|
  {
    if b == [] then a == []
    else (a != [] && a[0] == b[0] && IsSubsequence(a[1..], b[1..])) || IsSubsequence(a, b[1..])
  }

  /**
   * Keep is exactly the filter: its result is a subsequence of the input
   * that holds every element satisfying `p` as often as the input does, and
   * no other element.
   */
  lemma {:induction false} KeepIsFilter<T>(s: seq<T>, p: T -> bool)
    ensures IsSubsequence(Keep(s, p), s)
    ensures forall x :: multiset(Keep(s, p))[x] == if p(x) then multiset(s)[x] else 0
  {
    if s != [] {
      KeepIsFilter(s[1..], p);
      assert s == [s[0]] + s[1..];
      assert multiset(s) == multiset{s[0]} + multiset(s[1..]);
      if p(s[0]) {
        var r := Keep(s, p);
        assert r[0] == s[0] && r[1..] == Keep(s[1..], p);
      }
    }
  }

  /** When every element satisfies `p`, filtering changes nothing. */
  lemma {:induction false} KeepAll<T>(s: seq<T>, p: T -> bool)
    requires forall i :: 0 <= i < |s| ==> p(s[i])
    ensures Keep(s, p) == s
  {
    if s != [] {
      KeepAll(s[1..], p);
    }
  }

  /** When no element satisfies `p`, filtering leaves nothing. */
  lemma KeepNone<T>(s: seq<T>, p: T -> bool)
    requires forall i :: 0 <= i < |s| ==> !p(s[i])
    ensures Keep(s, p) == []
  {
  }

  /** Filtering distributes over concatenation. */
  lemma {:induction false} KeepConcat<T>(a: seq<T>, b: seq<T>, p: T -> bool)
    ensures Keep(a + b, p) == Keep(a, p) + Keep(b, p)
  {
    if a == [] {
      assert a + b == b;
    } else {
      assert (a + b)[1..] == a[1..] + b;
      KeepConcat(a[1..], b, p);
    }
  }

  /** A stronger condition keeps a subsequence of what a weaker one keeps. */
  lemma {:induction false} KeepMonotone<T>(s: seq<T>, p: T -> bool, q: T -> bool)
    requires forall x :: p(x) ==> q(x)
    ensures IsSubsequence(Keep(s, p), Keep(s, q))
  {
    if s == [] {
    } else {
      KeepMonotone(s[1..], p, q);
      var rp, rq := Keep(s[1..], p), Keep(s[1..], q);
      if p(s[0]) {
        assert ([s[0]] + rp)[1..] == rp;
        assert ([s[0]] + rq)[1..] == rq;
      } else if q(s[0]) {
        assert ([s[0]] + rq)[1..] == rq;
      }
    }
  }
}
