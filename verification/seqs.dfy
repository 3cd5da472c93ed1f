/** Generic sequence operations: the `filter` of JavaScript arrays, which every
    list update of the todo component that drops entries is built from. */
module Seqs {

  /** `r` can be obtained from `s` by deleting elements: the elements of `r`
      appear in `s` in the same order. */
  predicate IsSubsequence<T(==)>(r: seq<T>, s: seq<T>)
    decreases |s|
  {
    r == [] ||
    (s != [] && ((r[0] == s[0] && IsSubsequence(r[1..], s[1..])) || IsSubsequence(r, s[1..])))
  }

  /** Every element passing `p` occurs in `r` as often as in `s`, and no
      other element occurs in `r`. */
  ghost predicate KeepsCounts<T(!new)>(r: seq<T>, s: seq<T>, p: T -> bool) {
    forall x :: multiset(r)[x] == if p(x) then multiset(s)[x] else 0
  }

  /** The elements of `s` that satisfy `p`, in their original order
      (`Array.prototype.filter`): a subsequence of `s` that keeps every
      passing element, each as often as it occurs, and nothing else. */
  function Filter<T(!new)>(s: seq<T>, p: T -> bool): (r: seq<T>)
    ensures IsSubsequence(r, s) && KeepsCounts(r, s, p)
    ensures forall x :: x in r <==> x in s && p(x)
    ensures |r| <= |s|
  {
    if s == [] then []
    else
      var rest := Filter(s[1..], p);
      assert s == [s[0]] + s[1..];
      if p(s[0]) then
        var r := [s[0]] + rest;
        assert r[1..] == rest;
        r
      else
        rest
  }

  /** A subsequence holds each element at most as often as the sequence. */
  lemma {:induction false} SubsequenceCounts<T(!new)>(r: seq<T>, s: seq<T>)
    requires IsSubsequence(r, s)
    ensures forall x :: multiset(r)[x] <= multiset(s)[x]
    decreases |s|
  {
    if r != [] {
      assert s == [s[0]] + s[1..];
      if r[0] == s[0] && IsSubsequence(r[1..], s[1..]) {
        SubsequenceCounts(r[1..], s[1..]);
        assert r == [r[0]] + r[1..];
      } else {
        SubsequenceCounts(r, s[1..]);
      }
    }
  }

  /** The contract of `Filter` determines its result: any subsequence of `s`
      that keeps exactly the passing elements with their counts is the
      filter of `s`. */
  lemma {:induction false} FilterUnique<T(!new)>(r: seq<T>, s: seq<T>, p: T -> bool)
    requires IsSubsequence(r, s)
    requires KeepsCounts(r, s, p)
    ensures r == Filter(s, p)
    decreases |s|
  {
    if s != [] && r != [] {
      var a := s[0];
      assert s == [a] + s[1..];
      if r[0] == a && IsSubsequence(r[1..], s[1..]) {
        assert r == [a] + r[1..];
        FilterUnique(r[1..], s[1..], p);
      } else {
        SubsequenceCounts(r, s[1..]);
        FilterUnique(r, s[1..], p);
      }
    }
  }

  /** Filtering works piece by piece: the kept elements of a concatenation are
      the kept elements of the first part followed by those of the second, so
      the relative order of the survivors is the order they had in `s + t`. */
  lemma {:induction false} FilterAppend<T(!new)>(s: seq<T>, t: seq<T>, p: T -> bool)
    ensures Filter(s + t, p) == Filter(s, p) + Filter(t, p)
  {
    if s == [] {
      assert s + t == t;
    } else {
      assert (s + t)[0] == s[0];
      assert (s + t)[1..] == s[1..] + t;
      FilterAppend(s[1..], t, p);
    }
  }

  /** When every element passes, filtering gives back the very same sequence. */
  lemma {:induction false} FilterKeepsAll<T(!new)>(s: seq<T>, p: T -> bool)
    requires forall x :: x in s ==> p(x)
    ensures Filter(s, p) == s
  {
    if s != [] {
      assert s[0] in s;
      assert forall x :: x in s[1..] ==> x in s;
      FilterKeepsAll(s[1..], p);
      assert [s[0]] + s[1..] == s;
    }
  }
}
