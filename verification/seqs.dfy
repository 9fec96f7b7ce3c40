/** Order relations between sequences, shared by every filter in the model. */
module Seqs {

  /** `xs` is obtained from `ys` by deleting elements, keeping the order of the rest. */
  ghost predicate Subsequence<T>(xs: seq<T>, ys: seq<T>)
    decreases |ys|
  {
    || |xs| == 0
    || (&& |ys| > 0
        && ((xs[0] == ys[0] && Subsequence(xs[1..], ys[1..])) || Subsequence(xs, ys[1..])))
  }

  /** Every element of a subsequence is an element of the sequence it came from. */
  lemma {:induction false} SubsequenceMembers<T>(xs: seq<T>, ys: seq<T>)
    requires Subsequence(xs, ys)
    ensures forall x :: x in xs ==> x in ys
    decreases |ys|
  {
    if |xs| > 0 {
      if xs[0] == ys[0] && Subsequence(xs[1..], ys[1..]) {
        SubsequenceMembers(xs[1..], ys[1..]);
        assert forall x :: x in xs ==> x == xs[0] || x in xs[1..];
      } else {
        SubsequenceMembers(xs, ys[1..]);
      }
    }
  }

  /** `r` is `s` with the elements `p` rejects left out: only accepted elements,
      in the order of `s`, each as often as in `s`. */
  ghost predicate FilterOf<T(!new)>(r: seq<T>, s: seq<T>, p: T -> bool) {
    && (forall i :: 0 <= i < |r| ==> p(r[i]))
    && Subsequence(r, s)
    && forall x :: p(x) ==> multiset(r)[x] == multiset(s)[x]
  }

  /** Concatenation is associative. */
  lemma AppendAssoc<T>(a: seq<T>, b: seq<T>, c: seq<T>)
    ensures a + (b + c) == (a + b) + c
  {
  }

  /** Filtering one more element in front: `r'` and `s'` are `r` and `s` with
      `x` put in front, `r'` only when `p` accepts `x`. */
  lemma FilterCons<T(!new)>(x: T, r: seq<T>, s: seq<T>, p: T -> bool, r': seq<T>, s': seq<T>)
    requires FilterOf(r, s, p)
    requires r' == (if p(x) then [x] else []) + r && s' == [x] + s
    ensures FilterOf(r', s', p)
  {
    assert s'[1..] == s;
    if p(x) {
      assert r'[1..] == r;
      assert multiset(r') == multiset{x} + multiset(r);
    } else {
      assert r' == r;
    }
    assert multiset(s') == multiset{x} + multiset(s);
  }

  predicate StrictlyIncreasing(s: seq<int>) {
    forall i, j :: 0 <= i < j < |s| ==> s[i] < s[j]
  }

  /** No two positions of `s` hold the same key. */
  ghost predicate DistinctKeys<T, K>(s: seq<T>, key: T -> K) {
    forall i, j :: 0 <= i < j < |s| ==> key(s[i]) != key(s[j])
  }
}
