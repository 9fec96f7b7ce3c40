/**
 * The "keep the first of each key" loop that the pipeline uses twice: for
 * Wikipedia events (`extract_key_events`) and for articles
 * (`deduplicate_articles`). `seen` holds the keys met so far; an element is
 * kept when `keep` accepts it and its key is new, and only kept elements add
 * their key to `seen`.
 */
module Dedup {
  import opened Seqs

  ghost function KeySet<T, K>(s: seq<T>, key: T -> K): set<K> {
    set x | x in s :: key(x)
  }

  /** The keys of the elements `keep` accepts. */
  ghost function KeptKeys<T, K>(s: seq<T>, key: T -> K, keep: T -> bool): set<K> {
    set x | x in s && keep(x) :: key(x)
  }

  /** `x` is the first element of `s` that `keep` accepts with key `key(x)`: it
      occurs no later than any accepted element sharing its key. */
  ghost predicate FirstOfKey<T, K>(x: T, s: seq<T>, key: T -> K, keep: T -> bool) {
    forall j :: 0 <= j < |s| && keep(s[j]) && key(s[j]) == key(x) ==> x in s[..j + 1]
  }

  ghost predicate AllFirstOfKey<T, K>(r: seq<T>, s: seq<T>, key: T -> K, keep: T -> bool) {
    forall i :: 0 <= i < |r| ==> FirstOfKey(r[i], s, key, keep)
  }

  /** The result keeps input order, holds only accepted elements with unseen and
      pairwise distinct keys, covers every key of an accepted element that was
      not seen before (`UniqueByKeepsFirst`: for each key it keeps the first
      accepted element). */
  function UniqueBy<T(==,!new), K(==)>(seen: set<K>, s: seq<T>, key: T -> K, keep: T -> bool): (r: seq<T>)
    ensures Subsequence(r, s)
    ensures forall i :: 0 <= i < |r| ==> keep(r[i]) && key(r[i]) !in seen
    ensures DistinctKeys(r, key)
    ensures KeySet(r, key) == KeptKeys(s, key, keep) - seen
    decreases |s|
  {
    if |s| == 0 then []
    else
      var x := s[0];
      assert forall y :: y in s <==> y == x || y in s[1..];
      if key(x) !in seen && keep(x) then
        var rest := UniqueBy(seen + {key(x)}, s[1..], key, keep);
        var r := [x] + rest;
        assert r[1..] == rest;
        assert forall y :: y in r <==> y == x || y in rest;
        assert KeySet(r, key) == {key(x)} + KeySet(rest, key);
        assert KeptKeys(s, key, keep) == {key(x)} + KeptKeys(s[1..], key, keep);
        r
      else
        UniqueBy(seen, s[1..], key, keep)
  }

  /** Every element kept is the first accepted element of its key. */
  lemma {:induction false} UniqueByKeepsFirst<T(!new), K>(seen: set<K>, s: seq<T>, key: T -> K, keep: T -> bool)
    ensures AllFirstOfKey(UniqueBy(seen, s, key, keep), s, key, keep)
    decreases |s|
  {
    if |s| > 0 {
      var x := s[0];
      if key(x) !in seen && keep(x) {
        var rest := UniqueBy(seen + {key(x)}, s[1..], key, keep);
        UniqueByKeepsFirst(seen + {key(x)}, s[1..], key, keep);
        FirstOfKeyHead(s, key, keep);
        FirstOfKeyCons(s, key, keep, rest);
        var r := [x] + rest;
        assert forall i :: 0 < i < |r| ==> r[i] == rest[i - 1];
      } else {
        var rest := UniqueBy(seen, s[1..], key, keep);
        UniqueByKeepsFirst(seen, s[1..], key, keep);
        forall i | 0 <= i < |rest| ensures !(keep(x) && key(x) == key(rest[i])) {
          assert key(rest[i]) !in seen;
        }
        FirstOfKeyCons(s, key, keep, rest);
      }
    }
  }

  lemma FirstOfKeyHead<T, K>(s: seq<T>, key: T -> K, keep: T -> bool)
    requires |s| > 0
    ensures FirstOfKey(s[0], s, key, keep)
  {
    forall j | 0 <= j < |s| && keep(s[j]) ensures s[0] in s[..j + 1] {
      assert s[..j + 1][0] == s[0];
    }
  }

  /** An element first of its key after the head stays first when the head
      does not share its key. */
  lemma FirstOfKeyCons<T, K>(s: seq<T>, key: T -> K, keep: T -> bool, rest: seq<T>)
    requires |s| > 0
    requires AllFirstOfKey(rest, s[1..], key, keep)
    requires forall i :: 0 <= i < |rest| ==> !(keep(s[0]) && key(s[0]) == key(rest[i]))
    ensures AllFirstOfKey(rest, s, key, keep)
  {
    forall i, j | 0 <= i < |rest| && 0 <= j < |s| && keep(s[j]) && key(s[j]) == key(rest[i])
      ensures rest[i] in s[..j + 1]
    {
      assert j > 0;
      assert s[1..][j - 1] == s[j];
      var k :| 0 <= k < j && s[1..][..j][k] == rest[i];
      assert s[..j + 1][k + 1] == rest[i];
    }
  }

  /** A sequence that already has the shape of a result is left unchanged. */
  lemma {:induction false} UniqueByFixed<T(!new), K>(seen: set<K>, s: seq<T>, key: T -> K, keep: T -> bool)
    requires DistinctKeys(s, key)
    requires forall i :: 0 <= i < |s| ==> keep(s[i]) && key(s[i]) !in seen
    ensures UniqueBy(seen, s, key, keep) == s
    decreases |s|
  {
    if |s| > 0 {
      var seen' := seen + {key(s[0])};
      forall i | 0 <= i < |s| - 1 ensures keep(s[1..][i]) && key(s[1..][i]) !in seen' {
        assert s[1..][i] == s[i + 1];
      }
      assert DistinctKeys(s[1..], key);
      UniqueByFixed(seen', s[1..], key, keep);
    }
  }

  /** Removing duplicates twice is removing them once. */
  lemma UniqueByIdempotent<T(!new), K>(s: seq<T>, key: T -> K, keep: T -> bool)
    ensures UniqueBy({}, UniqueBy({}, s, key, keep), key, keep) == UniqueBy({}, s, key, keep)
  {
    UniqueByFixed({}, UniqueBy({}, s, key, keep), key, keep);
  }
}
