/**
 * `WikipediaScraper.extract_key_events`: drops short and duplicate events,
 * scores the rest by priority keywords, length and a leading date, and keeps
 * the best `max_per_month` by score, ties broken alphabetically.
 */
module KeyEvents {
  import opened Text
  import opened Seqs
  import opened Sorting
  import opened Dedup
  import opened WikiEvents

  /** Events must be longer than this to be kept. */
  const MinEventLength: nat := 30

  const DefaultMaxPerMonth: nat := 20

  const PriorityKeywords: seq<string> := [
    "president", "prime minister", "election", "government",
    "war", "peace", "treaty", "agreement", "summit",
    "killed", "died", "death", "earthquake", "hurricane", "flood",
    "supreme court", "law", "legislation", "parliament",
    "coup", "protest", "resign", "sworn", "inaugurat",
    "pandemic", "virus", "vaccine", "climate", "record",
    "billion", "trillion", "crisis", "sanctions", "nuclear",
    "ceasefire", "invasion", "referendum", "constitution",
    "impeach", "arrest", "attack", "explosion", "crash"
  ]

  /** The duplicate-detection key: the lower-cased event with every whitespace
      run replaced by one space. It has the words of the lower-cased event, in
      order, separated by single spaces, and keeps a leading or trailing space
      exactly when the event has leading or trailing whitespace; so events that
      differ only in case or in the length and kind of their whitespace runs
      share a key. */
  function DedupKey(e: string): (r: string)
    ensures Collapsed(r) && Words(r) == Words(Lower(e))
    ensures |r| <= |e|
    ensures |r| == 0 <==> |e| == 0
    ensures |e| > 0 ==> (IsSpace(r[0]) <==> IsSpace(e[0]))
    ensures |e| > 0 ==> (IsSpace(r[|r| - 1]) <==> IsSpace(e[|e| - 1]))
  {
    var lower := Lower(e);
    assert |e| > 0 ==> lower[0] == LowerChar(e[0]) && lower[|e| - 1] == LowerChar(e[|e| - 1]);
    CollapseSpaces(lower)
  }

  predicate IsLong(e: string) {
    |e| > MinEventLength
  }

  /** The first loop of `extract_key_events`: events longer than 30 characters
      whose key was not met before, in input order. Their keys are pairwise
      distinct and are exactly the keys of the long input events, and each is
      the first long event with its key. */
  function UniqueEvents(events: seq<string>): (r: seq<string>)
    ensures Subsequence(r, events)
    ensures forall i :: 0 <= i < |r| ==> |r[i]| > MinEventLength
    ensures DistinctKeys(r, DedupKey)
    ensures KeySet(r, DedupKey) == KeptKeys(events, DedupKey, IsLong)
    ensures AllFirstOfKey(r, events, DedupKey, IsLong)
  {
    UniqueByKeepsFirst({}, events, DedupKey, IsLong);
    UniqueBy({}, events, DedupKey, IsLong)
  }

  /** The positions of the keywords that occur in `text`. */
  ghost function Hits(text: string, keywords: seq<string>): set<nat> {
    set i: nat | i < |keywords| && Contains(text, keywords[i])
  }

  lemma HitsSnoc(text: string, keywords: seq<string>)
    requires |keywords| > 0
    ensures var last := |keywords| - 1;
      && last !in Hits(text, keywords[..last])
      && Hits(text, keywords) == Hits(text, keywords[..last]) + (if Contains(text, keywords[last]) then {last} else {})
  {
  }

  /** Python's `kw in text` for each keyword, counted by the loop that adds 2
      per hit. */
  function KeywordHits(text: string, keywords: seq<string>): (n: nat)
    ensures n == |Hits(text, keywords)|
    ensures n <= |keywords|
  {
    if |keywords| == 0 then
      assert Hits(text, keywords) == {};
      0
    else
      var last := |keywords| - 1;
      HitsSnoc(text, keywords);
      KeywordHits(text, keywords[..last]) + (if Contains(text, keywords[last]) then 1 else 0)
  }

  /** The score of one event: two points per priority keyword occurring in the
      lower-cased event, one for more than 100 characters, two more for more
      than 200, one for a leading "Month day" date. */
  function Score(e: string): (r: nat)
    ensures r == 2 * |Hits(Lower(e), PriorityKeywords)|
                 + (if |e| > 200 then 3 else if |e| > 100 then 1 else 0)
                 + (if exists m :: 0 <= m < 12 && StartsWithMonthDate(e, m) then 1 else 0)
    ensures r <= 2 * |PriorityKeywords| + 4
  {
    2 * KeywordHits(Lower(e), PriorityKeywords)
    + (if |e| > 100 then 1 else 0)
    + (if |e| > 200 then 2 else 0)
    + (if DateMonth(e).Some? then 1 else 0)
  }

  datatype Scored = Scored(score: nat, text: string)

  /** The sort key `(-score, text)`: higher score first, then text ascending. */
  predicate Ranks(a: Scored, b: Scored) {
    a.score > b.score || (a.score == b.score && LexLe(a.text, b.text))
  }

  lemma RanksTotalPreorder()
    ensures TotalPreorder(Ranks)
  {
    forall x: Scored, y: Scored ensures Ranks(x, y) || Ranks(y, x) {
      LexLeTotal(x.text, y.text);
    }
    forall x: Scored, y: Scored, z: Scored | Ranks(x, y) && Ranks(y, z) ensures Ranks(x, z) {
      if x.score == y.score == z.score {
        LexLeTransitive(x.text, y.text, z.text);
      }
    }
  }

  /** Two entries ranking each other are the same entry: the sort key is a
      total order, so the sorted list does not depend on the algorithm. */
  lemma RanksAntisymmetric(x: Scored, y: Scored)
    requires Ranks(x, y) && Ranks(y, x)
    ensures x == y
  {
    LexLeAntisymmetric(x.text, y.text);
  }

  function ScoreAll(events: seq<string>): (r: seq<Scored>)
    ensures |r| == |events|
    ensures forall i :: 0 <= i < |r| ==> r[i] == Scored(Score(events[i]), events[i])
  {
    seq(|events|, i requires 0 <= i < |events| => Scored(Score(events[i]), events[i]))
  }

  function Texts(s: seq<Scored>): (r: seq<string>)
    ensures |r| == |s| && forall i :: 0 <= i < |s| ==> r[i] == s[i].text
  {
    seq(|s|, i requires 0 <= i < |s| => s[i].text)
  }

  function Ranked(unique: seq<string>): (r: seq<Scored>)
    ensures SortedBy(r, Ranks)
    ensures multiset(r) == multiset(ScoreAll(unique))
  {
    RanksTotalPreorder();
    Sort(ScoreAll(unique), Ranks)
  }

  /** Any ordering of the scored events by the sort key is the one computed. */
  lemma RankedUnique(unique: seq<string>, other: seq<Scored>)
    requires SortedBy(other, Ranks) && multiset(other) == multiset(ScoreAll(unique))
    ensures other == Ranked(unique)
  {
    var r := Ranked(unique);
    forall x, y | x in other && y in other && Ranks(x, y) && Ranks(y, x) ensures x == y {
      RanksAntisymmetric(x, y);
    }
    SortedUnique(other, r, Ranks);
  }

  /** `extract_key_events(events, max_per_month)`. */
  function ExtractKeyEvents(events: seq<string>, maxPerMonth: nat): (r: seq<string>)
  {
    var ranked := Ranked(UniqueEvents(events));
    Texts(ranked[..if maxPerMonth < |ranked| then maxPerMonth else |ranked|])
  }

  lemma RankedMembers(unique: seq<string>, i: nat)
    requires i < |Ranked(unique)|
    ensures Ranked(unique)[i].text in unique
    ensures Ranked(unique)[i].score == Score(Ranked(unique)[i].text)
  {
    var r := Ranked(unique);
    assert r[i] in multiset(ScoreAll(unique));
    var j :| 0 <= j < |unique| && ScoreAll(unique)[j] == r[i];
  }

  lemma RankedDistinct(unique: seq<string>)
    requires DistinctKeys(unique, DedupKey)
    ensures forall i, j :: 0 <= i < j < |Ranked(unique)| ==> DedupKey(Ranked(unique)[i].text) != DedupKey(Ranked(unique)[j].text)
  {
    var scored := ScoreAll(unique);
    var key := (s: Scored) => DedupKey(s.text);
    assert DistinctKeys(scored, key);
    PermutationKeepsDistinct(Ranked(unique), scored, key);
  }

  /** The kept events: at most `max_per_month`, each an input event longer than
      30 characters and the first such event with its key, no two with the same
      key, ordered by score descending and then text ascending. */
  lemma KeyEventsShape(events: seq<string>, maxPerMonth: nat)
    ensures |ExtractKeyEvents(events, maxPerMonth)| <= maxPerMonth
    ensures forall e :: e in ExtractKeyEvents(events, maxPerMonth) ==> e in events && |e| > MinEventLength
    ensures forall e :: e in ExtractKeyEvents(events, maxPerMonth) ==> FirstOfKey(e, events, DedupKey, IsLong)
    ensures DistinctKeys(ExtractKeyEvents(events, maxPerMonth), DedupKey)
    ensures forall i, j :: 0 <= i < j < |ExtractKeyEvents(events, maxPerMonth)| ==>
              Ranks(Scored(Score(ExtractKeyEvents(events, maxPerMonth)[i]), ExtractKeyEvents(events, maxPerMonth)[i]),
                    Scored(Score(ExtractKeyEvents(events, maxPerMonth)[j]), ExtractKeyEvents(events, maxPerMonth)[j]))
  {
    var unique := UniqueEvents(events);
    var ranked := Ranked(unique);
    var n := if maxPerMonth < |ranked| then maxPerMonth else |ranked|;
    var r := ExtractKeyEvents(events, maxPerMonth);
    assert r == Texts(ranked[..n]);
    KeyEventsScored(events, maxPerMonth);
    RankedDistinct(unique);
    forall e | e in r ensures FirstOfKey(e, events, DedupKey, IsLong) {
      var q :| 0 <= q < |r| && r[q] == e;
      var k :| 0 <= k < |unique| && unique[k] == e;
    }
    forall i, j | 0 <= i < j < |r| ensures Ranks(Scored(Score(r[i]), r[i]), Scored(Score(r[j]), r[j])) {
      assert Ranks(ranked[i], ranked[j]);
    }
    forall i, j | 0 <= i < j < |r| ensures DedupKey(r[i]) != DedupKey(r[j]) {
      assert r[i] == ranked[i].text && r[j] == ranked[j].text;
    }
  }

  /** Each kept event is an input event longer than 30 characters, at the
      position of its scored entry in the ranking. */
  lemma KeyEventsScored(events: seq<string>, maxPerMonth: nat)
    ensures var r := ExtractKeyEvents(events, maxPerMonth);
      forall i :: 0 <= i < |r| ==>
        && r[i] in events && |r[i]| > MinEventLength && r[i] in UniqueEvents(events)
        && Ranked(UniqueEvents(events))[i] == Scored(Score(r[i]), r[i])
  {
    var unique := UniqueEvents(events);
    var ranked := Ranked(unique);
    var r := ExtractKeyEvents(events, maxPerMonth);
    SubsequenceMembers(unique, events);
    forall i | 0 <= i < |r| ensures r[i] in events && |r[i]| > MinEventLength && r[i] in unique && ranked[i] == Scored(Score(r[i]), r[i]) {
      RankedMembers(unique, i);
      var k :| 0 <= k < |unique| && unique[k] == r[i];
    }
  }

  /** An event missing from the first `n` ranked entries ranks after each of them. */
  lemma RankedTop(unique: seq<string>, n: nat, e: string)
    requires e in unique && n <= |Ranked(unique)|
    requires e !in Texts(Ranked(unique)[..n])
    ensures n < |Ranked(unique)|
    ensures forall q :: 0 <= q < n ==> Ranks(Ranked(unique)[q], Scored(Score(e), e))
  {
    var ranked := Ranked(unique);
    var p := RankedPosition(unique, e);
    assert forall i :: 0 <= i < n ==> Texts(ranked[..n])[i] == ranked[i].text;
    assert n <= p;
    forall q | 0 <= q < n ensures Ranks(ranked[q], Scored(Score(e), e)) {
      assert Ranks(ranked[q], ranked[p]);
    }
  }

  /** Every de-duplicated event has its scored entry somewhere in the ranking. */
  lemma RankedPosition(unique: seq<string>, e: string) returns (p: nat)
    requires e in unique
    ensures p < |Ranked(unique)| && Ranked(unique)[p] == Scored(Score(e), e)
  {
    var scored := ScoreAll(unique);
    var j :| 0 <= j < |unique| && unique[j] == e;
    assert scored[j] in multiset(Ranked(unique));
    p :| 0 <= p < |Ranked(unique)| && Ranked(unique)[p] == scored[j];
  }

  /** The cut keeps the best: an event that survives de-duplication but is not
      kept ranks after every kept event, and is only dropped when
      `max_per_month` events were kept. */
  lemma KeyEventsAreTop(events: seq<string>, maxPerMonth: nat, e: string)
    requires e in UniqueEvents(events) && e !in ExtractKeyEvents(events, maxPerMonth)
    ensures |ExtractKeyEvents(events, maxPerMonth)| == maxPerMonth
    ensures forall k :: k in ExtractKeyEvents(events, maxPerMonth) ==> Ranks(Scored(Score(k), k), Scored(Score(e), e))
  {
    var unique := UniqueEvents(events);
    var ranked := Ranked(unique);
    var n := if maxPerMonth < |ranked| then maxPerMonth else |ranked|;
    var r := Texts(ranked[..n]);
    assert r == ExtractKeyEvents(events, maxPerMonth);
    RankedTop(unique, n, e);
    forall k | k in r ensures Ranks(Scored(Score(k), k), Scored(Score(e), e)) {
      var q :| 0 <= q < |r| && r[q] == k;
      RankedMembers(unique, q);
      assert ranked[q] == Scored(Score(k), k);
    }
  }
}
