/**
 * `WikipediaScraper.format_for_llm`, which keeps the month buckets whose key
 * events are non-empty under a "<Month> <year>" heading, and the character
 * escaping `generate_simple_html` applies to each event before writing it
 * into a list item.
 */
module Digest {
  import opened Text
  import opened Seqs
  import opened WikiEvents
  import opened KeyEvents

  datatype MonthEntry = MonthEntry(heading: string, events: seq<string>)

  /** The formatted data; `last_updated` (a clock read) is not modelled. */
  datatype LlmDigest = LlmDigest(year: nat, source: string, months: seq<MonthEntry>)

  function SourceUrl(year: nat): string {
    "https://en.wikipedia.org/wiki/" + NatToString(year)
  }

  function KeyEventsOf(b: Bucket): seq<string> {
    ExtractKeyEvents(b.events, DefaultMaxPerMonth)
  }

  /** A month bucket with its key events worked out. */
  datatype Candidate = Candidate(name: string, events: seq<string>, keyEvents: seq<string>)

  function Candidates(buckets: seq<Bucket>): (r: seq<Candidate>)
    ensures |r| == |buckets|
    ensures forall i :: 0 <= i < |buckets| ==>
              r[i] == Candidate(buckets[i].name, buckets[i].events, KeyEventsOf(buckets[i]))
  {
    seq(|buckets|, i requires 0 <= i < |buckets| =>
      Candidate(buckets[i].name, buckets[i].events, KeyEventsOf(buckets[i])))
  }

  /** The two tests of the month loop: the bucket has events, and some survive
      `extract_key_events`. */
  predicate Listed(c: Candidate) {
    |c.events| > 0 && |c.keyEvents| > 0
  }

  function Entry(year: nat, c: Candidate): MonthEntry {
    MonthEntry(c.name + " " + NatToString(year), c.keyEvents)
  }

  /** The positions of the listed months at or after `i`, in increasing order. */
  function ListedFrom(cs: seq<Candidate>, i: nat): (r: seq<nat>)
    requires i <= |cs|
    ensures StrictlyIncreasing(r)
    ensures forall k :: 0 <= k < |r| ==> i <= r[k] < |cs| && Listed(cs[r[k]])
    decreases |cs| - i
  {
    if i == |cs| then []
    else if Listed(cs[i]) then [i] + ListedFrom(cs, i + 1)
    else ListedFrom(cs, i + 1)
  }

  /** No listed month is missed. */
  lemma {:induction false} ListedComplete(cs: seq<Candidate>, i: nat, j: nat)
    requires i <= j < |cs| && Listed(cs[j])
    ensures j in ListedFrom(cs, i)
    decreases |cs| - i
  {
    if i < j {
      ListedComplete(cs, i + 1, j);
    }
  }

  /** The month loop of `format_for_llm`. */
  function MonthEntries(year: nat, cs: seq<Candidate>): seq<MonthEntry>
    decreases |cs|
  {
    if |cs| == 0 then []
    else if Listed(cs[0]) then [Entry(year, cs[0])] + MonthEntries(year, cs[1..])
    else MonthEntries(year, cs[1..])
  }

  /** `format_for_llm`: one entry per month whose key events are non-empty, in
      the order of the buckets, headed "<Month> <year>". */
  function FormatForLlm(year: nat, buckets: seq<Bucket>): (d: LlmDigest)
    ensures d.year == year && d.source == SourceUrl(year)
    ensures var listed := ListedFrom(Candidates(buckets), 0);
            && |d.months| == |listed|
            && forall k :: 0 <= k < |listed| ==>
                 && d.months[k].heading == buckets[listed[k]].name + " " + NatToString(year)
                 && d.months[k].events == KeyEventsOf(buckets[listed[k]])
                 && |d.months[k].events| > 0
  {
    var cs := Candidates(buckets);
    MonthEntriesListed(year, cs);
    LlmDigest(year, SourceUrl(year), MonthEntries(year, cs))
  }

  /** The entries are those of the listed months, in order. */
  ghost predicate EntriesMatch(year: nat, cs: seq<Candidate>) {
    && |MonthEntries(year, cs)| == |ListedFrom(cs, 0)|
    && forall k :: 0 <= k < |ListedFrom(cs, 0)| ==>
         MonthEntries(year, cs)[k] == Entry(year, cs[ListedFrom(cs, 0)[k]])
  }

  lemma {:induction false} MonthEntriesListed(year: nat, cs: seq<Candidate>)
    ensures |MonthEntries(year, cs)| == |ListedFrom(cs, 0)|
    ensures forall k :: 0 <= k < |ListedFrom(cs, 0)| ==>
              MonthEntries(year, cs)[k] == Entry(year, cs[ListedFrom(cs, 0)[k]])
    decreases |cs|
  {
    if |cs| > 0 {
      MonthEntriesListed(year, cs[1..]);
      ListedShiftFrom(cs, 1);
      if Listed(cs[0]) {
        EntriesStepListed(year, cs);
      } else {
        EntriesStepUnlisted(year, cs);
      }
    }
  }

  lemma EntriesStepListed(year: nat, cs: seq<Candidate>)
    requires |cs| > 0 && Listed(cs[0]) && EntriesMatch(year, cs[1..])
    requires |ListedFrom(cs, 1)| == |ListedFrom(cs[1..], 0)|
    requires forall k :: 0 <= k < |ListedFrom(cs, 1)| ==> ListedFrom(cs, 1)[k] == ListedFrom(cs[1..], 0)[k] + 1
    ensures EntriesMatch(year, cs)
  {
    var rest, shifted := MonthEntries(year, cs[1..]), ListedFrom(cs[1..], 0);
    var l1 := ListedFrom(cs, 1);
    var l, m := ListedFrom(cs, 0), MonthEntries(year, cs);
    assert l == [0] + l1;
    assert m == [Entry(year, cs[0])] + rest;
    forall k | 0 < k < |l| ensures m[k] == Entry(year, cs[l[k]]) {
      assert m[k] == rest[k - 1] && l[k] == l1[k - 1] == shifted[k - 1] + 1;
      assert cs[1..][shifted[k - 1]] == cs[l[k]];
    }
  }

  lemma EntriesStepUnlisted(year: nat, cs: seq<Candidate>)
    requires |cs| > 0 && !Listed(cs[0]) && EntriesMatch(year, cs[1..])
    requires |ListedFrom(cs, 1)| == |ListedFrom(cs[1..], 0)|
    requires forall k :: 0 <= k < |ListedFrom(cs, 1)| ==> ListedFrom(cs, 1)[k] == ListedFrom(cs[1..], 0)[k] + 1
    ensures EntriesMatch(year, cs)
  {
    var rest, shifted := MonthEntries(year, cs[1..]), ListedFrom(cs[1..], 0);
    var l, m := ListedFrom(cs, 0), MonthEntries(year, cs);
    assert l == ListedFrom(cs, 1) && m == rest;
    forall k | 0 <= k < |l| ensures m[k] == Entry(year, cs[l[k]]) {
      assert l[k] == shifted[k] + 1;
      assert cs[1..][shifted[k]] == cs[l[k]];
    }
  }

  /** Listing the tail is listing the whole from position 1, shifted by one. */
  lemma {:induction false} ListedShiftFrom(cs: seq<Candidate>, i: nat)
    requires 0 < i <= |cs|
    ensures |ListedFrom(cs, i)| == |ListedFrom(cs[1..], i - 1)|
    ensures forall k :: 0 <= k < |ListedFrom(cs, i)| ==> ListedFrom(cs, i)[k] == ListedFrom(cs[1..], i - 1)[k] + 1
    decreases |cs| - i
  {
    if i < |cs| {
      ListedShiftFrom(cs, i + 1);
      var tail := cs[1..];
      assert tail[i - 1] == cs[i];
      var a, b := ListedFrom(cs, i + 1), ListedFrom(tail, i);
      if Listed(cs[i]) {
        var x, y := ListedFrom(cs, i), ListedFrom(tail, i - 1);
        assert x == [i] + a && y == [i - 1] + b;
        forall k | 0 <= k < |x| ensures x[k] == y[k] + 1 {
          if k > 0 {
            assert x[k] == a[k - 1] && y[k] == b[k - 1];
          }
        }
      } else {
        assert ListedFrom(cs, i) == a;
        assert ListedFrom(tail, i - 1) == b;
      }
    }
  }

  /** Applied to the parsed page, the headings are "<Month> <year>" for exactly
      the months with key events, in calendar order. */
  lemma DigestOfPage(year: nat, page: seq<ListNode>)
    ensures var buckets := ParseEvents(page);
            var d := FormatForLlm(year, buckets);
            var listed := ListedFrom(Candidates(buckets), 0);
            && StrictlyIncreasing(listed)
            && |d.months| == |listed|
            && (forall k :: 0 <= k < |listed| ==>
                  (listed[k] < 12 && d.months[k].heading == MonthNames[listed[k]] + " " + NatToString(year)))
            && (forall m :: 0 <= m < 12 && |buckets[m].events| > 0 && |KeyEventsOf(buckets[m])| > 0 ==> m in listed)
  {
    var buckets := ParseEvents(page);
    var cs := Candidates(buckets);
    forall m | 0 <= m < 12 && |buckets[m].events| > 0 && |KeyEventsOf(buckets[m])| > 0
      ensures m in ListedFrom(cs, 0)
    {
      assert Listed(cs[m]);
      ListedComplete(cs, 0, m);
    }
  }

  /** The escaping of one character. */
  function EscapeChar(c: char): string {
    if c == '&' then "&amp;" else if c == '<' then "&lt;" else if c == '>' then "&gt;" else [c]
  }

  /** Each character escaped on its own. */
  function EscapeEach(s: string): string {
    if |s| == 0 then "" else EscapeChar(s[0]) + EscapeEach(s[1..])
  }

  /** `event.replace('&', '&amp;').replace('<', '&lt;').replace('>', '&gt;')`. */
  function EscapeHtml(s: string): (r: string)
    ensures '<' !in r && '>' !in r
  {
    ReplaceChar(ReplaceChar(ReplaceChar(s, '&', "&amp;"), '<', "&lt;"), '>', "&gt;")
  }

  lemma EscapeOne(c: char)
    ensures ReplaceChar(ReplaceChar(ReplaceChar([c], '&', "&amp;"), '<', "&lt;"), '>', "&gt;") == EscapeChar(c)
  {
    assert [c][1..] == [];
    if c == '&' {
      assert ReplaceChar([c], '&', "&amp;") == "&amp;";
      assert '<' !in "&amp;" && '>' !in "&amp;";
    } else if c == '<' {
      assert ReplaceChar([c], '<', "&lt;") == "&lt;";
      assert '>' !in "&lt;";
    } else if c == '>' {
      assert ReplaceChar([c], '>', "&gt;") == "&gt;";
    }
  }

  /** Because `&` is replaced first, the three passes escape each character of
      the input once: no entity written by a later pass is escaped again. */
  lemma {:induction false} EscapeHtmlPerChar(s: string)
    ensures EscapeHtml(s) == EscapeEach(s)
    decreases |s|
  {
    if |s| > 0 {
      EscapeHtmlPerChar(s[1..]);
      var head, tail := [s[0]], s[1..];
      assert s == head + tail;
      ReplaceCharAppend(head, tail, '&', "&amp;");
      var a1, a2 := ReplaceChar(head, '&', "&amp;"), ReplaceChar(tail, '&', "&amp;");
      ReplaceCharAppend(a1, a2, '<', "&lt;");
      var b1, b2 := ReplaceChar(a1, '<', "&lt;"), ReplaceChar(a2, '<', "&lt;");
      ReplaceCharAppend(b1, b2, '>', "&gt;");
      EscapeOne(s[0]);
    }
  }

  /** Decoding of the three entities, read left to right. */
  function Unescape(t: string): string
    decreases |t|
  {
    if |t| == 0 then ""
    else if StartsWith(t, "&amp;") then "&" + Unescape(t[5..])
    else if StartsWith(t, "&lt;") then "<" + Unescape(t[4..])
    else if StartsWith(t, "&gt;") then ">" + Unescape(t[4..])
    else [t[0]] + Unescape(t[1..])
  }

  /** Escaping loses nothing: decoding the entities gives the event back. */
  lemma {:induction false} UnescapeEscape(s: string)
    ensures Unescape(EscapeHtml(s)) == s
  {
    EscapeHtmlPerChar(s);
    UnescapeEach(s);
  }

  lemma {:induction false} UnescapeEach(s: string)
    ensures Unescape(EscapeEach(s)) == s
    decreases |s|
  {
    if |s| > 0 {
      UnescapeEach(s[1..]);
      UnescapeStep(s[0], EscapeEach(s[1..]));
      assert s == [s[0]] + s[1..];
    }
  }

  /** Decoding consumes exactly the escape of the first character. */
  lemma UnescapeStep(c: char, rest: string)
    ensures Unescape(EscapeChar(c) + rest) == [c] + Unescape(rest)
  {
    if c == '&' {
      UnescapeEntity("&amp;", rest);
    } else if c == '<' {
      UnescapeEntity("&lt;", rest);
    } else if c == '>' {
      UnescapeEntity("&gt;", rest);
    } else {
      var t := [c] + rest;
      assert t[0] == c && t[1..] == rest;
    }
  }

  lemma UnescapeEntity(e: string, rest: string)
    requires e == "&amp;" || e == "&lt;" || e == "&gt;"
    ensures Unescape(e + rest) == (if e == "&amp;" then "&" else if e == "&lt;" then "<" else ">") + Unescape(rest)
  {
    var t := e + rest;
    assert t[..|e|] == e && t[|e|..] == rest;
    assert StartsWith(t, e);
    if e != "&amp;" {
      assert t[1] != 'a';
    }
  }

  /** Every `&` of an escaped event begins one of the three entities. */
  lemma {:induction false} AmpersandsAreEntities(s: string)
    ensures forall i :: 0 <= i < |EscapeEach(s)| && EscapeEach(s)[i] == '&' ==>
              OccursAt(EscapeEach(s), "&amp;", i) || OccursAt(EscapeEach(s), "&lt;", i) || OccursAt(EscapeEach(s), "&gt;", i)
    decreases |s|
  {
    if |s| > 0 {
      AmpersandsAreEntities(s[1..]);
      var e, rest := EscapeChar(s[0]), EscapeEach(s[1..]);
      var t := e + rest;
      forall i | 0 <= i < |t| && t[i] == '&'
        ensures OccursAt(t, "&amp;", i) || OccursAt(t, "&lt;", i) || OccursAt(t, "&gt;", i)
      {
        if i < |e| {
          assert t[..|e|] == e;
          assert i == 0;
        } else {
          var j := i - |e|;
          assert rest[j] == t[i];
          OccursShift(e, rest, "&amp;", j);
          OccursShift(e, rest, "&lt;", j);
          OccursShift(e, rest, "&gt;", j);
        }
      }
    }
  }
}
