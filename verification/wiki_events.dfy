/**
 * The list walk of `WikipediaScraper.parse_events`: which `<ul>` lists count as
 * event lists, which of their items are dated events, how nested sub-events are
 * labelled with their parent's date, and how everything lands in month buckets.
 *
 * The parsed page is abstracted to the sequence of all `<ul>` nodes in document
 * order (what `soup.find_all('ul')` returns, nested lists included). Each node
 * carries its flattened text and its direct `<li>` children; each item carries
 * its own flattened text, which, as `li.get_text()` does, includes the text of
 * any list nested inside it, and the texts of the direct items of its first
 * nested list, if it has one.
 */
module WikiEvents {
  import opened Wrappers
  import opened Text
  import opened Seqs
  import opened Clean

  const MonthNames: seq<string> :=
    ["January", "February", "March", "April", "May", "June",
     "July", "August", "September", "October", "November", "December"]

  /** A `<li>` child of a list: `li.get_text()` and, if the item holds a nested
      `<ul>`, the `get_text()` of each direct item of the first one. */
  datatype Item = Item(text: string, nested: Option<seq<string>>)

  /** A `<ul>` node: `ul.get_text()` and its direct `<li>` children. */
  datatype ListNode = ListNode(text: string, items: seq<Item>)

  /** Lists shorter than this are taken for navigation, not events. */
  const MinListLength: nat := 100

  /** Sub-events must be longer than this after cleaning. */
  const MinSubEventLength: nat := 20

  /** The navigation/table-of-contents filter applied to each list: a list is
      skipped exactly when "Toggle" or "Contents" occurs somewhere in its text
      or the text is shorter than 100 characters. */
  function SkipList(ul: ListNode): (b: bool)
    ensures b <==> || (exists j :: OccursAt(ul.text, "Toggle", j))
                   || (exists j :: OccursAt(ul.text, "Contents", j))
                   || |ul.text| < MinListLength
  {
    Contains(ul.text, "Toggle") || Contains(ul.text, "Contents") || |ul.text| < MinListLength
  }

  /** `s` begins with month name `m`, then whitespace up to position `k`, then
      the digit at `k`: a match of `^(January|...|December)\s+\d+`. */
  ghost predicate MonthDateAt(s: string, m: nat, k: int) {
    && m < 12
    && |MonthNames[m]| < k < |s|
    && StartsWith(s, MonthNames[m])
    && (forall j :: |MonthNames[m]| <= j < k ==> IsSpace(s[j]))
    && IsDigit(s[k])
  }

  ghost predicate StartsWithMonthDate(s: string, m: nat) {
    exists k :: MonthDateAt(s, m, k)
  }

  /** Where a month-date match must put its first digit. */
  lemma MonthDateDigitPosition(s: string, m: nat, k: int)
    requires MonthDateAt(s, m, k)
    ensures k == |MonthNames[m]| + SpaceRun(s[|MonthNames[m]|..])
  {
    var n := |MonthNames[m]|;
    assert forall j :: n <= j < k ==> s[n..][j - n] == s[j];
    assert s[n..][k - n] == s[k];
  }

  /** Whether alternative `m` of the date pattern matches at the start of `s`. */
  function MatchesMonth(s: string, m: nat): (b: bool)
    requires m < 12
    ensures b <==> StartsWithMonthDate(s, m)
  {
    var n := |MonthNames[m]|;
    if StartsWith(s, MonthNames[m]) then
      var run := SpaceRun(s[n..]);
      var k := n + run;
      var b := n < k < |s| && IsDigit(s[k]);
      assert b ==> MonthDateAt(s, m, k) by {
        if b {
          assert forall j :: n <= j < k ==> s[j] == s[n..][j - n];
        }
      }
      assert !b ==> forall k' :: !MonthDateAt(s, m, k') by {
        forall k' | MonthDateAt(s, m, k') ensures b {
          MonthDateDigitPosition(s, m, k');
        }
      }
      b
    else
      false
  }

  function MonthMatchFrom(s: string, m: nat): (r: Option<nat>)
    requires m <= 12
    ensures r.Some? ==> m <= r.value < 12 && StartsWithMonthDate(s, r.value)
    ensures r.Some? ==> forall m' :: m <= m' < r.value ==> !StartsWithMonthDate(s, m')
    ensures r.None? ==> forall m' :: m <= m' < 12 ==> !StartsWithMonthDate(s, m')
    decreases 12 - m
  {
    if m == 12 then None
    else if MatchesMonth(s, m) then Some(m)
    else MonthMatchFrom(s, m + 1)
  }

  /** `date_pattern.match(s)`: the index of the month it captures, the first
      alternative that matches, or None when the pattern does not match. */
  function DateMonth(s: string): (r: Option<nat>)
    ensures r.Some? ==> r.value < 12 && StartsWithMonthDate(s, r.value)
    ensures r.Some? ==> forall m :: 0 <= m < r.value ==> !StartsWithMonthDate(s, m)
    ensures r.None? ==> forall m :: 0 <= m < 12 ==> !StartsWithMonthDate(s, m)
  {
    MonthMatchFrom(s, 0)
  }

  lemma MonthNameLetters(m: nat)
    requires m < 12
    ensures forall j :: 0 <= j < |MonthNames[m]| ==> 'A' <= MonthNames[m][j] <= 'z'
  {
  }

  /** A month-date match only depends on the characters up to its first digit. */
  lemma MonthDateKeptByPrefix(s: string, t: string, m: nat, k: int)
    requires MonthDateAt(s, m, k)
    requires k < |t| && t[..k + 1] == s[..k + 1]
    ensures MonthDateAt(t, m, k)
  {
    assert forall j :: 0 <= j <= k ==> t[j] == t[..k + 1][j] == s[..k + 1][j] == s[j];
    assert t[..|MonthNames[m]|] == s[..|MonthNames[m]|];
  }

  lemma MonthDateKeptByExtension(s: string, t: string, m: nat)
    requires StartsWithMonthDate(s, m) && StartsWith(t, s)
    ensures StartsWithMonthDate(t, m)
  {
    var k :| MonthDateAt(s, m, k);
    assert t[..k + 1] == t[..|s|][..k + 1];
    MonthDateKeptByPrefix(s, t, m, k);
  }

  /** A separator that is neither a letter, whitespace nor a digit cannot occur
      inside a month-date match. */
  lemma SeparatorAfterDate(s: string, m: nat, k: int, c: char)
    requires MonthDateAt(s, m, k)
    requires !('A' <= c <= 'z') && !IsSpace(c) && !IsDigit(c)
    ensures forall j :: 0 <= j < k + 1 ==> !OccursAt(s, [c], j)
  {
    MonthNameLetters(m);
    forall j | 0 <= j < k + 1 ensures !OccursAt(s, [c], j) {
      assert j < |MonthNames[m]| ==> s[j] == s[..|MonthNames[m]|][j];
      assert s[j..j + 1][0] == s[j];
    }
  }

  /** Cutting a month-dated text at the first occurrence of `c` keeps the match. */
  lemma FirstPieceKeepsDate(s: string, m: nat, k: int, c: char)
    requires MonthDateAt(s, m, k)
    requires !('A' <= c <= 'z') && !IsSpace(c) && !IsDigit(c)
    ensures MonthDateAt(Split(s, [c])[0], m, k)
  {
    SeparatorAfterDate(s, m, k, c);
    FirstPieceKeeps(s, [c], k + 1);
    var piece := Split(s, [c])[0];
    assert piece[..k + 1] == s[..|piece|][..k + 1] == s[..k + 1];
    MonthDateKeptByPrefix(s, piece, m, k);
  }

  const EnDash: char := '\U{2013}'
  const EmDash: char := '\U{2014}'

  /** The characters at which the date part of an event ends. */
  predicate IsDateSeparator(c: char) {
    c == EnDash || c == EmDash || c == ':'
  }

  /** The index of the first date separator in `s`, or `|s|` when it has none. */
  function SeparatorIndex(s: string): (q: nat)
    ensures q <= |s|
    ensures forall j :: 0 <= j < q ==> !IsDateSeparator(s[j])
    ensures q < |s| ==> IsDateSeparator(s[q])
  {
    if |s| == 0 || IsDateSeparator(s[0]) then 0 else 1 + SeparatorIndex(s[1..])
  }

  /** `event_text.split('–')[0].split('—')[0].split(':')[0].strip()`: whatever
      the order of the three splits, the text before the first en dash, em
      dash or colon, stripped. */
  function DatePart(eventText: string): (r: string)
    ensures r == Strip(eventText[..SeparatorIndex(eventText)])
  {
    var p1 := Split(eventText, [EnDash])[0];
    var p2 := Split(p1, [EmDash])[0];
    var p3 := Split(p2, ":")[0];
    DatePartCut(eventText);
    Strip(p3)
  }

  /** The three successive first pieces end at the first separator of any kind. */
  lemma DatePartCut(s: string)
    ensures Split(Split(Split(s, [EnDash])[0], [EmDash])[0], ":")[0] == s[..SeparatorIndex(s)]
  {
    var q1 := IndexOf(s, EnDash);
    var p1 := s[..q1];
    var q2 := IndexOf(p1, EmDash);
    var p2 := p1[..q2];
    var q3 := IndexOf(p2, ':');
    assert Split(s, [EnDash])[0] == p1 by { FirstPieceCut(s, EnDash); }
    assert Split(p1, [EmDash])[0] == p2 by { FirstPieceCut(p1, EmDash); }
    assert Split(p2, ":")[0] == p2[..q3] by {
      FirstPieceCut(p2, ':');
      assert ":" == [':'];
    }
    assert p2[..q3] == s[..q3];
    NestedCutIsSeparator(s);
  }

  /** Cutting at the first en dash, then the first em dash, then the first
      colon cuts at the first separator. */
  lemma NestedCutIsSeparator(s: string)
    ensures var p1 := s[..IndexOf(s, EnDash)];
            var p2 := p1[..IndexOf(p1, EmDash)];
            IndexOf(p2, ':') == SeparatorIndex(s)
  {
    var q1 := IndexOf(s, EnDash);
    var p1 := s[..q1];
    var q2 := IndexOf(p1, EmDash);
    var p2 := p1[..q2];
    var q3 := IndexOf(p2, ':');
    forall j | 0 <= j < q3 ensures !IsDateSeparator(s[j]) {
      assert p2[j] == s[j];
    }
    if q3 < |s| {
      if q3 < q2 {
        assert p2[q3] == s[q3];
      } else if q2 < q1 {
        assert p1[q2] == s[q2];
      }
    }
    SeparatorIndexIs(s, q3);
  }

  /** The first separator is the one index with a separator there and none
      before it. */
  lemma SeparatorIndexIs(s: string, q: nat)
    requires q <= |s|
    requires forall j :: 0 <= j < q ==> !IsDateSeparator(s[j])
    requires q < |s| ==> IsDateSeparator(s[q])
    ensures SeparatorIndex(s) == q
  {
  }

  /** The date part of a month-dated text still begins with the same month date. */
  lemma DatePartKeepsDate(s: string, m: nat)
    requires StartsWithMonthDate(s, m)
    ensures StartsWithMonthDate(DatePart(s), m)
  {
    var k :| MonthDateAt(s, m, k);
    FirstPieceKeepsDate(s, m, k, EnDash);
    var p1 := Split(s, [EnDash])[0];
    FirstPieceKeepsDate(p1, m, k, EmDash);
    var p2 := Split(p1, [EmDash])[0];
    FirstPieceKeepsDate(p2, m, k, ':');
    StripKeepsDate(Split(p2, ":")[0], m, k);
  }

  /** A month-dated text has no leading whitespace, and stripping the end
      cannot reach its first digit. */
  lemma StripKeepsDate(s: string, m: nat, k: int)
    requires MonthDateAt(s, m, k)
    ensures MonthDateAt(Strip(s), m, k)
  {
    MonthNameLetters(m);
    assert s[0] == s[..|MonthNames[m]|][0];
    assert SpaceRun(s) == 0;
    var r := Strip(s);
    assert |r| > k;
    assert r[..k + 1] == s[..k + 1];
    MonthDateKeptByPrefix(s, r, m, k);
  }

  /** The sub-event the loop appends for a cleaned text: the parent's date
      part, a colon and the text. */
  function SubEventLabel(datePart: string, cleaned: string): string {
    datePart + ": " + cleaned
  }

  predicate IsLongSubEvent(c: string) {
    |c| > MinSubEventLength
  }

  /** The cleaned texts longer than 20 characters (`LongTextsFilter`). */
  function LongTexts(cleaned: seq<string>): seq<string> {
    if |cleaned| == 0 then []
    else (if IsLongSubEvent(cleaned[0]) then [cleaned[0]] else []) + LongTexts(cleaned[1..])
  }

  /** The long texts are the cleaned texts longer than 20 characters, in order,
      each as often as it occurs, and nothing else. */
  lemma {:induction false} LongTextsFilter(cleaned: seq<string>)
    ensures FilterOf(LongTexts(cleaned), cleaned, IsLongSubEvent)
  {
    if |cleaned| > 0 {
      LongTextsFilter(cleaned[1..]);
      assert cleaned == [cleaned[0]] + cleaned[1..];
      FilterCons(cleaned[0], LongTexts(cleaned[1..]), cleaned[1..], IsLongSubEvent, LongTexts(cleaned), cleaned);
    }
  }

  /** The filter of the sub-event loop on already cleaned texts: one label per
      text longer than 20 characters, in order. */
  function LabelLong(datePart: string, cleaned: seq<string>): (r: seq<string>)
    ensures |r| == |LongTexts(cleaned)|
    ensures forall i :: 0 <= i < |r| ==> r[i] == SubEventLabel(datePart, LongTexts(cleaned)[i])
  {
    if |cleaned| == 0 then []
    else
      var rest := LabelLong(datePart, cleaned[1..]);
      var long := LongTexts(cleaned[1..]);
      assert LongTexts(cleaned) == (if IsLongSubEvent(cleaned[0]) then [cleaned[0]] else []) + long;
      if IsLongSubEvent(cleaned[0]) then
        var r := [SubEventLabel(datePart, cleaned[0])] + rest;
        assert forall i :: 0 < i < |r| ==> r[i] == rest[i - 1];
        r
      else rest
  }

  /** Each text of a nested list, cleaned. */
  function CleanAll(texts: seq<string>): (r: seq<string>)
    ensures |r| == |texts| && forall i :: 0 <= i < |texts| ==> r[i] == CleanEventText(texts[i])
  {
    seq(|texts|, i requires 0 <= i < |texts| => CleanEventText(texts[i]))
  }

  /** The loop over the direct items of a nested list: each item's text is
      cleaned, and each one longer than 20 characters is appended, in order,
      with the parent's date part in front. */
  function SubEvents(datePart: string, texts: seq<string>): (r: seq<string>)
    ensures |r| == |LongTexts(CleanAll(texts))|
    ensures forall i :: 0 <= i < |r| ==> r[i] == SubEventLabel(datePart, LongTexts(CleanAll(texts))[i])
    ensures forall e :: e in r ==> StartsWith(e, datePart)
  {
    var r := LabelLong(datePart, CleanAll(texts));
    assert forall i :: 0 <= i < |r| ==> r[i][..|datePart|] == datePart;
    r
  }

  /** The direct items of the first nested list, none when there is none. */
  function NestedTexts(item: Item): seq<string> {
    match item.nested
    case None => []
    case Some(texts) => texts
  }

  /** The events one list item adds and the month bucket they go to. */
  datatype Contribution = Contribution(month: nat, events: seq<string>)

  /** One iteration of the item loop of `parse_events`: the item's cleaned text
      is an event exactly when it begins with a month date; then it is added,
      followed by its qualifying sub-events, to the first month whose
      alternative of the pattern matches. */
  function ItemContribution(item: Item): (r: Option<Contribution>)
    ensures r.Some? <==> exists m :: StartsWithMonthDate(CleanEventText(item.text), m)
    ensures r.Some? ==> && r.value.month < 12
                        && StartsWithMonthDate(CleanEventText(item.text), r.value.month)
                        && forall m :: 0 <= m < r.value.month ==> !StartsWithMonthDate(CleanEventText(item.text), m)
    ensures r.Some? ==> && |r.value.events| > 0
                        && r.value.events[0] == CleanEventText(item.text)
                        && r.value.events[1..] == SubEvents(DatePart(CleanEventText(item.text)), NestedTexts(item))
  {
    var eventText := CleanEventText(item.text);
    match DateMonth(eventText)
    case None =>
      NoMonthDate(eventText);
      None
    case Some(m) =>
      var events := [eventText] + SubEvents(DatePart(eventText), NestedTexts(item));
      assert events[1..] == SubEvents(DatePart(eventText), NestedTexts(item));
      Some(Contribution(m, events))
  }

  /** A contribution whose events all begin with the month date of its month. */
  ghost predicate ContributionDated(c: Option<Contribution>) {
    c.Some? ==> forall e :: e in c.value.events ==> StartsWithMonthDate(e, c.value.month)
  }

  /** Sub-events carry their parent's month date. */
  lemma SubEventsDated(datePart: string, texts: seq<string>, m: nat)
    requires StartsWithMonthDate(datePart, m)
    ensures forall e :: e in SubEvents(datePart, texts) ==> StartsWithMonthDate(e, m)
  {
    forall e | e in SubEvents(datePart, texts) ensures StartsWithMonthDate(e, m) {
      MonthDateKeptByExtension(datePart, e, m);
    }
  }

  /** No alternative of the date pattern matches when `DateMonth` finds none. */
  lemma NoMonthDate(s: string)
    requires DateMonth(s).None?
    ensures forall m :: !StartsWithMonthDate(s, m)
  {
    forall m ensures !StartsWithMonthDate(s, m) {
      if m >= 12 {
        assert forall k :: !MonthDateAt(s, m, k);
      }
    }
  }

  /** Everything an item contributes begins with the month date of its bucket. */
  lemma ItemContributionDated(item: Item)
    ensures ContributionDated(ItemContribution(item))
  {
    var eventText := CleanEventText(item.text);
    var month := DateMonth(eventText);
    if month.Some? {
      ParentAndSubEventsDated(eventText, month.value, NestedTexts(item));
    }
  }

  lemma ParentAndSubEventsDated(eventText: string, m: nat, texts: seq<string>)
    requires StartsWithMonthDate(eventText, m)
    ensures forall e :: e in [eventText] + SubEvents(DatePart(eventText), texts) ==> StartsWithMonthDate(e, m)
  {
    var subs := SubEvents(DatePart(eventText), texts);
    DatePartKeepsDate(eventText, m);
    SubEventsDated(DatePart(eventText), texts, m);
    forall e | e in [eventText] + subs ensures StartsWithMonthDate(e, m) {
      if e != eventText {
        assert e in subs;
      }
    }
  }

  /** A list as the item loop sees it: whether the filter skips it, and what
      each of its items contributes. */
  datatype Reading = Reading(skipped: bool, contributions: seq<Option<Contribution>>)

  function ReadList(ul: ListNode): (r: Reading)
    ensures r.skipped == SkipList(ul) && |r.contributions| == |ul.items|
    ensures forall i :: 0 <= i < |ul.items| ==> r.contributions[i] == ItemContribution(ul.items[i])
  {
    Reading(SkipList(ul), seq(|ul.items|, i requires 0 <= i < |ul.items| => ItemContribution(ul.items[i])))
  }

  /** Every list of the page read on its own, in document order. */
  function ReadPage(page: seq<ListNode>): (r: seq<Reading>)
    ensures |r| == |page|
    ensures forall i :: 0 <= i < |page| ==> r[i] == ReadList(page[i])
  {
    seq(|page|, i requires 0 <= i < |page| => ReadList(page[i]))
  }

  lemma ReadPageAppend(a: seq<ListNode>, b: seq<ListNode>)
    ensures ReadPage(a + b) == ReadPage(a) + ReadPage(b)
  {
    assert forall i :: 0 <= i < |a| + |b| ==> (a + b)[i] == if i < |a| then a[i] else b[i - |a|];
  }

  /** Contributions name one of the twelve months. */
  ghost predicate WellRead(rs: seq<Reading>) {
    forall i, j :: 0 <= i < |rs| && 0 <= j < |rs[i].contributions| && rs[i].contributions[j].Some? ==>
      rs[i].contributions[j].value.month < 12
  }

  lemma ReadPageWellRead(page: seq<ListNode>)
    ensures WellRead(ReadPage(page))
  {
  }

  /** An event paired with the index of its month. */
  datatype Dated = Dated(month: nat, text: string)

  function Tagged(c: Option<Contribution>): seq<Dated> {
    match c
    case None => []
    case Some(Contribution(m, events)) =>
      seq(|events|, i requires 0 <= i < |events| => Dated(m, events[i]))
  }

  function Flatten(cs: seq<Option<Contribution>>): seq<Dated> {
    if |cs| == 0 then [] else Tagged(cs[0]) + Flatten(cs[1..])
  }

  /** The dated events of one list read; a skipped list gives none. */
  function Own(r: Reading): seq<Dated> {
    if r.skipped then [] else Flatten(r.contributions)
  }

  /** The dated events of the lists read, in document order; skipped lists
      give none. */
  function Events(rs: seq<Reading>): seq<Dated> {
    if |rs| == 0 then []
    else Own(rs[0]) + Events(rs[1..])
  }

  lemma {:induction false} EventsAppend(a: seq<Reading>, b: seq<Reading>)
    ensures Events(a + b) == Events(a) + Events(b)
    decreases |a|
  {
    if |a| > 0 {
      calc {
        Events(a + b);
      == { assert (a + b)[0] == a[0] && (a + b)[1..] == a[1..] + b; }
        Own(a[0]) + Events(a[1..] + b);
      == { EventsAppend(a[1..], b); }
        Own(a[0]) + (Events(a[1..]) + Events(b));
      ==
        Own(a[0]) + Events(a[1..]) + Events(b);
      }
    } else {
      assert a + b == b;
    }
  }

  /** Every dated event of the page in document order: the reference against
      which the month buckets are checked. */
  function DocumentEvents(page: seq<ListNode>): seq<Dated> {
    Events(ReadPage(page))
  }

  /** The texts of the events dated in month `m`, in order. */
  function InMonth(events: seq<Dated>, m: nat): seq<string> {
    if |events| == 0 then []
    else (if events[0].month == m then [events[0].text] else []) + InMonth(events[1..], m)
  }

  lemma {:induction false} InMonthConcat(a: seq<Dated>, b: seq<Dated>, m: nat)
    ensures InMonth(a + b, m) == InMonth(a, m) + InMonth(b, m)
    decreases |a|
  {
    if |a| > 0 {
      InMonthConcat(a[1..], b, m);
      assert (a + b)[1..] == a[1..] + b;
    } else {
      assert a + b == b;
    }
  }

  lemma {:induction false} InMonthTagged(c: Option<Contribution>, m: nat)
    ensures InMonth(Tagged(c), m) == if c.Some? && c.value.month == m then c.value.events else []
  {
    if c.Some? {
      InMonthSame(c.value.month, c.value.events, m);
    }
  }

  lemma {:induction false} InMonthSame(month: nat, events: seq<string>, m: nat)
    ensures InMonth(Tagged(Some(Contribution(month, events))), m) == if month == m then events else []
    decreases |events|
  {
    var t := Tagged(Some(Contribution(month, events)));
    if |events| > 0 {
      InMonthSame(month, events[1..], m);
      assert t[1..] == Tagged(Some(Contribution(month, events[1..])));
    }
  }

  /** A bucket of the result: a month name and its events in insertion order. */
  datatype Bucket = Bucket(name: string, events: seq<string>)

  predicate MonthShaped(b: seq<Bucket>) {
    |b| == 12 && forall m :: 0 <= m < 12 ==> b[m].name == MonthNames[m]
  }

  /** The twelve empty buckets `parse_events` starts from. */
  function EmptyBuckets(): (r: seq<Bucket>)
    ensures MonthShaped(r)
    ensures forall m :: 0 <= m < 12 ==> r[m].events == []
  {
    seq(12, m requires 0 <= m < 12 => Bucket(MonthNames[m], []))
  }

  /** `events_by_month[month].extend(...)` for one item. */
  function AddContribution(b: seq<Bucket>, c: Option<Contribution>): (r: seq<Bucket>)
    requires MonthShaped(b)
    requires c.Some? ==> c.value.month < 12
    ensures MonthShaped(r)
    ensures forall m :: 0 <= m < 12 ==> r[m].events == b[m].events + InMonth(Tagged(c), m)
  {
    forall m | 0 <= m < 12 {
      InMonthTagged(c, m);
    }
    match c
    case None => b
    case Some(Contribution(month, events)) =>
      b[month := Bucket(b[month].name, b[month].events + events)]
  }

  /** The item loop of one list. */
  function AddContributions(b: seq<Bucket>, cs: seq<Option<Contribution>>): (r: seq<Bucket>)
    requires MonthShaped(b)
    requires forall i :: 0 <= i < |cs| && cs[i].Some? ==> cs[i].value.month < 12
    ensures MonthShaped(r)
    ensures forall m :: 0 <= m < 12 ==> r[m].events == b[m].events + InMonth(Flatten(cs), m)
    decreases |cs|
  {
    if |cs| == 0 then b
    else
      var b1 := AddContribution(b, cs[0]);
      var r := AddContributions(b1, cs[1..]);
      assert Flatten(cs) == Tagged(cs[0]) + Flatten(cs[1..]);
      forall m | 0 <= m < 12 ensures r[m].events == b[m].events + InMonth(Flatten(cs), m) {
        InMonthConcat(Tagged(cs[0]), Flatten(cs[1..]), m);
        AppendStep(b[m].events, b1[m].events, r[m].events,
                   InMonth(Tagged(cs[0]), m), InMonth(Flatten(cs[1..]), m), InMonth(Flatten(cs), m));
      }
      r
  }

  lemma AppendStep<T>(x: seq<T>, y: seq<T>, z: seq<T>, p: seq<T>, q: seq<T>, pq: seq<T>)
    requires y == x + p && z == y + q && pq == p + q
    ensures z == x + pq
  {
  }

  /** The list loop: skipped lists are passed over. */
  function AddReadings(b: seq<Bucket>, rs: seq<Reading>): (r: seq<Bucket>)
    requires MonthShaped(b) && WellRead(rs)
    ensures MonthShaped(r)
    ensures forall m :: 0 <= m < 12 ==> r[m].events == b[m].events + InMonth(Events(rs), m)
    decreases |rs|
  {
    if |rs| == 0 then b
    else
      var next := if rs[0].skipped then b else AddContributions(b, rs[0].contributions);
      var r := AddReadings(next, rs[1..]);
      var own := Own(rs[0]);
      assert Events(rs) == own + Events(rs[1..]);
      forall m | 0 <= m < 12 ensures r[m].events == b[m].events + InMonth(Events(rs), m) {
        InMonthConcat(own, Events(rs[1..]), m);
        AppendStep(b[m].events, next[m].events, r[m].events,
                   InMonth(own, m), InMonth(Events(rs[1..]), m), InMonth(Events(rs), m));
      }
      r
  }

  /** `parse_events`: twelve buckets in calendar order; bucket `m` holds, in
      document order, exactly the events the page dates in month `m`. */
  function ParseEvents(page: seq<ListNode>): (r: seq<Bucket>)
    ensures |r| == 12
    ensures forall m :: 0 <= m < 12 ==> r[m].name == MonthNames[m]
    ensures forall m :: 0 <= m < 12 ==> r[m].events == InMonth(DocumentEvents(page), m)
  {
    ReadPageWellRead(page);
    AddReadings(EmptyBuckets(), ReadPage(page))
  }

  /** Every event of the document begins with the month date of its month. */
  ghost predicate AllDated(events: seq<Dated>) {
    forall i :: 0 <= i < |events| ==> StartsWithMonthDate(events[i].text, events[i].month)
  }

  lemma ConcatDated(a: seq<Dated>, b: seq<Dated>)
    requires AllDated(a) && AllDated(b)
    ensures AllDated(a + b)
  {
    assert forall i :: |a| <= i < |a| + |b| ==> (a + b)[i] == b[i - |a|];
  }

  lemma {:induction false} FlattenDated(cs: seq<Option<Contribution>>)
    requires forall i :: 0 <= i < |cs| ==> ContributionDated(cs[i])
    ensures AllDated(Flatten(cs))
    decreases |cs|
  {
    if |cs| > 0 {
      FlattenDated(cs[1..]);
      var t := Tagged(cs[0]);
      assert AllDated(t) by {
        if cs[0].Some? {
          forall i | 0 <= i < |t| ensures StartsWithMonthDate(t[i].text, t[i].month) {
            assert t[i].text == cs[0].value.events[i];
          }
        }
      }
      ConcatDated(t, Flatten(cs[1..]));
    }
  }

  /** All contributions of the lists read are dated. */
  ghost predicate ReadingsDated(rs: seq<Reading>) {
    forall i, j :: 0 <= i < |rs| && 0 <= j < |rs[i].contributions| ==> ContributionDated(rs[i].contributions[j])
  }

  lemma {:induction false} EventsDated(rs: seq<Reading>)
    requires ReadingsDated(rs)
    ensures AllDated(Events(rs))
    decreases |rs|
  {
    if |rs| > 0 {
      assert ReadingsDated(rs[1..]) by {
        forall i, j | 0 <= i < |rs| - 1 && 0 <= j < |rs[1..][i].contributions|
          ensures ContributionDated(rs[1..][i].contributions[j])
        {
          assert rs[1..][i] == rs[i + 1];
        }
      }
      EventsDated(rs[1..]);
      FlattenDated(rs[0].contributions);
      ConcatDated(Own(rs[0]), Events(rs[1..]));
    }
  }

  lemma DocumentEventsDated(page: seq<ListNode>)
    ensures AllDated(DocumentEvents(page))
  {
    var rs := ReadPage(page);
    forall i, j | 0 <= i < |rs| && 0 <= j < |rs[i].contributions| ensures ContributionDated(rs[i].contributions[j]) {
      ItemContributionDated(page[i].items[j]);
    }
    EventsDated(rs);
  }

  lemma {:induction false} InMonthDated(events: seq<Dated>, m: nat)
    requires AllDated(events)
    ensures forall e :: e in InMonth(events, m) ==> StartsWithMonthDate(e, m)
    decreases |events|
  {
    if |events| > 0 {
      assert AllDated(events[1..]) by {
        forall i | 0 <= i < |events| - 1 ensures StartsWithMonthDate(events[1..][i].text, events[1..][i].month) {
          assert events[1..][i] == events[i + 1];
        }
      }
      InMonthDated(events[1..], m);
    }
  }

  /** Every string in bucket `m` begins with month `m`, whitespace and a digit,
      parent entries and date-prefixed sub-events alike. */
  lemma BucketsAreDated(page: seq<ListNode>)
    ensures forall m, j :: 0 <= m < 12 && 0 <= j < |ParseEvents(page)[m].events| ==>
              StartsWithMonthDate(ParseEvents(page)[m].events[j], m)
  {
    var r := ParseEvents(page);
    DocumentEventsDated(page);
    forall m, j | 0 <= m < 12 && 0 <= j < |r[m].events| ensures StartsWithMonthDate(r[m].events[j], m) {
      InMonthDated(DocumentEvents(page), m);
      assert r[m].events[j] in InMonth(DocumentEvents(page), m);
    }
  }

  /** The buckets depend on the page only through its dated events. */
  lemma SameEventsSameBuckets(p1: seq<ListNode>, p2: seq<ListNode>)
    requires DocumentEvents(p1) == DocumentEvents(p2)
    ensures ParseEvents(p1) == ParseEvents(p2)
  {
    var r1 := ParseEvents(p1);
    var r2 := ParseEvents(p2);
    assert forall m :: 0 <= m < 12 ==> r1[m] == r2[m];
  }

  lemma SingleListEvents(ul: ListNode)
    ensures DocumentEvents([ul]) == if SkipList(ul) then [] else Flatten(ReadList(ul).contributions)
  {
    var rs := ReadPage([ul]);
    assert rs[0] == ReadList(ul) && rs[1..] == [];
    assert Events(rs) == Own(rs[0]) + Events(rs[1..]);
  }

  lemma SkippedReadingIgnored(a: seq<Reading>, x: Reading, c: seq<Reading>)
    requires x.skipped
    ensures Events(a + [x] + c) == Events(a + c)
  {
    calc {
      Events(a + [x] + c);
    == { EventsAppend(a + [x], c); }
      Events(a + [x]) + Events(c);
    == { EventsAppend(a, [x]); SkippedReadingEmpty(x); }
      Events(a) + Events(c);
    == { EventsAppend(a, c); }
      Events(a + c);
    }
  }

  lemma SkippedReadingEmpty(x: Reading)
    requires x.skipped
    ensures Events([x]) == []
  {
    assert [x][1..] == [];
  }

  /** The list filter: a list whose text contains "Toggle" or "Contents", or is
      shorter than 100 characters, contributes nothing wherever it stands. */
  lemma SkippedListIgnored(before: seq<ListNode>, ul: ListNode, after: seq<ListNode>)
    requires SkipList(ul)
    ensures ParseEvents(before + [ul] + after) == ParseEvents(before + after)
  {
    ReadPageAppend(before + [ul], after);
    ReadPageAppend(before, [ul]);
    ReadPageAppend(before, after);
    assert ReadPage([ul]) == [ReadList(ul)];
    SkippedReadingIgnored(ReadPage(before), ReadList(ul), ReadPage(after));
    SameEventsSameBuckets(before + [ul] + after, before + after);
  }

  /** Any other list contributes, month by month, the events of its items. */
  lemma KeptListContributes(ul: ListNode)
    requires !SkipList(ul)
    ensures forall m :: 0 <= m < 12 ==>
              ParseEvents([ul])[m].events == InMonth(Flatten(ReadList(ul).contributions), m)
  {
    SingleListEvents(ul);
  }
}
