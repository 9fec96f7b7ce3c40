/**
 * `NewsProcessor`: keyword categorisation, title de-duplication, the summary
 * used when no language model is available, and grouping by month.
 */
module NewsProcessor {
  import opened Text
  import opened Seqs
  import opened Sorting
  import opened Dedup
  import opened Articles
  import Clean

  datatype Category = Category(name: string, keywords: seq<string>)

  /** The categories in the order the source lists them. */
  const Categories: seq<Category> := [
    Category("Politics", ["election", "vote", "parliament", "congress", "president", "minister", "government", "political", "democrat", "republican", "party"]),
    Category("Geopolitics", ["sanctions", "diplomacy", "summit", "nato", "un", "treaty", "alliance", "conflict", "tension"]),
    Category("Elections", ["election", "ballot", "voting", "campaign", "candidate", "polls", "primary", "electoral"]),
    Category("Policy Changes", ["policy", "reform", "legislation", "regulation", "law", "bill", "act", "amendment"]),
    Category("International Relations", ["bilateral", "multilateral", "foreign", "ambassador", "embassy", "diplomatic", "international"]),
    Category("Economic Policy", ["economy", "inflation", "gdp", "budget", "fiscal", "monetary", "tax", "trade", "tariff"]),
    Category("Climate & Environment", ["climate", "carbon", "emissions", "renewable", "sustainability", "environment", "cop28", "green"]),
    Category("Technology & AI", ["artificial intelligence", "ai", "technology", "tech", "digital", "cyber", "data", "algorithm"]),
    Category("Military & Defense", ["military", "defense", "weapon", "army", "navy", "air force", "nato", "pentagon"]),
    Category("Social Movements", ["protest", "movement", "activism", "rights", "equality", "justice", "demonstration"]),
    Category("Legal & Courts", ["court", "judge", "legal", "lawsuit", "ruling", "verdict", "justice", "constitutional"]),
    Category("Public Health", ["health", "pandemic", "vaccine", "disease", "healthcare", "medical", "hospital", "covid"])
  ]

  const MaxTags: nat := 3

  /** The text searched for keywords: title, description and content joined by
      spaces, lower-cased; that is, the three lower-cased fields, each in its
      place. */
  function SearchText(a: Article): (r: string)
    ensures r == Lower(a.title) + " " + Lower(a.description) + " " + Lower(a.content)
  {
    var text := a.title + " " + a.description + " " + a.content;
    LowerAppend(a.title + " " + a.description + " ", a.content);
    LowerAppend(a.title + " " + a.description, " ");
    LowerAppend(a.title + " ", a.description);
    LowerAppend(a.title, " ");
    Lower(text)
  }

  /** `any(keyword in text for keyword in keywords)`. */
  function AnyContained(text: string, keywords: seq<string>): (b: bool)
    ensures b <==> exists k :: 0 <= k < |keywords| && Contains(text, keywords[k])
  {
    if |keywords| == 0 then false
    else Contains(text, keywords[0]) || AnyContained(text, keywords[1..])
  }

  /** The positions, at or after `i`, of the categories with a keyword in `text`. */
  function MatchedFrom(text: string, i: nat): (r: seq<nat>)
    requires i <= |Categories|
    ensures StrictlyIncreasing(r)
    ensures forall k :: 0 <= k < |r| ==> i <= r[k] < |Categories| && AnyContained(text, Categories[r[k]].keywords)
    decreases |Categories| - i
  {
    if i == |Categories| then []
    else if AnyContained(text, Categories[i].keywords) then [i] + MatchedFrom(text, i + 1)
    else MatchedFrom(text, i + 1)
  }

  /** No matching category is missed. */
  lemma {:induction false} MatchedComplete(text: string, i: nat, j: nat)
    requires i <= j < |Categories| && AnyContained(text, Categories[j].keywords)
    ensures j in MatchedFrom(text, i)
    decreases |Categories| - i
  {
    if i < j {
      MatchedComplete(text, i + 1, j);
    }
  }

  lemma CategoryNamesDistinct()
    ensures forall i, j :: 0 <= i < j < |Categories| ==> Categories[i].name != Categories[j].name
  {
  }

  /** `categorize_article`: the names of the first three matching categories in
      list order; with no match, "Politics" for articles filed under "politics"
      or "world" and nothing otherwise. No tag repeats. */
  function Categorize(a: Article): (tags: seq<string>)
    ensures |tags| <= MaxTags
    ensures var hits := MatchedFrom(SearchText(a), 0);
            && (|hits| > 0 ==> |tags| == (if |hits| < MaxTags then |hits| else MaxTags)
                                && forall k :: 0 <= k < |tags| ==> tags[k] == Categories[hits[k]].name)
            && (|hits| == 0 ==> tags == if a.category == "politics" || a.category == "world" then ["Politics"] else [])
    ensures forall i, j :: 0 <= i < j < |tags| ==> tags[i] != tags[j]
  {
    var hits := MatchedFrom(SearchText(a), 0);
    var names := seq(|hits|, k requires 0 <= k < |hits| => Categories[hits[k]].name);
    var found := if |names| == 0 && (a.category == "politics" || a.category == "world") then ["Politics"] else names;
    CategoryNamesDistinct();
    found[..if |found| < MaxTags then |found| else MaxTags]
  }

  /** The characters `[a-z0-9]` that the title key keeps. */
  predicate IsKeyChar(c: char) {
    'a' <= c <= 'z' || IsDigit(c)
  }

  /** `re.sub(r'[^a-z0-9]', '', title.lower())`: only key characters, no
      longer than the title (`NormalizeTitleFilter`: exactly the key characters
      of the lower-cased title, in order and each as often as there). */
  function NormalizeTitle(title: string): (r: string)
    ensures forall i :: 0 <= i < |r| ==> IsKeyChar(r[i])
    ensures |r| <= |title|
  {
    if |title| == 0 then ""
    else
      var c := LowerChar(title[0]);
      (if IsKeyChar(c) then [c] else []) + NormalizeTitle(title[1..])
  }

  /** The key is the lower-cased title with every character that is not a
      key character left out. */
  lemma {:induction false} NormalizeTitleFilter(title: string)
    ensures FilterOf(NormalizeTitle(title), Lower(title), IsKeyChar)
    decreases |title|
  {
    if |title| == 0 {
      assert Lower(title) == [];
    } else {
      NormalizeTitleFilter(title[1..]);
      NormalizeTitleFilterStep(title);
    }
  }

  lemma NormalizeTitleFilterStep(title: string)
    requires |title| > 0
    requires FilterOf(NormalizeTitle(title[1..]), Lower(title[1..]), IsKeyChar)
    ensures FilterOf(NormalizeTitle(title), Lower(title), IsKeyChar)
  {
    var c := LowerChar(title[0]);
    LowerCons(title);
    FilterCons(c, NormalizeTitle(title[1..]), Lower(title[1..]), IsKeyChar, NormalizeTitle(title), Lower(title));
  }

  /** The key characters one character contributes. */
  function KeyPart(c: char): string {
    if IsKeyChar(LowerChar(c)) then [LowerChar(c)] else []
  }

  /** The key of a concatenation is the concatenation of the keys. */
  lemma {:induction false} NormalizeAppend(a: string, b: string)
    ensures NormalizeTitle(a + b) == NormalizeTitle(a) + NormalizeTitle(b)
    decreases |a|
  {
    var s := a + b;
    if |a| > 0 {
      assert s[0] == a[0] && s[1..] == a[1..] + b;
      assert NormalizeTitle(s) == KeyPart(a[0]) + NormalizeTitle(a[1..] + b);
      assert NormalizeTitle(a) == KeyPart(a[0]) + NormalizeTitle(a[1..]);
      NormalizeAppend(a[1..], b);
    } else {
      assert s == b;
    }
  }

  /** Appending one character appends its lower-cased form exactly when that is
      a key character. */
  lemma NormalizeSnoc(a: string, c: char)
    ensures NormalizeTitle(a + [c]) == NormalizeTitle(a) + KeyPart(c)
  {
    NormalizeAppend(a, [c]);
    assert NormalizeTitle([c]) == KeyPart(c) + NormalizeTitle([]);
  }

  /** Case, spaces and punctuation do not affect the key. */
  lemma NormalizeIgnores(a: string, c: char, b: string)
    requires !IsKeyChar(LowerChar(c))
    ensures NormalizeTitle(a + [c] + b) == NormalizeTitle(a + b)
  {
    NormalizeAppend(a + [c], b);
    NormalizeSnoc(a, c);
    NormalizeAppend(a, b);
  }

  function TitleKey(a: Article): string {
    NormalizeTitle(a.title)
  }

  predicate AnyArticle(a: Article) {
    true
  }

  /** `deduplicate_articles`: the first article of each normalised title, in
      input order. */
  function DeduplicateArticles(articles: seq<Article>): (r: seq<Article>)
    ensures Subsequence(r, articles)
    ensures DistinctKeys(r, TitleKey)
    ensures KeySet(r, TitleKey) == KeySet(articles, TitleKey)
    ensures AllFirstOfKey(r, articles, TitleKey, AnyArticle)
  {
    UniqueByKeepsFirst({}, articles, TitleKey, AnyArticle);
    var r := UniqueBy({}, articles, TitleKey, AnyArticle);
    assert KeptKeys(articles, TitleKey, AnyArticle) == KeySet(articles, TitleKey);
    r
  }

  lemma DeduplicateIdempotent(articles: seq<Article>)
    ensures DeduplicateArticles(DeduplicateArticles(articles)) == DeduplicateArticles(articles)
  {
    UniqueByIdempotent(articles, TitleKey, AnyArticle);
  }

  /** The first index at or after `i` holding `>`, or `|s|` when there is none. */
  function NextClose(s: string, i: nat): (j: nat)
    requires i <= |s|
    ensures i <= j <= |s|
    ensures forall k :: i <= k < j ==> s[k] != '>'
    ensures j < |s| ==> s[j] == '>'
    decreases |s| - i
  {
    if i == |s| || s[i] == '>' then i else NextClose(s, i + 1)
  }

  /** The first `n` characters of `s` match `<[^>]+>`. */
  predicate TagAt(s: string, n: int) {
    && 3 <= n <= |s| && s[0] == '<' && s[n - 1] == '>'
    && forall j :: 1 <= j < n - 1 ==> s[j] != '>'
  }

  /** Length of the match of `<[^>]+>` at the start of `s`, or 0 when the
      pattern does not match there. */
  function TagLength(s: string): (n: nat)
    ensures n > 0 ==> TagAt(s, n)
    ensures n == 0 ==> forall k :: !TagAt(s, k)
  {
    if |s| > 0 && s[0] == '<' then
      var j := NextClose(s, 1);
      if 1 < j < |s| then j + 1 else 0
    else 0
  }

  /** `re.sub(r'<[^>]+>', '', s)`: matches are removed left to right without
      overlap, so the result is never longer. What is kept is stated by
      `StripTagsNoOpen`, `StripTagsChars`, `StripTagsKeepsPrefix`,
      `StripTagsDropsTag` and `StripTagsKeepsBracket`. */
  function StripTags(s: string): (r: string)
    ensures |r| <= |s|
    decreases |s|
  {
    if |s| == 0 then ""
    else if TagLength(s) > 0 then StripTags(s[TagLength(s)..])
    else [s[0]] + StripTags(s[1..])
  }

  /** No `<` is followed, later, by a `>` unless the very next character is one:
      exactly the texts in which `<[^>]+>` matches nowhere. */
  predicate TagFree(s: string) {
    forall i, j :: 0 <= i < j < |s| && s[i] == '<' && s[j] == '>' ==> s[i + 1] == '>'
  }

  lemma TagFreeHasNoTag(s: string, i: nat, n: int)
    requires TagFree(s) && i <= |s|
    ensures !TagAt(s[i..], n)
  {
    if 3 <= n <= |s| - i && s[i] == '<' && s[i + n - 1] == '>' {
      assert s[i + 1] == '>';
    }
  }

  /** Putting one character in front of tag-free text keeps it tag-free when
      the character cannot open a tag there. */
  lemma ConsTagFree(c: char, rest: string)
    requires TagFree(rest)
    requires c == '<' ==> '>' !in rest || (|rest| > 0 && rest[0] == '>')
    ensures TagFree([c] + rest)
  {
    var r := [c] + rest;
    forall i, j | 0 <= i < j < |r| && r[i] == '<' && r[j] == '>' ensures r[i + 1] == '>' {
      if i == 0 {
        assert rest[j - 1] == '>';
      } else {
        assert rest[i - 1] == '<' && rest[j - 1] == '>';
      }
    }
  }

  /** Text before the first `<` is kept as it is. */
  lemma {:induction false} StripTagsKeepsPrefix(a: string, b: string)
    requires '<' !in a
    ensures StripTags(a + b) == a + StripTags(b)
    decreases |a|
  {
    if |a| > 0 {
      var s := a + b;
      assert StripTags(s) == [a[0]] + StripTags(a[1..] + b) by {
        assert a[0] in a;
        assert s[0] == a[0] && s[1..] == a[1..] + b;
        assert TagLength(s) == 0;
        StripTagsKeepsHead(s);
      }
      assert StripTags(a[1..] + b) == a[1..] + StripTags(b) by {
        assert '<' !in a[1..] by {
          forall x | x in a[1..] ensures x in a { }
        }
        StripTagsKeepsPrefix(a[1..], b);
      }
      assert [a[0]] + (a[1..] + StripTags(b)) == a + StripTags(b) by {
        assert a == [a[0]] + a[1..];
      }
    } else {
      assert a + b == b;
    }
  }

  /** A whole tag is the match at its start, whatever follows it. */
  lemma TagLengthOf(t: string, b: string)
    requires TagAt(t, |t|)
    ensures TagLength(t + b) == |t|
  {
    var s := t + b;
    var j := NextClose(s, 1);
    assert s[|t| - 1] == '>';
    assert forall k :: 1 <= k < |t| - 1 ==> s[k] == t[k];
    assert j == |t| - 1;
  }

  /** A tag is removed, and removal goes on after it. */
  lemma StripTagsDropsTag(a: string, t: string, b: string)
    requires '<' !in a && TagAt(t, |t|)
    ensures StripTags(a + t + b) == a + StripTags(b)
  {
    StripTagsKeepsPrefix(a, t + b);
    TagLengthOf(t, b);
    assert (t + b)[|t|..] == b;
    assert a + t + b == a + (t + b);
  }

  /** A `<` that opens no tag is kept, and removal goes on after it. */
  lemma StripTagsKeepsBracket(a: string, b: string)
    requires '<' !in a && forall k :: !TagAt("<" + b, k)
    ensures StripTags(a + "<" + b) == a + "<" + StripTags(b)
  {
    StripTagsKeepsPrefix(a, "<" + b);
    var t := "<" + b;
    assert !TagAt(t, TagLength(t));
    assert StripTags(t) == [t[0]] + StripTags(t[1..]);
    assert t[1..] == b;
    assert a + "<" + b == a + ("<" + b);
  }

  /** A character that opens no tag is kept. */
  lemma StripTagsKeepsHead(s: string)
    requires |s| > 0 && TagLength(s) == 0
    ensures StripTags(s) == [s[0]] + StripTags(s[1..])
  {
  }

  /** Text without `<` is left unchanged. */
  lemma StripTagsNoOpen(s: string)
    requires '<' !in s
    ensures StripTags(s) == s
  {
    StripTagsKeepsPrefix(s, "");
    assert s + "" == s;
  }

  /** Removal adds no character the text lacks. */
  lemma {:induction false} StripTagsChars(s: string)
    ensures forall c :: c in StripTags(s) ==> c in s
    decreases |s|
  {
    if |s| > 0 {
      var n := TagLength(s);
      if n > 0 {
        StripTagsChars(s[n..]);
        forall c | c in s[n..] ensures c in s { }
      } else {
        StripTagsChars(s[1..]);
        StripTagsKeepsHead(s);
        forall c | c in s[1..] ensures c in s { }
      }
    }
  }

  /** What StripTags leaves contains no tag. */
  lemma {:induction false} StripTagsTagFree(s: string)
    ensures TagFree(StripTags(s))
    decreases |s|
  {
    if |s| == 0 {
    } else if TagLength(s) > 0 {
      StripTagsTagFree(s[TagLength(s)..]);
    } else {
      var t := s[1..];
      StripTagsTagFree(t);
      StripTagsKeepsHead(s);
      if s[0] == '<' {
        var j := NextClose(s, 1);
        if j == |s| {
          assert '>' !in t;
          StripTagsChars(t);
        } else {
          assert t[0] == '>';
          StripTagsKeepsHead(t);
        }
      }
      ConsTagFree(s[0], StripTags(t));
    }
  }

  /** Text without tags passes through unchanged. */
  lemma {:induction false} StripTagsFixesTagFree(s: string)
    requires TagFree(s)
    ensures StripTags(s) == s
    decreases |s|
  {
    if |s| > 0 {
      TagFreeHasNoTag(s, 0, TagLength(s));
      assert s[0..] == s;
      assert TagFree(s[1..]) by {
        var t := s[1..];
        forall i, j | 0 <= i < j < |t| && t[i] == '<' && t[j] == '>' ensures t[i + 1] == '>' {
          assert s[i + 1] == '<' && s[j + 1] == '>';
        }
      }
      StripTagsFixesTagFree(s[1..]);
    }
  }

  lemma StripTagsIdempotent(s: string)
    ensures StripTags(StripTags(s)) == StripTags(s)
  {
    StripTagsTagFree(s);
    StripTagsFixesTagFree(StripTags(s));
  }

  /** The description after tag removal, whitespace collapsing and stripping. */
  function CleanDescription(description: string): (d: string)
    ensures Normalized(d)
    ensures d == Join(Words(StripTags(description)), " ")
    ensures NonSpace(d) == NonSpace(StripTags(description))
  {
    var collapsed := CollapseSpaces(StripTags(description));
    StripCollapse(StripTags(description));
    Strip(collapsed)
  }

  const SummaryLimit: nat := 200
  const SentenceBreak: string := ". "

  /** `'. '.join(d.split('. ')[:2])`: the text up to the second sentence break. */
  function LeadSentences(d: string): (p: string)
    ensures StartsWith(d, p)
    ensures |Split(d, SentenceBreak)| <= 2 ==> p == d
  {
    var parts := Split(d, SentenceBreak);
    var k := if |parts| < 2 then |parts| else 2;
    JoinSplit(d, SentenceBreak);
    JoinPrefix(parts, k, SentenceBreak);
    assert k == |parts| ==> parts[..k] == parts;
    Join(parts[..k], SentenceBreak)
  }

  /** Where the second sentence break of `d` starts, or `|d|` when it has
      fewer than two. */
  function SecondBreak(d: string): (j: nat)
    ensures j <= |d|
    ensures j < |d| ==> OccursAt(d, SentenceBreak, j)
    ensures j < |d| ==> exists i :: i + |SentenceBreak| <= j && OccursAt(d, SentenceBreak, i)
    ensures (exists i, k :: i + |SentenceBreak| <= k && OccursAt(d, SentenceBreak, i) && OccursAt(d, SentenceBreak, k)) ==> j < |d|
  {
    match Find(d, SentenceBreak)
    case None => |d|
    case Some(i) =>
      match Find(d[i + 2..], SentenceBreak)
      case None =>
        NoSecondBreak(d, i);
        |d|
      case Some(k) =>
        OccursShift(d[..i + 2], d[i + 2..], SentenceBreak, k);
        assert d[..i + 2] + d[i + 2..] == d;
        i + 2 + k
  }

  /** With the first break at `i` and none after it, no two breaks are apart. */
  lemma NoSecondBreak(d: string, i: nat)
    requires OccursAt(d, SentenceBreak, i)
    requires forall j :: 0 <= j < i ==> !OccursAt(d, SentenceBreak, j)
    requires i + 2 <= |d| && Find(d[i + 2..], SentenceBreak).None?
    ensures !exists p, q :: p + |SentenceBreak| <= q && OccursAt(d, SentenceBreak, p) && OccursAt(d, SentenceBreak, q)
  {
    forall p, q | p + |SentenceBreak| <= q && OccursAt(d, SentenceBreak, p)
      ensures !OccursAt(d, SentenceBreak, q)
    {
      assert i <= p;
      if q + 2 <= |d| {
        assert d[i + 2..][q - i - 2..q - i] == d[q..q + 2];
        assert !OccursAt(d[i + 2..], SentenceBreak, q - i - 2);
      }
    }
  }

  /** The lead is the description cut just before its second sentence break. */
  lemma LeadSentencesCut(d: string)
    ensures LeadSentences(d) == d[..SecondBreak(d)]
  {
    match Find(d, SentenceBreak)
    case None =>
      assert Split(d, SentenceBreak) == [d];
    case Some(i) =>
      match Find(d[i + 2..], SentenceBreak)
      case None =>
        LeadOneBreak(d, i);
      case Some(k) =>
        LeadTwoBreaks(d, i, k);
  }

  lemma LeadOneBreak(d: string, i: nat)
    requires Find(d, SentenceBreak).Some? && Find(d, SentenceBreak).value == i
    requires Find(d[i + 2..], SentenceBreak).None?
    ensures LeadSentences(d) == d[..SecondBreak(d)]
  {
    assert Split(d, SentenceBreak) == [d[..i], d[i + 2..]] by {
      SplitFirst(d, i);
      assert Split(d[i + 2..], SentenceBreak) == [d[i + 2..]];
    }
  }

  lemma LeadTwoBreaks(d: string, i: nat, k: nat)
    requires Find(d, SentenceBreak).Some? && Find(d, SentenceBreak).value == i
    requires Find(d[i + 2..], SentenceBreak).Some? && Find(d[i + 2..], SentenceBreak).value == k
    ensures LeadSentences(d) == d[..SecondBreak(d)]
  {
    var rest := d[i + 2..];
    assert LeadSentences(d) == Join([d[..i], rest[..k]], SentenceBreak) by {
      SplitFirst(d, i);
      SplitFirst(rest, k);
      LeadSentencesTwo(d, [d[..i], rest[..k]]);
    }
    assert Join([d[..i], rest[..k]], SentenceBreak) == d[..i] + SentenceBreak + rest[..k] by {
      JoinCons(d[..i], [rest[..k]], SentenceBreak);
    }
    assert d[..i + 2 + k] == d[..i] + SentenceBreak + rest[..k] by {
      assert d[i..i + 2] == SentenceBreak;
      assert rest[..k] == d[i + 2..i + 2 + k];
      assert d[..i + 2 + k] == d[..i] + d[i..i + 2] + d[i + 2..i + 2 + k];
    }
  }

  /** Splitting at the first break gives the text before it, then the split of
      the text after it. */
  lemma SplitFirst(d: string, i: nat)
    requires Find(d, SentenceBreak).Some? && Find(d, SentenceBreak).value == i
    ensures Split(d, SentenceBreak) == [d[..i]] + Split(d[i + 2..], SentenceBreak)
  {
  }

  /** With at least two pieces, the lead joins the first two. */
  lemma LeadSentencesTwo(d: string, two: seq<string>)
    requires |Split(d, SentenceBreak)| >= 2 && Split(d, SentenceBreak)[..2] == two
    ensures LeadSentences(d) == Join(two, SentenceBreak)
  {
  }

  function PublishedNote(dateText: string): string {
    " (Published: " + dateText + ")"
  }

  /** `summarize_article_fallback`, given the publication date already formatted
      as `%B %d, %Y`: the cleaned description when it has at most 200
      characters, otherwise its first two sentences and a period; then the
      publication note. */
  function FallbackSummary(description: string, dateText: string): (r: string)
    ensures var d := CleanDescription(description);
            var note := PublishedNote(dateText);
            && |note| <= |r| && r[|r| - |note|..] == note
            && var summary := r[..|r| - |note|];
               && (|d| <= SummaryLimit ==> summary == d)
               && (|d| > SummaryLimit ==> summary == d[..SecondBreak(d)] + ".")
  {
    var d := CleanDescription(description);
    LeadSentencesCut(d);
    var summary := if |d| > SummaryLimit then LeadSentences(d) + "." else d;
    var r := summary + PublishedNote(dateText);
    assert r[..|r| - |PublishedNote(dateText)|] == summary;
    r
  }

  /** A calendar month; the source keys groups by the label `%B %Y`, which
      names each (year, month) pair with exactly one string. */
  datatype YearMonth = YearMonth(year: int, month: int)

  function MonthOf(a: Article): YearMonth {
    YearMonth(a.published.year, a.published.month)
  }

  predicate MonthBefore(m: YearMonth, n: YearMonth) {
    m.year < n.year || (m.year == n.year && m.month < n.month)
  }

  datatype MonthGroup = MonthGroup(month: YearMonth, articles: seq<Article>)

  /** The articles of month `m`, in input order: the reference for a group. */
  function Select(articles: seq<Article>, m: YearMonth): seq<Article> {
    if |articles| == 0 then []
    else
      var last := articles[|articles| - 1];
      Select(articles[..|articles| - 1], m) + (if MonthOf(last) == m then [last] else [])
  }

  lemma SelectAppend(articles: seq<Article>, a: Article, m: YearMonth)
    ensures Select(articles + [a], m) == Select(articles, m) + (if MonthOf(a) == m then [a] else [])
  {
    assert (articles + [a])[..|articles|] == articles;
  }

  ghost predicate DistinctMonths(groups: seq<MonthGroup>) {
    forall i, j :: 0 <= i < j < |groups| ==> groups[i].month != groups[j].month
  }

  ghost function GroupMonths(groups: seq<MonthGroup>): set<YearMonth> {
    set g | g in groups :: g.month
  }

  ghost function ArticleMonths(articles: seq<Article>): set<YearMonth> {
    set a | a in articles :: MonthOf(a)
  }

  /** `grouped[label].append(article)` on groups kept in first-appearance order;
      like the keys of a dictionary, the months of the groups are distinct. */
  function AddArticle(groups: seq<MonthGroup>, a: Article): (r: seq<MonthGroup>)
    requires DistinctMonths(groups)
    ensures |groups| <= |r| <= |groups| + 1
    ensures forall i :: 0 <= i < |groups| ==>
              r[i] == (if groups[i].month == MonthOf(a) then MonthGroup(groups[i].month, groups[i].articles + [a]) else groups[i])
    ensures |r| == |groups| + 1 <==> forall i :: 0 <= i < |groups| ==> groups[i].month != MonthOf(a)
    ensures |r| == |groups| + 1 ==> r[|groups|] == MonthGroup(MonthOf(a), [a])
  {
    if |groups| == 0 then [MonthGroup(MonthOf(a), [a])]
    else if groups[0].month == MonthOf(a) then
      [MonthGroup(groups[0].month, groups[0].articles + [a])] + groups[1..]
    else [groups[0]] + AddArticle(groups[1..], a)
  }

  function Collect(articles: seq<Article>): (r: seq<MonthGroup>)
    ensures DistinctMonths(r)
    ensures GroupMonths(r) == ArticleMonths(articles)
  {
    if |articles| == 0 then []
    else
      var init := articles[..|articles| - 1];
      var a := articles[|articles| - 1];
      var prev := Collect(init);
      assert init + [a] == articles;
      ArticleMonthsAppend(init, a);
      AddArticleMonths(prev, a);
      AddArticle(prev, a)
  }

  lemma ArticleMonthsAppend(articles: seq<Article>, a: Article)
    ensures ArticleMonths(articles + [a]) == ArticleMonths(articles) + {MonthOf(a)}
  {
    var all := articles + [a];
    forall b | b in all ensures MonthOf(b) in ArticleMonths(articles) + {MonthOf(a)} {
      var i :| 0 <= i < |all| && all[i] == b;
      if i < |articles| {
        assert articles[i] in articles;
      }
    }
    forall b | b in articles ensures MonthOf(b) in ArticleMonths(all) {
      var i :| 0 <= i < |articles| && articles[i] == b;
      assert all[i] in all;
    }
    assert all[|articles|] in all;
  }

  lemma AddArticleMonths(groups: seq<MonthGroup>, a: Article)
    requires DistinctMonths(groups)
    ensures DistinctMonths(AddArticle(groups, a))
    ensures GroupMonths(AddArticle(groups, a)) == GroupMonths(groups) + {MonthOf(a)}
  {
    var r := AddArticle(groups, a);
    AddArticleDistinct(groups, a);
    forall g | g in r ensures g.month in GroupMonths(groups) + {MonthOf(a)} {
      var i :| 0 <= i < |r| && r[i] == g;
      if i < |groups| {
        assert groups[i] in groups;
      }
    }
    forall g | g in groups ensures g.month in GroupMonths(r) {
      var i :| 0 <= i < |groups| && groups[i] == g;
      assert r[i] in r;
    }
    if |r| == |groups| {
      var k :| 0 <= k < |groups| && groups[k].month == MonthOf(a);
      assert r[k] in r;
    } else {
      assert r[|groups|] in r;
    }
  }

  lemma AddArticleDistinct(groups: seq<MonthGroup>, a: Article)
    requires DistinctMonths(groups)
    ensures DistinctMonths(AddArticle(groups, a))
  {
    var r := AddArticle(groups, a);
    assert forall i :: 0 <= i < |groups| ==> r[i].month == groups[i].month;
  }

  /** `groups` holds one non-empty group per month of `articles`, each with
      exactly that month's articles in input order. */
  ghost predicate GroupsOf(groups: seq<MonthGroup>, articles: seq<Article>) {
    && DistinctMonths(groups)
    && (forall g :: g in groups ==> |g.articles| > 0 && g.articles == Select(articles, g.month))
    && GroupMonths(groups) == ArticleMonths(articles)
  }

  lemma {:induction false} SelectAbsent(articles: seq<Article>, m: YearMonth)
    requires m !in ArticleMonths(articles)
    ensures Select(articles, m) == []
    decreases |articles|
  {
    if |articles| > 0 {
      var init := articles[..|articles| - 1];
      assert ArticleMonths(init) <= ArticleMonths(articles);
      SelectAbsent(init, m);
      assert articles[|articles| - 1] in articles;
    }
  }

  lemma AddArticleGroups(groups: seq<MonthGroup>, articles: seq<Article>, a: Article)
    requires GroupsOf(groups, articles)
    ensures GroupsOf(AddArticle(groups, a), articles + [a])
  {
    var r := AddArticle(groups, a);
    var all := articles + [a];
    AddArticleMonths(groups, a);
    forall g | g in r ensures |g.articles| > 0 && g.articles == Select(all, g.month) {
      var i :| 0 <= i < |r| && r[i] == g;
      AddArticleGroupAt(groups, articles, a, i);
    }
    ArticleMonthsAppend(articles, a);
  }

  /** The group at position `i` after adding `a` holds its month's articles. */
  lemma AddArticleGroupAt(groups: seq<MonthGroup>, articles: seq<Article>, a: Article, i: nat)
    requires GroupsOf(groups, articles)
    requires i < |AddArticle(groups, a)|
    ensures var g := AddArticle(groups, a)[i];
            |g.articles| > 0 && g.articles == Select(articles + [a], g.month)
  {
    var g := AddArticle(groups, a)[i];
    SelectAppend(articles, a, g.month);
    if i < |groups| {
      assert groups[i] in groups;
    } else {
      assert MonthOf(a) !in GroupMonths(groups);
      SelectAbsent(articles, MonthOf(a));
    }
  }

  lemma {:induction false} CollectGroups(articles: seq<Article>)
    ensures GroupsOf(Collect(articles), articles)
    decreases |articles|
  {
    if |articles| > 0 {
      var init := articles[..|articles| - 1];
      CollectGroups(init);
      AddArticleGroups(Collect(init), init, articles[|articles| - 1]);
      assert init + [articles[|articles| - 1]] == articles;
    }
  }

  /** Later months first. */
  predicate NewerOrSame(g: MonthGroup, h: MonthGroup) {
    !MonthBefore(g.month, h.month)
  }

  /** `group_by_month`: one group per month that has articles, most recent
      month first, each group holding that month's articles in input order. */
  function GroupByMonth(articles: seq<Article>): (r: seq<MonthGroup>)
    ensures forall i, j :: 0 <= i < j < |r| ==> MonthBefore(r[j].month, r[i].month)
    ensures forall g :: g in r ==> |g.articles| > 0 && g.articles == Select(articles, g.month)
    ensures GroupMonths(r) == ArticleMonths(articles)
  {
    var groups := Collect(articles);
    CollectGroups(articles);
    assert TotalPreorder(NewerOrSame);
    var r := Sort(groups, NewerOrSame);
    SortedGroups(groups, r, articles);
    r
  }

  function MonthKey(g: MonthGroup): YearMonth {
    g.month
  }

  /** Reordering the groups newest first keeps them the groups of the articles,
      and, their months being distinct, orders the months strictly. */
  lemma SortedGroups(groups: seq<MonthGroup>, r: seq<MonthGroup>, articles: seq<Article>)
    requires GroupsOf(groups, articles)
    requires SortedBy(r, NewerOrSame) && multiset(r) == multiset(groups)
    ensures GroupsOf(r, articles)
    ensures forall i, j :: 0 <= i < j < |r| ==> MonthBefore(r[j].month, r[i].month)
  {
    forall g ensures g in r <==> g in groups {
      assert g in r <==> g in multiset(r);
      assert g in groups <==> g in multiset(groups);
    }
    assert DistinctKeys(groups, MonthKey);
    PermutationKeepsDistinct(r, groups, MonthKey);
    forall i, j | 0 <= i < j < |r| ensures MonthBefore(r[j].month, r[i].month) {
      assert MonthKey(r[i]) != MonthKey(r[j]);
      assert NewerOrSame(r[i], r[j]);
    }
    assert GroupMonths(r) == GroupMonths(groups);
  }

  lemma {:induction false} SelectMembers(articles: seq<Article>, m: YearMonth)
    ensures forall b :: b in Select(articles, m) ==> b in articles && MonthOf(b) == m
    decreases |articles|
  {
    if |articles| > 0 {
      var init := articles[..|articles| - 1];
      SelectMembers(init, m);
      assert forall b :: b in init ==> b in articles;
    }
  }

  lemma {:induction false} SelectContains(articles: seq<Article>, a: Article)
    requires a in articles
    ensures a in Select(articles, MonthOf(a))
    decreases |articles|
  {
    var init := articles[..|articles| - 1];
    if a != articles[|articles| - 1] {
      assert articles == init + [articles[|articles| - 1]];
      SelectContains(init, a);
    }
  }

  /** Every article lands in the group of its own month and in no other. */
  lemma ArticleInItsGroup(articles: seq<Article>, a: Article)
    requires a in articles
    ensures exists g :: g in GroupByMonth(articles) && g.month == MonthOf(a) && a in g.articles
    ensures forall g :: g in GroupByMonth(articles) && a in g.articles ==> g.month == MonthOf(a)
  {
    var r := GroupByMonth(articles);
    forall g | g in r && a in g.articles ensures g.month == MonthOf(a) {
      SelectMembers(articles, g.month);
    }
    assert MonthOf(a) in ArticleMonths(articles);
    var g :| g in r && g.month == MonthOf(a);
    SelectContains(articles, a);
  }
}
