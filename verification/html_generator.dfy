/**
 * `HTMLGenerator`: the page of month sections under a token budget. The
 * article markup itself (`format_article`) is a parameter `render`; the static
 * header, introduction and footer are a parameter `frame`.
 */
module HtmlGenerator {
  import opened Text
  import opened Seqs
  import opened Articles

  const MaxOutputTokens: nat := 5000

  /** `estimate_tokens`: one token per four characters, rounded down. */
  function EstimateTokens(text: string): (n: nat)
    ensures 4 * n <= |text| < 4 * n + 4
  {
    |text| / 4
  }

  /** `month.replace(" ", "_").lower()`. */
  function Anchor(month: string): (r: string)
    ensures |r| == |month|
    ensures forall i :: 0 <= i < |r| ==> r[i] == LowerChar(if month[i] == ' ' then '_' else month[i])
    ensures ' ' !in r
  {
    ReplaceCharPointwise(month, ' ', '_');
    Lower(ReplaceChar(month, ' ', "_"))
  }

  /** The attribute `href="#anchor"` of a contents link. */
  function HrefAttr(anchor: string): string {
    "href=\"#" + anchor + "\""
  }

  /** The attribute `id="anchor"` of a section heading. */
  function IdAttr(anchor: string): string {
    "id=\"" + anchor + "\""
  }

  /** The table-of-contents line of one month: the link to its anchor, the
      month label and the number of stories. */
  function TocEntry(month: string, count: nat): string {
    TocLinkOpen() + HrefAttr(Anchor(month)) + TocEntryRest(month, count)
  }

  function TocLinkOpen(): string {
    "            <li><a "
  }

  function TocEntryRest(month: string, count: nat): string {
    ">" + month + "</a> (" + NatToString(count) + " stories)</li>\n"
  }

  /** The heading that opens a month section. */
  function SectionHeading(month: string): string {
    HeadingOpen() + IdAttr(Anchor(month)) + HeadingRest(month)
  }

  function HeadingOpen(): string {
    "\n    <h2 "
  }

  function HeadingRest(month: string): string {
    ">" + month + "</h2>\n"
  }

  const TruncationNotice: string :=
    "\n        <div class=\"article\">\n            <em>Additional articles truncated to stay within token limit...</em>\n        </div>\n"

  /** What ends a section: the notice when articles were cut, nothing otherwise. */
  function Closing(truncated: bool): string {
    if truncated then TruncationNotice else ""
  }

  function Concat(parts: seq<string>): string {
    if |parts| == 0 then "" else parts[0] + Concat(parts[1..])
  }

  /** The estimated tokens of all `parts`. */
  function TokensOf(parts: seq<string>): nat {
    if |parts| == 0 then 0 else EstimateTokens(parts[0]) + TokensOf(parts[1..])
  }

  /** The result of filling a month's articles into the remaining budget:
      the markup, the running token count, how many articles were written
      and whether the notice of truncation was written. */
  datatype Budgeted = Budgeted(html: string, tokens: nat, emitted: nat, truncated: bool)

  /** The loop of `generate_month_section` over rendered articles: each article
      is written while it fits in the budget; the first that does not is
      replaced by the notice and ends the section. */
  function FillBudget(rendered: seq<string>, tokens: nat, maxTokens: nat): (r: Budgeted)
    ensures r.emitted <= |rendered|
    ensures r.truncated <==> r.emitted < |rendered|
    ensures r.html == Concat(rendered[..r.emitted]) + Closing(r.truncated)
    ensures r.tokens == tokens + TokensOf(rendered[..r.emitted])
    ensures r.emitted > 0 || tokens <= maxTokens ==> r.tokens <= maxTokens
    ensures r.truncated ==> r.tokens + EstimateTokens(rendered[r.emitted]) > maxTokens
    decreases |rendered|
  {
    if |rendered| == 0 then Budgeted("", tokens, 0, false)
    else
      var cost := EstimateTokens(rendered[0]);
      if tokens + cost > maxTokens then
        assert rendered[..0] == [];
        Budgeted(TruncationNotice, tokens, 0, true)
      else
        var rest := FillBudget(rendered[1..], tokens + cost, maxTokens);
        FillStep(rendered, tokens, maxTokens, rest);
        Budgeted(rendered[0] + rest.html, rest.tokens, rest.emitted + 1, rest.truncated)
  }

  /** Writing the first article and then filling the rest keeps every
      property of FillBudget. */
  lemma FillStep(rendered: seq<string>, tokens: nat, maxTokens: nat, rest: Budgeted)
    requires |rendered| > 0 && tokens + EstimateTokens(rendered[0]) <= maxTokens
    requires rest.emitted <= |rendered| - 1
    requires rest.truncated <==> rest.emitted < |rendered| - 1
    requires rest.html == Concat(rendered[1..][..rest.emitted]) + Closing(rest.truncated)
    requires rest.tokens == tokens + EstimateTokens(rendered[0]) + TokensOf(rendered[1..][..rest.emitted])
    requires rest.tokens <= maxTokens
    requires rest.truncated ==> rest.tokens + EstimateTokens(rendered[1..][rest.emitted]) > maxTokens
    ensures var r := Budgeted(rendered[0] + rest.html, rest.tokens, rest.emitted + 1, rest.truncated);
            && r.html == Concat(rendered[..r.emitted]) + Closing(r.truncated)
            && r.tokens == tokens + TokensOf(rendered[..r.emitted])
            && (r.truncated ==> r.tokens + EstimateTokens(rendered[r.emitted]) > maxTokens)
  {
    PrefixCons(rendered, rest.emitted);
    Associate(rendered[0], Concat(rendered[1..][..rest.emitted]), Closing(rest.truncated));
    assert rest.truncated ==> rendered[rest.emitted + 1] == rendered[1..][rest.emitted];
  }

  lemma Associate(x: string, y: string, z: string)
    ensures x + (y + z) == (x + y) + z
  {
  }

  lemma PrefixCons(parts: seq<string>, n: nat)
    requires n < |parts|
    ensures Concat(parts[..n + 1]) == parts[0] + Concat(parts[1..][..n])
    ensures TokensOf(parts[..n + 1]) == EstimateTokens(parts[0]) + TokensOf(parts[1..][..n])
  {
    assert parts[..n + 1][1..] == parts[1..][..n];
  }

  lemma {:induction false} TokensOfPrefix(parts: seq<string>, k: nat)
    requires k <= |parts|
    ensures TokensOf(parts[..k]) <= TokensOf(parts)
    decreases k
  {
    if k > 0 {
      TokensOfPrefix(parts[1..], k - 1);
      assert parts[..k][1..] == parts[1..][..k - 1];
    }
  }

  /** Every article of a section fitted in the budget when it was written. */
  lemma WrittenArticlesFit(rendered: seq<string>, tokens: nat, maxTokens: nat, k: nat)
    requires 0 < k <= FillBudget(rendered, tokens, maxTokens).emitted
    ensures tokens + TokensOf(rendered[..k]) <= maxTokens
  {
    var n := FillBudget(rendered, tokens, maxTokens).emitted;
    TokensOfPrefix(rendered[..n], k);
    assert rendered[..n][..k] == rendered[..k];
  }

  function Rendered(articles: seq<Article>, render: Article -> string): (r: seq<string>)
    ensures |r| == |articles|
    ensures forall i :: 0 <= i < |r| ==> r[i] == render(articles[i])
  {
    seq(|articles|, i requires 0 <= i < |articles| => render(articles[i]))
  }

  datatype MonthArticles = MonthArticles(month: string, articles: seq<Article>)

  /** `generate_month_section`, with the token count passed in and out: the
      heading, then the rendered articles written before the first that does
      not fit, then the notice if one did not fit. */
  function MonthSection(group: MonthArticles, render: Article -> string, tokens: nat, maxTokens: nat): (r: Budgeted)
    ensures r.emitted <= |group.articles|
    ensures r.html == SectionHeading(group.month) + Concat(Rendered(group.articles, render)[..r.emitted]) + Closing(r.truncated)
    ensures r.truncated <==> r.emitted < |group.articles|
    ensures r.truncated ==> r.tokens + EstimateTokens(render(group.articles[r.emitted])) > maxTokens
    ensures r.tokens == tokens + TokensOf(Rendered(group.articles, render)[..r.emitted])
    ensures r.emitted > 0 || tokens <= maxTokens ==> r.tokens <= maxTokens
  {
    var rendered := Rendered(group.articles, render);
    var body := FillBudget(rendered, tokens, maxTokens);
    Associate(SectionHeading(group.month), Concat(rendered[..body.emitted]), Closing(body.truncated));
    body.(html := SectionHeading(group.month) + body.html)
  }

  /** The month sections of a page and the final token count. */
  datatype Sections = Sections(html: string, tokens: nat, months: nat)

  /** The first `n` month sections written one after another from `tokens`,
      with no budget check between them: the reference for the month loop. */
  function Written(groups: seq<MonthArticles>, render: Article -> string, tokens: nat, maxTokens: nat, n: nat): Sections
    requires n <= |groups|
  {
    if n == 0 then Sections("", tokens, 0)
    else
      var w := Written(groups, render, tokens, maxTokens, n - 1);
      var section := MonthSection(groups[n - 1], render, w.tokens, maxTokens);
      Sections(w.html + section.html, section.tokens, n)
  }

  /** Writing `n` sections is writing the first and then `n - 1` more. */
  lemma {:induction false} WrittenCons(groups: seq<MonthArticles>, render: Article -> string, tokens: nat, maxTokens: nat, n: nat)
    requires 0 < n <= |groups|
    ensures var section := MonthSection(groups[0], render, tokens, maxTokens);
            var rest := Written(groups[1..], render, section.tokens, maxTokens, n - 1);
            Written(groups, render, tokens, maxTokens, n) == Sections(section.html + rest.html, rest.tokens, n)
    decreases n
  {
    var section := MonthSection(groups[0], render, tokens, maxTokens);
    if n > 1 {
      WrittenCons(groups, render, tokens, maxTokens, n - 1);
      var w := Written(groups[1..], render, section.tokens, maxTokens, n - 2);
      var last := MonthSection(groups[n - 1], render, w.tokens, maxTokens);
      assert groups[1..][n - 2] == groups[n - 1];
      Associate(section.html, w.html, last.html);
    }
  }

  /** The month loop of `generate_html`: sections are written in order, each
      only while the token count is below the budget; so the result is the
      first `months` sections written one after another, the count was below
      the budget before each of them, and the loop stops early only once the
      budget is reached. */
  function MonthSections(groups: seq<MonthArticles>, render: Article -> string, tokens: nat, maxTokens: nat): (r: Sections)
    ensures r.months <= |groups|
    ensures r == Written(groups, render, tokens, maxTokens, r.months)
    ensures forall k :: 0 <= k < r.months ==> Written(groups, render, tokens, maxTokens, k).tokens < maxTokens
    ensures r.months < |groups| ==> r.tokens >= maxTokens
    ensures tokens <= r.tokens
    ensures tokens <= maxTokens ==> r.tokens <= maxTokens
    decreases |groups|
  {
    if |groups| == 0 || tokens >= maxTokens then Sections("", tokens, 0)
    else
      var section := MonthSection(groups[0], render, tokens, maxTokens);
      var rest := MonthSections(groups[1..], render, section.tokens, maxTokens);
      var r := Sections(section.html + rest.html, rest.tokens, rest.months + 1);
      MonthSectionsStep(groups, render, tokens, maxTokens, rest);
      r
  }

  /** The loop's first section followed by the rest of the loop is the
      reference for one more section. */
  lemma MonthSectionsStep(groups: seq<MonthArticles>, render: Article -> string, tokens: nat, maxTokens: nat, rest: Sections)
    requires |groups| > 0 && tokens < maxTokens
    requires var section := MonthSection(groups[0], render, tokens, maxTokens);
             && rest.months <= |groups| - 1
             && rest == Written(groups[1..], render, section.tokens, maxTokens, rest.months)
             && forall k :: 0 <= k < rest.months ==> Written(groups[1..], render, section.tokens, maxTokens, k).tokens < maxTokens
    ensures var section := MonthSection(groups[0], render, tokens, maxTokens);
            var r := Sections(section.html + rest.html, rest.tokens, rest.months + 1);
            && r == Written(groups, render, tokens, maxTokens, r.months)
            && forall k :: 0 <= k < r.months ==> Written(groups, render, tokens, maxTokens, k).tokens < maxTokens
  {
    var section := MonthSection(groups[0], render, tokens, maxTokens);
    var r := Sections(section.html + rest.html, rest.tokens, rest.months + 1);
    assert r == Written(groups, render, tokens, maxTokens, r.months) by {
      WrittenCons(groups, render, tokens, maxTokens, rest.months + 1);
    }
    forall k | 0 < k < r.months ensures Written(groups, render, tokens, maxTokens, k).tokens < maxTokens {
      WrittenCons(groups, render, tokens, maxTokens, k);
      assert Written(groups[1..], render, section.tokens, maxTokens, k - 1).tokens < maxTokens;
    }
  }

  /** Position `i` holds the last article of `articles` with id `id`. */
  ghost predicate LastWithId(articles: seq<Article>, i: int, id: string) {
    && 0 <= i < |articles| && articles[i].id == id
    && forall j :: i < j < |articles| ==> articles[j].id != id
  }

  /** `{a['id']: a for a in articles}`: the last article with each id wins. */
  function ById(articles: seq<Article>): (m: map<string, Article>)
    ensures m.Keys == IdSet(articles)
    ensures IndexedById(m)
    ensures forall id :: id in m ==> exists i :: LastWithId(articles, i, id) && articles[i] == m[id]
  {
    if |articles| == 0 then
      assert IdSet(articles) == {};
      map[]
    else
      var init := articles[..|articles| - 1];
      var last := articles[|articles| - 1];
      var prev := ById(init);
      var m := prev[last.id := last];
      assert init + [last] == articles;
      ByIdStep(init, last, prev, m);
      IdSetSnoc(init, last);
      m
  }

  lemma ByIdStep(init: seq<Article>, last: Article, m0: map<string, Article>, m: map<string, Article>)
    requires forall id :: id in m0 ==> exists i :: LastWithId(init, i, id) && init[i] == m0[id]
    requires m == m0[last.id := last]
    ensures forall id :: id in m ==> exists i :: LastWithId(init + [last], i, id) && (init + [last])[i] == m[id]
  {
    var all := init + [last];
    forall id | id in m ensures exists i :: LastWithId(all, i, id) && all[i] == m[id] {
      if id != last.id {
        var i :| LastWithId(init, i, id) && init[i] == m0[id];
        assert LastWithId(all, i, id) && all[i] == m[id];
      } else {
        assert LastWithId(all, |init|, id) && all[|init|] == m[id];
      }
    }
  }

  /** Every stored article is indexed under its own id. */
  ghost predicate IndexedById(byId: map<string, Article>) {
    forall id :: id in byId ==> byId[id].id == id
  }

  function IdsOf(articles: seq<Article>): (r: seq<string>)
    ensures |r| == |articles|
    ensures forall i :: 0 <= i < |r| ==> r[i] == articles[i].id
  {
    seq(|articles|, i requires 0 <= i < |articles| => articles[i].id)
  }

  /** The test `aid in articles_by_id`. */
  function Known(byId: map<string, Article>): string -> bool {
    id => id in byId
  }

  /** `[articles_by_id[aid] for aid in ids if aid in articles_by_id]`: the
      stored article of each known id, in the order of the ids and as often as
      each occurs there, unknown ids dropped. */
  function Reconstruct(ids: seq<string>, byId: map<string, Article>): (r: seq<Article>)
    requires IndexedById(byId)
    ensures Subsequence(IdsOf(r), ids)
    ensures forall i :: 0 <= i < |r| ==> r[i].id in byId && byId[r[i].id] == r[i]
    ensures forall id :: id in ids && id in byId ==> byId[id] in r
  {
    if |ids| == 0 then []
    else
      var rest := Reconstruct(ids[1..], byId);
      if ids[0] in byId then
        var r := [byId[ids[0]]] + rest;
        assert IdsOf(r)[1..] == IdsOf(rest);
        r
      else rest
  }

  /** The ids of the reconstructed list are exactly the known ids, in order,
      each as often as it occurs: a repeated known id is not dropped. */
  lemma {:induction false} ReconstructKnownIds(ids: seq<string>, byId: map<string, Article>)
    requires IndexedById(byId)
    ensures FilterOf(IdsOf(Reconstruct(ids, byId)), ids, Known(byId))
  {
    if |ids| > 0 {
      var rest := Reconstruct(ids[1..], byId);
      ReconstructKnownIds(ids[1..], byId);
      assert ids == [ids[0]] + ids[1..];
      assert IdsOf(Reconstruct(ids, byId)) == (if ids[0] in byId then [ids[0]] else []) + IdsOf(rest) by {
        if ids[0] in byId {
          assert IdsOf([byId[ids[0]]] + rest) == [ids[0]] + IdsOf(rest);
        }
      }
      FilterCons(ids[0], IdsOf(rest), ids[1..], Known(byId), IdsOf(Reconstruct(ids, byId)), ids);
    }
  }

  datatype MonthIds = MonthIds(month: string, ids: seq<string>)

  /** The static parts of the page: header, introduction and footer. */
  datatype Frame = Frame(header: string, intro: string, footer: string)

  const TocOpen: string := "\n    <div class=\"toc\">\n        <h3>Contents by Month</h3>\n        <ul>\n"
  const TocClose: string := "        </ul>\n    </div>\n"

  function TocEntries(groups: seq<MonthArticles>): (r: seq<string>)
    ensures |r| == |groups|
    ensures forall k :: 0 <= k < |r| ==> r[k] == TocEntry(groups[k].month, |groups[k].articles|)
  {
    seq(|groups|, k requires 0 <= k < |groups| => TocEntry(groups[k].month, |groups[k].articles|))
  }

  /** `generate_toc`: the contents list opens and closes the same way whatever
      the months, and names every month with its number of stories, including
      months whose section the token budget cuts off. */
  function Toc(groups: seq<MonthArticles>): (r: string)
    ensures StartsWith(r, TocOpen)
    ensures |TocOpen| + |TocClose| <= |r| && r[|r| - |TocClose|..] == TocClose
    ensures r[|TocOpen|..|r| - |TocClose|] == Concat(TocEntries(groups))
    ensures forall k :: 0 <= k < |groups| ==> Contains(r, TocEntry(groups[k].month, |groups[k].articles|))
  {
    var parts := TocEntries(groups);
    var r := TocOpen + Concat(parts) + TocClose;
    Framed(TocOpen, Concat(parts), TocClose);
    assert r[|TocOpen|..|r| - |TocClose|] == Concat(parts);
    assert forall k :: 0 <= k < |groups| ==> Contains(r, parts[k]) by {
      forall k | 0 <= k < |groups| ensures Contains(r, parts[k]) {
        ConcatSplit(parts, k);
        ContainsInside(TocOpen, Concat(parts[..k]), parts[k], Concat(parts[k + 1..]), TocClose);
      }
    }
    r
  }

  /** The contents of no month are the opening and closing markup alone. */
  lemma TocEmpty()
    ensures Toc([]) == TocOpen + TocClose
  {
    assert TocEntries([]) == [];
  }

  /** The loop of `generate_toc`: one more month adds its line just before the
      closing markup, after the lines of the months before it. */
  lemma TocSnoc(groups: seq<MonthArticles>, g: MonthArticles)
    ensures var t := Toc(groups);
            Toc(groups + [g]) == t[..|t| - |TocClose|] + TocEntry(g.month, |g.articles|) + TocClose
  {
    var t := Toc(groups);
    var line := TocEntry(g.month, |g.articles|);
    var body := Concat(TocEntries(groups));
    assert t[..|t| - |TocClose|] == TocOpen + body by {
      assert t == TocOpen + body + TocClose;
    }
    assert Concat(TocEntries(groups + [g])) == body + line by {
      assert TocEntries(groups + [g]) == TocEntries(groups) + [line];
      ConcatSnoc(TocEntries(groups), line);
    }
    Associate(TocOpen, body, line);
  }

  lemma {:induction false} ConcatSnoc(parts: seq<string>, x: string)
    ensures Concat(parts + [x]) == Concat(parts) + x
    decreases |parts|
  {
    if |parts| == 0 {
      assert parts + [x] == [x];
    } else {
      assert (parts + [x])[1..] == parts[1..] + [x];
      ConcatSnoc(parts[1..], x);
    }
  }

  /** A concatenation contains each of its parts. */
  lemma {:induction false} ConcatSplit(parts: seq<string>, k: nat)
    requires k < |parts|
    ensures Concat(parts) == Concat(parts[..k]) + parts[k] + Concat(parts[k + 1..])
    decreases k
  {
    if k > 0 {
      ConcatSplit(parts[1..], k - 1);
      assert parts[..k][1..] == parts[1..][..k - 1];
      assert parts[1..][k..] == parts[k + 1..];
    } else {
      assert parts[..0] == [];
      assert parts[1..] == parts[k + 1..];
    }
  }

  lemma ContainsInside(a: string, b: string, x: string, c: string, d: string)
    ensures Contains(a + (b + x + c) + d, x)
  {
    assert a + (b + x + c) + d == (a + b) + x + (c + d);
    ContainsPiece(a + b, x, c + d);
  }

  /** Each month's ids resolved to articles. */
  function Regroup(grouped: seq<MonthIds>, byId: map<string, Article>): (r: seq<MonthArticles>)
    requires IndexedById(byId)
    ensures |r| == |grouped|
    ensures forall k :: 0 <= k < |r| ==> r[k].month == grouped[k].month && r[k].articles == Reconstruct(grouped[k].ids, byId)
  {
    seq(|grouped|, k requires 0 <= k < |grouped| => MonthArticles(grouped[k].month, Reconstruct(grouped[k].ids, byId)))
  }

  datatype Page = Page(html: string, tokens: nat)

  /** `generate_html` without the file I/O: nothing for an empty article list;
      otherwise the frame around the contents and the budgeted sections. Only
      article markup counts towards the budget. */
  function GenerateHtml(articles: seq<Article>, grouped: seq<MonthIds>, frame: Frame,
                        render: Article -> string, tokens: nat, maxTokens: nat): (r: Page)
    ensures |articles| == 0 ==> r == Page("", tokens)
    ensures |articles| > 0 ==>
              var groups := Regroup(grouped, ById(articles));
              && StartsWith(r.html, frame.header + frame.intro + Toc(groups))
              && |frame.header + frame.intro + Toc(groups)| + |frame.footer| <= |r.html|
              && r.html[|r.html| - |frame.footer|..] == frame.footer
              && r.html[|frame.header + frame.intro + Toc(groups)|..|r.html| - |frame.footer|]
                 == MonthSections(groups, render, tokens, maxTokens).html
              && r.tokens == MonthSections(groups, render, tokens, maxTokens).tokens
    ensures tokens <= r.tokens
    ensures tokens <= maxTokens ==> r.tokens <= maxTokens
  {
    if |articles| == 0 then Page("", tokens)
    else
      var groups := Regroup(grouped, ById(articles));
      var sections := MonthSections(groups, render, tokens, maxTokens);
      var head := frame.header + frame.intro + Toc(groups);
      var html := head + sections.html + frame.footer;
      Framed(head, sections.html, frame.footer);
      assert html[|head|..|html| - |frame.footer|] == sections.html;
      Page(html, sections.tokens)
  }

  /** A page begins with its head and ends with its footer. */
  lemma Framed(head: string, body: string, footer: string)
    ensures StartsWith(head + body + footer, head)
    ensures var html := head + body + footer;
      |footer| <= |html| && html[|html| - |footer|..] == footer
  {
    var html := head + body + footer;
    assert html[..|head|] == head;
    assert html[|html| - |footer|..] == footer;
  }
}
