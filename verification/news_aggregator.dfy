/**
 * `NewsAggregator`: turning feed entries into articles with URL
 * de-duplication and an age cut-off, and merging them into the stored
 * database without overwriting. Fetching, the clock and the MD5 digest of a
 * link are parameters: `idOf` stands for the digest, `now` for the clock and
 * `cutoff` for the moment one year before it.
 */
module NewsAggregator {
  import opened Wrappers
  import opened Seqs
  import opened Articles

  /** One parsed feed entry. An absent field is None; `content` holds, for each
      content item, its `value` field when present. */
  datatype Entry = Entry(
    link: string,
    title: Option<string>,
    publishedParsed: Option<DateTime>,
    updatedParsed: Option<DateTime>,
    summary: Option<string>,
    content: Option<seq<Option<string>>>)

  /** The publication date, else the update date, else the current time. */
  function PublishedOf(e: Entry, now: DateTime): (t: DateTime)
    ensures e.publishedParsed.Some? ==> t == e.publishedParsed.value
    ensures e.publishedParsed.None? && e.updatedParsed.Some? ==> t == e.updatedParsed.value
    ensures e.publishedParsed.None? && e.updatedParsed.None? ==> t == now
  {
    match e.publishedParsed
    case Some(t) => t
    case None =>
      match e.updatedParsed
      case Some(t) => t
      case None => now
  }

  /** Building the article dictionary raises when the title is missing or the
      content list is empty. */
  predicate Raises(e: Entry) {
    e.title.None? || e.content == Some([])
  }

  /** The first content item's value. `Some([])` is the empty content list,
      whose `[0]` raises the IndexError that `Raises` records. */
  function ContentOf(e: Entry): string
    requires !Raises(e)
  {
    match e.content
    case None => ""
    case Some(items) => items[0].GetOr("")
  }

  /** The article built from an entry that does not raise. */
  function ToArticle(e: Entry, source: string, category: string, published: DateTime, idOf: string -> string): (a: Article)
    requires !Raises(e)
    ensures a.url == e.link && a.id == idOf(e.link)
    ensures a.title == e.title.value && a.published == published
    ensures a.source == source && a.category == category
    ensures a.description == e.summary.GetOr("")
  {
    Article(idOf(e.link), e.title.value, e.link, source, category, published, e.summary.GetOr(""), ContentOf(e))
  }

  ghost function Links(entries: seq<Entry>): set<string> {
    set e | e in entries :: e.link
  }

  function UrlOf(a: Article): string {
    a.url
  }

  /** The articles of one feed and the seen URLs afterwards; `failed` marks the
      exception that discards the feed's articles. */
  datatype FeedResult = FeedResult(articles: seq<Article>, seen: set<string>, failed: bool)

  /** `fetch_rss_feed` on already parsed entries. Every entry whose link is new
      has its link recorded, even when it is then skipped as too old or raises;
      an exception returns no articles but keeps the links recorded so far
      (`FetchFeedStopsAt`);
      otherwise the articles are those of the entries `FreshFrom` selects, in
      entry order (`FetchFeedSelects`). */
  function FetchFeed(seen: set<string>, entries: seq<Entry>, source: string, category: string,
                     now: DateTime, cutoff: DateTime, idOf: string -> string): (r: FeedResult)
    ensures seen <= r.seen <= seen + Links(entries)
    ensures !r.failed ==> r.seen == seen + Links(entries)
    ensures r.failed ==> r.articles == []
    ensures r.failed <==> exists k :: RaisesAt(seen, entries, k, now, cutoff)
    ensures DistinctKeys(r.articles, UrlOf)
    ensures forall i :: 0 <= i < |r.articles| ==>
              var a := r.articles[i];
              && a.url !in seen && a.url in r.seen
              && a.id == idOf(a.url) && a.source == source && a.category == category
              && !Before(a.published, cutoff)
    decreases |entries|
  {
    if |entries| == 0 then FeedResult([], seen, false)
    else
      var e := entries[0];
      if e.link in seen then
        RaisesShift(seen, entries, now, cutoff);
        assert seen + {e.link} == seen;
        FetchFeed(seen, entries[1..], source, category, now, cutoff, idOf)
      else
        var seen' := seen + {e.link};
        var published := PublishedOf(e, now);
        RaisesShift(seen, entries, now, cutoff);
        if Before(published, cutoff) then
          FetchFeed(seen', entries[1..], source, category, now, cutoff, idOf)
        else if Raises(e) then
          FeedResult([], seen', true)
        else
          var rest := FetchFeed(seen', entries[1..], source, category, now, cutoff, idOf);
          if rest.failed then rest
          else FeedResult([ToArticle(e, source, category, published, idOf)] + rest.articles, rest.seen, false)
  }

  /** Unless the feed failed, its articles are those `FreshFrom` selects. */
  lemma {:induction false} FetchFeedSelects(seen: set<string>, entries: seq<Entry>, source: string, category: string,
                                            now: DateTime, cutoff: DateTime, idOf: string -> string)
    ensures var r := FetchFeed(seen, entries, source, category, now, cutoff, idOf);
            !r.failed ==> r.articles == FreshFrom(seen, entries, source, category, now, cutoff, idOf, 0)
    decreases |entries|
  {
    var r := FetchFeed(seen, entries, source, category, now, cutoff, idOf);
    if |entries| > 0 && !r.failed {
      var e := entries[0];
      var seen' := seen + {e.link};
      var rest := FetchFeed(seen', entries[1..], source, category, now, cutoff, idOf);
      var published := PublishedOf(e, now);
      var head := if e.link !in seen && !Before(published, cutoff) && !Raises(e)
                  then [ToArticle(e, source, category, published, idOf)] else [];
      assert !rest.failed && r.articles == head + rest.articles by {
        if e.link in seen {
          assert seen' == seen;
        }
      }
      assert rest.articles == FreshFrom(seen', entries[1..], source, category, now, cutoff, idOf, 0) by {
        FetchFeedSelects(seen', entries[1..], source, category, now, cutoff, idOf);
      }
      FreshFromHead(seen, entries, source, category, now, cutoff, idOf);
    }
  }

  /** Entry `k` is the first entry with its link and the link was not seen
      before the feed. */
  ghost predicate FirstFresh(seen: set<string>, entries: seq<Entry>, k: int) {
    && 0 <= k < |entries| && entries[k].link !in seen
    && forall j :: 0 <= j < k ==> entries[j].link != entries[k].link
  }

  /** The articles of the entries at or after `k`, in entry order: one for each
      entry that is the first with its link, whose link was not seen before the
      feed, that is recent enough and that does not raise. */
  ghost function FreshFrom(seen: set<string>, entries: seq<Entry>, source: string, category: string,
                           now: DateTime, cutoff: DateTime, idOf: string -> string, k: nat): seq<Article>
    requires k <= |entries|
    decreases |entries| - k
  {
    if k == |entries| then []
    else
      var e := entries[k];
      var published := PublishedOf(e, now);
      (if FirstFresh(seen, entries, k) && !Before(published, cutoff) && !Raises(e)
       then [ToArticle(e, source, category, published, idOf)] else [])
      + FreshFrom(seen, entries, source, category, now, cutoff, idOf, k + 1)
  }

  /** Dropping the first entry and recording its link selects the same articles. */
  lemma {:induction false} FreshFromShift(seen: set<string>, entries: seq<Entry>, source: string, category: string,
                                          now: DateTime, cutoff: DateTime, idOf: string -> string, k: nat)
    requires 0 < k <= |entries|
    ensures FreshFrom(seen, entries, source, category, now, cutoff, idOf, k)
            == FreshFrom(seen + {entries[0].link}, entries[1..], source, category, now, cutoff, idOf, k - 1)
    decreases |entries| - k
  {
    if k < |entries| {
      FreshFromShift(seen, entries, source, category, now, cutoff, idOf, k + 1);
      FirstFreshShift(seen, entries, k);
      assert entries[1..][k - 1] == entries[k];
    }
  }

  lemma FirstFreshShift(seen: set<string>, entries: seq<Entry>, k: nat)
    requires 0 < k < |entries|
    ensures FirstFresh(seen, entries, k) <==> FirstFresh(seen + {entries[0].link}, entries[1..], k - 1)
  {
    assert entries[1..][k - 1] == entries[k];
    if FirstFresh(seen + {entries[0].link}, entries[1..], k - 1) {
      forall j | 0 <= j < k ensures entries[j].link != entries[k].link {
        if j > 0 {
          assert entries[1..][j - 1] == entries[j];
        }
      }
    }
  }

  /** The first entry's article, if it yields one, followed by the rest. */
  lemma FreshFromHead(seen: set<string>, entries: seq<Entry>, source: string, category: string,
                      now: DateTime, cutoff: DateTime, idOf: string -> string)
    requires |entries| > 0
    ensures var e := entries[0];
            var published := PublishedOf(e, now);
            FreshFrom(seen, entries, source, category, now, cutoff, idOf, 0)
            == (if e.link !in seen && !Before(published, cutoff) && !Raises(e)
                then [ToArticle(e, source, category, published, idOf)] else [])
               + FreshFrom(seen + {e.link}, entries[1..], source, category, now, cutoff, idOf, 0)
  {
    FreshFromShift(seen, entries, source, category, now, cutoff, idOf, 1);
    assert FirstFresh(seen, entries, 0) <==> entries[0].link !in seen;
  }

  /** The entry at `k` raises while it is being turned into an article: it is
      the first with its link, the link is new, and it is recent enough. */
  ghost predicate RaisesAt(seen: set<string>, entries: seq<Entry>, k: int, now: DateTime, cutoff: DateTime) {
    FirstFresh(seen, entries, k) && Raises(entries[k]) && !Before(PublishedOf(entries[k], now), cutoff)
  }

  /** After the first entry has been looked at, the entries that raise are the
      same, one position earlier. */
  lemma RaisesShift(seen: set<string>, entries: seq<Entry>, now: DateTime, cutoff: DateTime)
    requires |entries| > 0
    ensures (exists k :: RaisesAt(seen, entries, k, now, cutoff))
            <==> (entries[0].link !in seen && RaisesAt(seen, entries, 0, now, cutoff))
                 || exists k :: RaisesAt(seen + {entries[0].link}, entries[1..], k, now, cutoff)
  {
    var seen' := seen + {entries[0].link};
    forall k | 1 <= k < |entries|
      ensures RaisesAt(seen, entries, k, now, cutoff) <==> RaisesAt(seen', entries[1..], k - 1, now, cutoff)
    {
      assert entries[1..][k - 1] == entries[k];
      if FirstFresh(seen', entries[1..], k - 1) {
        forall j | 0 <= j < k ensures entries[j].link != entries[k].link {
          if j > 0 {
            assert entries[1..][j - 1] == entries[j];
          }
        }
      }
    }
    if exists k :: RaisesAt(seen', entries[1..], k, now, cutoff) {
      var k :| RaisesAt(seen', entries[1..], k, now, cutoff);
      assert RaisesAt(seen, entries, k + 1, now, cutoff);
    }
  }

  /** Conversely, unless the feed failed, every recent entry with a new link
      becomes an article. */
  lemma {:induction false} FetchFeedKeeps(seen: set<string>, entries: seq<Entry>, source: string, category: string,
                                          now: DateTime, cutoff: DateTime, idOf: string -> string, k: nat)
    requires !FetchFeed(seen, entries, source, category, now, cutoff, idOf).failed
    requires FirstFresh(seen, entries, k) && !Before(PublishedOf(entries[k], now), cutoff)
    ensures !Raises(entries[k])
    ensures ToArticle(entries[k], source, category, PublishedOf(entries[k], now), idOf)
            in FetchFeed(seen, entries, source, category, now, cutoff, idOf).articles
    decreases |entries|
  {
    assert !RaisesAt(seen, entries, k, now, cutoff);
    var seen' := seen + {entries[0].link};
    FetchFeedTail(seen, entries, source, category, now, cutoff, idOf);
    if k == 0 {
      FetchFeedHead(seen, entries, source, category, now, cutoff, idOf);
    } else {
      assert entries[1..][k - 1] == entries[k];
      assert FirstFresh(seen', entries[1..], k - 1);
      FetchFeedKeeps(seen', entries[1..], source, category, now, cutoff, idOf, k - 1);
    }
  }

  /** Entry `k` is the first entry of the feed that raises. */
  ghost predicate FirstRaisesAt(seen: set<string>, entries: seq<Entry>, k: int, now: DateTime, cutoff: DateTime) {
    RaisesAt(seen, entries, k, now, cutoff) && forall j :: 0 <= j < k ==> !RaisesAt(seen, entries, j, now, cutoff)
  }

  /** When the feed fails, it fails at its first raising entry, and the seen
      links are then exactly those of the entries up to and including it: the
      links recorded before the exception stay recorded. */
  lemma {:induction false} FetchFeedStopsAt(seen: set<string>, entries: seq<Entry>, source: string, category: string,
                                            now: DateTime, cutoff: DateTime, idOf: string -> string)
    ensures var r := FetchFeed(seen, entries, source, category, now, cutoff, idOf);
            r.failed ==> exists k :: FirstRaisesAt(seen, entries, k, now, cutoff) && r.seen == seen + Links(entries[..k + 1])
    decreases |entries|
  {
    var r := FetchFeed(seen, entries, source, category, now, cutoff, idOf);
    if |entries| > 0 && r.failed {
      var e := entries[0];
      var seen' := seen + {e.link};
      var rest := FetchFeed(seen', entries[1..], source, category, now, cutoff, idOf);
      if e.link !in seen && !Before(PublishedOf(e, now), cutoff) && Raises(e) {
        assert RaisesAt(seen, entries, 0, now, cutoff);
        assert r.seen == seen + Links(entries[..1]) by {
          assert entries[..1] == [e];
          LinksCons(e, []);
        }
        assert FirstRaisesAt(seen, entries, 0, now, cutoff);
      } else {
        assert r.failed == rest.failed && r.seen == rest.seen by {
          if e.link in seen {
            assert seen' == seen;
          }
        }
        assert !RaisesAt(seen, entries, 0, now, cutoff);
        FetchFeedStopsAt(seen', entries[1..], source, category, now, cutoff, idOf);
        var k :| FirstRaisesAt(seen', entries[1..], k, now, cutoff) && rest.seen == seen' + Links(entries[1..][..k + 1]);
        FirstRaisesShift(seen, entries, k, now, cutoff);
        LinksPrefixCons(entries, k);
      }
    }
  }

  /** The first raising entry of the rest of the feed is the first raising
      entry of the feed when the first entry does not raise. */
  lemma FirstRaisesShift(seen: set<string>, entries: seq<Entry>, k: nat, now: DateTime, cutoff: DateTime)
    requires |entries| > 0 && !RaisesAt(seen, entries, 0, now, cutoff)
    requires FirstRaisesAt(seen + {entries[0].link}, entries[1..], k, now, cutoff)
    ensures FirstRaisesAt(seen, entries, k + 1, now, cutoff)
  {
    RaisesAtShift(seen, entries, k + 1, now, cutoff);
    forall j | 1 <= j < k + 1 ensures !RaisesAt(seen, entries, j, now, cutoff) {
      RaisesAtShift(seen, entries, j, now, cutoff);
    }
  }

  lemma LinksPrefixCons(entries: seq<Entry>, k: nat)
    requires k + 1 < |entries|
    ensures Links(entries[..k + 2]) == {entries[0].link} + Links(entries[1..][..k + 1])
  {
    assert entries[..k + 2] == [entries[0]] + entries[1..][..k + 1];
    LinksCons(entries[0], entries[1..][..k + 1]);
  }

  /** The raising entries after the first are those of the rest of the feed,
      with the first entry's link seen. */
  lemma RaisesAtShift(seen: set<string>, entries: seq<Entry>, k: nat, now: DateTime, cutoff: DateTime)
    requires 0 < k < |entries|
    ensures RaisesAt(seen, entries, k, now, cutoff) <==> RaisesAt(seen + {entries[0].link}, entries[1..], k - 1, now, cutoff)
  {
    FirstFreshShift(seen, entries, k);
    assert entries[1..][k - 1] == entries[k];
  }

  lemma LinksCons(e: Entry, entries: seq<Entry>)
    ensures Links([e] + entries) == {e.link} + Links(entries)
  {
    assert forall x :: x in [e] + entries <==> x == e || x in entries;
  }

  /** Unless the feed failed, the feed after its first entry did not fail and
      its articles are all kept. */
  lemma FetchFeedTail(seen: set<string>, entries: seq<Entry>, source: string, category: string,
                      now: DateTime, cutoff: DateTime, idOf: string -> string)
    requires |entries| > 0
    requires !FetchFeed(seen, entries, source, category, now, cutoff, idOf).failed
    ensures var rest := FetchFeed(seen + {entries[0].link}, entries[1..], source, category, now, cutoff, idOf);
            && !rest.failed
            && forall a :: a in rest.articles ==> a in FetchFeed(seen, entries, source, category, now, cutoff, idOf).articles
  {
    if entries[0].link in seen {
      assert seen + {entries[0].link} == seen;
    }
  }

  /** Unless the feed failed, a recent first entry with a new link becomes the
      first article. */
  lemma FetchFeedHead(seen: set<string>, entries: seq<Entry>, source: string, category: string,
                      now: DateTime, cutoff: DateTime, idOf: string -> string)
    requires |entries| > 0 && entries[0].link !in seen
    requires !Before(PublishedOf(entries[0], now), cutoff) && !Raises(entries[0])
    requires !FetchFeed(seen, entries, source, category, now, cutoff, idOf).failed
    ensures ToArticle(entries[0], source, category, PublishedOf(entries[0], now), idOf)
            in FetchFeed(seen, entries, source, category, now, cutoff, idOf).articles
  {
  }

  /** One configured feed: its source name, its category and its entries. */
  datatype Feed = Feed(source: string, category: string, entries: seq<Entry>)

  datatype Fetched = Fetched(articles: seq<Article>, seen: set<string>)

  /** The feed loop of `fetch_all_sources`, before its final sort: the
      articles of every feed in order, with the seen URLs shared between feeds. */
  function FetchAll(seen: set<string>, feeds: seq<Feed>, now: DateTime, cutoff: DateTime, idOf: string -> string): (r: Fetched)
    ensures seen <= r.seen
    ensures DistinctKeys(r.articles, UrlOf)
    ensures forall i :: 0 <= i < |r.articles| ==>
              r.articles[i].url !in seen && r.articles[i].url in r.seen
              && r.articles[i].id == idOf(r.articles[i].url) && !Before(r.articles[i].published, cutoff)
    decreases |feeds|
  {
    if |feeds| == 0 then Fetched([], seen)
    else
      var f := feeds[0];
      var first := FetchFeed(seen, f.entries, f.source, f.category, now, cutoff, idOf);
      var rest := FetchAll(first.seen, feeds[1..], now, cutoff, idOf);
      var all := first.articles + rest.articles;
      forall i, j | 0 <= i < j < |all| ensures UrlOf(all[i]) != UrlOf(all[j]) {
        if i < |first.articles| <= j {
          assert all[j] == rest.articles[j - |first.articles|];
        } else if j < |first.articles| {
          assert all[i] == first.articles[i] && all[j] == first.articles[j];
        } else {
          assert all[i] == rest.articles[i - |first.articles|] && all[j] == rest.articles[j - |first.articles|];
        }
      }
      Fetched(all, rest.seen)
  }

  /** The loop of `fetch_all_sources` one feed at a time: fetching one more feed
      extends the articles so far by that feed's articles, fetched with the
      URLs seen so far, and records the links that feed records. */
  lemma {:induction false} FetchAllSnoc(seen: set<string>, feeds: seq<Feed>, f: Feed,
                                        now: DateTime, cutoff: DateTime, idOf: string -> string)
    ensures var before := FetchAll(seen, feeds, now, cutoff, idOf);
            var last := FetchFeed(before.seen, f.entries, f.source, f.category, now, cutoff, idOf);
            && FetchAll(seen, feeds + [f], now, cutoff, idOf).articles == before.articles + last.articles
            && FetchAll(seen, feeds + [f], now, cutoff, idOf).seen == last.seen
    decreases |feeds|
  {
    if |feeds| == 0 {
      assert feeds + [f] == [f];
      assert [f][1..] == [];
    } else {
      var first := FetchFeed(seen, feeds[0].entries, feeds[0].source, feeds[0].category, now, cutoff, idOf);
      var rest := FetchAll(first.seen, feeds[1..], now, cutoff, idOf);
      var last := FetchFeed(rest.seen, f.entries, f.source, f.category, now, cutoff, idOf);
      var restAll := FetchAll(first.seen, feeds[1..] + [f], now, cutoff, idOf);
      assert FetchAll(seen, feeds + [f], now, cutoff, idOf) == Fetched(first.articles + restAll.articles, restAll.seen) by {
        assert (feeds + [f])[0] == feeds[0] && (feeds + [f])[1..] == feeds[1..] + [f];
        FetchAllCons(seen, feeds + [f], now, cutoff, idOf);
      }
      assert restAll == Fetched(rest.articles + last.articles, last.seen) by {
        FetchAllSnoc(first.seen, feeds[1..], f, now, cutoff, idOf);
      }
      assert FetchAll(seen, feeds, now, cutoff, idOf) == Fetched(first.articles + rest.articles, rest.seen) by {
        FetchAllCons(seen, feeds, now, cutoff, idOf);
      }
      AppendAssoc(first.articles, rest.articles, last.articles);
    }
  }

  /** The first feed's articles, then those of the rest fetched with the URLs
      the first feed left seen. */
  lemma FetchAllCons(seen: set<string>, feeds: seq<Feed>, now: DateTime, cutoff: DateTime, idOf: string -> string)
    requires |feeds| > 0
    ensures var first := FetchFeed(seen, feeds[0].entries, feeds[0].source, feeds[0].category, now, cutoff, idOf);
            var rest := FetchAll(first.seen, feeds[1..], now, cutoff, idOf);
            FetchAll(seen, feeds, now, cutoff, idOf) == Fetched(first.articles + rest.articles, rest.seen)
  {
  }

  /** The first article of `articles` with id `id` sits at `i`. */
  ghost predicate FirstWithId(articles: seq<Article>, i: int, id: string) {
    && 0 <= i < |articles| && articles[i].id == id
    && forall j :: 0 <= j < i ==> articles[j].id != id
  }

  /** `merge_with_database`: each new article is stored under its id unless
      the id is already present. */
  function Merge(db: map<string, Article>, articles: seq<Article>): (r: map<string, Article>)
    ensures r.Keys == db.Keys + IdSet(articles)
    ensures forall id :: id in db ==> r[id] == db[id]
    ensures forall id :: id in r && id !in db ==> exists i :: FirstWithId(articles, i, id) && r[id] == articles[i]
    decreases |articles|
  {
    if |articles| == 0 then
      assert IdSet(articles) == {};
      db
    else
      var a := articles[0];
      var db' := if a.id in db then db else db[a.id := a];
      var r := Merge(db', articles[1..]);
      MergeStep(db, articles, db', r);
      r
  }

  lemma MergeStep(db: map<string, Article>, articles: seq<Article>, db': map<string, Article>, r: map<string, Article>)
    requires |articles| > 0
    requires db' == if articles[0].id in db then db else db[articles[0].id := articles[0]]
    requires r.Keys == db'.Keys + IdSet(articles[1..])
    requires forall id :: id in db' ==> r[id] == db'[id]
    requires forall id :: id in r && id !in db' ==> exists i :: FirstWithId(articles[1..], i, id) && r[id] == articles[1..][i]
    ensures r.Keys == db.Keys + IdSet(articles)
    ensures forall id :: id in db ==> r[id] == db[id]
    ensures forall id :: id in r && id !in db ==> exists i :: FirstWithId(articles, i, id) && r[id] == articles[i]
  {
    IdSetCons(articles);
    forall id | id in r && id !in db ensures exists i :: FirstWithId(articles, i, id) && r[id] == articles[i] {
      MergeStepFirst(db, articles, db', r, id);
    }
  }

  lemma MergeStepFirst(db: map<string, Article>, articles: seq<Article>, db': map<string, Article>, r: map<string, Article>, id: string)
    requires |articles| > 0
    requires db' == if articles[0].id in db then db else db[articles[0].id := articles[0]]
    requires db'.Keys <= r.Keys
    requires forall id :: id in db' ==> r[id] == db'[id]
    requires forall id :: id in r && id !in db' ==> exists i :: FirstWithId(articles[1..], i, id) && r[id] == articles[1..][i]
    requires id in r && id !in db
    ensures exists i :: FirstWithId(articles, i, id) && r[id] == articles[i]
  {
    if id == articles[0].id {
      assert FirstWithId(articles, 0, id);
    } else {
      var i :| FirstWithId(articles[1..], i, id) && r[id] == articles[1..][i];
      assert FirstWithId(articles, i + 1, id);
    }
  }

  /** Merging the same articles again changes nothing. */
  lemma {:induction false} MergeIdempotent(db: map<string, Article>, articles: seq<Article>)
    ensures Merge(Merge(db, articles), articles) == Merge(db, articles)
  {
    var m := Merge(db, articles);
    MergeKnown(m, articles);
  }

  lemma {:induction false} MergeKnown(db: map<string, Article>, articles: seq<Article>)
    requires forall i :: 0 <= i < |articles| ==> articles[i].id in db
    ensures Merge(db, articles) == db
    decreases |articles|
  {
    if |articles| > 0 {
      MergeKnown(db, articles[1..]);
    }
  }
}
