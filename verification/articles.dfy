/**
 * The article record shared by the aggregator, the processor and the HTML
 * generator, and the timestamps the pipeline compares.
 */
module Articles {

  /** A naive local date and time to the whole second. The cut-off
      `datetime.now() - timedelta(days=365)` carries microseconds; the model
      takes it rounded up to the whole second, which keeps
      `Before(published, cutoff)` exact for the whole-second dates `mktime`
      produces. */
  datatype DateTime = DateTime(year: int, month: int, day: int, hour: int, minute: int, second: int)

  /** Chronological order: field by field, most significant first. */
  predicate Before(a: DateTime, b: DateTime) {
    || a.year < b.year
    || (a.year == b.year && a.month < b.month)
    || (a.year == b.year && a.month == b.month && a.day < b.day)
    || (a.year == b.year && a.month == b.month && a.day == b.day && a.hour < b.hour)
    || (a.year == b.year && a.month == b.month && a.day == b.day && a.hour == b.hour && a.minute < b.minute)
    || (a.year == b.year && a.month == b.month && a.day == b.day && a.hour == b.hour && a.minute == b.minute
        && a.second < b.second)
  }

  /** A stored article. `published` is the parsed form of the ISO timestamp
      the source stores as text; `fetched_at` is a clock read and is not kept. */
  datatype Article = Article(
    id: string,
    title: string,
    url: string,
    source: string,
    category: string,
    published: DateTime,
    description: string,
    content: string)

  /** The ids of `articles`. */
  ghost function IdSet(articles: seq<Article>): set<string> {
    set a | a in articles :: a.id
  }

  lemma IdSetCons(articles: seq<Article>)
    requires |articles| > 0
    ensures IdSet(articles) == {articles[0].id} + IdSet(articles[1..])
  {
    assert forall b :: b in articles <==> b == articles[0] || b in articles[1..];
  }

  lemma IdSetSnoc(init: seq<Article>, last: Article)
    ensures IdSet(init + [last]) == IdSet(init) + {last.id}
  {
    assert forall b :: b in init + [last] <==> b in init || b == last;
  }
}
