# newsforllms: a Dafny model of the event and article pipeline

This project models the text and list processing of *newsforllms*. The pipeline
reads a Wikipedia "year" page and a set of RSS feeds. It turns them into
month-by-month digests sized for language models. The model covers four parts:

- **Wikipedia event extraction** (`wikipedia_scraper.py`). This part has four steps:
  - `clean_event_text`;
  - the list filter, month-date test and sub-event labelling of `parse_events`;
  - the de-duplication, scoring, ranking and cut of `extract_key_events`;
  - the month headings of `format_for_llm`, and the character escaping of `generate_simple_html`.
- **Article post-processing** (`news_processor.py`): keyword categorisation, title de-duplication, the summary used when no language model is available, and grouping by month.
- **Token-budgeted rendering** (`html_generator.py`): the token estimate, the anchors, the greedy budget loop of a month section, the month loop, and rebuilding each month's article list from ids.
- **Article store** (`news_aggregator.py`): the `seen_urls` skip of `fetch_rss_feed`, its use across feeds, and the merge into the database where stored articles win.

Everything is a pure function over immutable data. The parsed Wikipedia page is
a sequence of list nodes in document order. Each node carries its flattened
text and its direct items. Each item carries its flattened text and the texts
of the direct items of its first nested list. Network access, HTML parsing, the
clock, the MD5 digest, the language model and the page templates are left out.
Where their results are needed they become parameters:

- `now` and `cutoff` stand for the clock;
- `idOf` stands for the MD5 id;
- `render` stands for `format_article`;
- `frame` holds the static header, introduction and footer;
- the publication date string is passed to the fallback summary.

Modules:

- `Wrappers`: `Option`.
- `Seqs`: subsequences and distinct keys.
- `Text`: ASCII versions of the `str` and `re` operations used.
- `Sorting`: a sort by a comparison, with uniqueness of the sorted result.
- `Dedup`: the "first of each key" loop shared by both de-duplicators.
- `Clean`, `WikiEvents`, `KeyEvents`, `Digest`: the scraper.
- `Articles`, `NewsProcessor`, `HtmlGenerator`, `NewsAggregator`: the article pipeline.

Points where the code's behaviour is easy to misread:

- **Parent text includes nested text.** A parent item's text includes the text of its nested list, because `li.get_text()` is taken on the whole item (`wikipedia_scraper.py:58-59`).
- **Cleaning is not idempotent.** Removing `[1]` from `[[1]2]` exposes a new marker `[2]`.
  - `Clean.CleanNotIdempotent` proves this.
  - Idempotence is proved only when the cleaned text has no `[`.
- **Sub-events are not matched against the date pattern.** Any cleaned nested item longer than 20 characters is kept, with the parent's date part in front.
- **The 30-character rule keeps only events longer than 30 characters.** An event of exactly 30 characters is dropped.
- **Key events come out in rank order.** The order is score descending, then text ascending, not first-occurrence order.
- **No citations and no date checks.** Nothing resolves citations or filters events by date. A day number is any run of digits; it is not checked against the month.
- **The budget keeps a prefix.** It cuts the article list at the first article that does not fit, in the given order. It does not drop the lowest-priority content first.

## Model

| member | source | states |
|---|---|---|
| Clean.RemoveCitations | wikipedia_scraper.py:84 | text without `[` passes through unchanged, and removal never lengthens the text; the three lemmas below pin the rest of the scan |
| Clean.RemoveCitationsKeepsPrefix | wikipedia_scraper.py:84 | text before the first `[` is kept as it is, and removal goes on in the rest |
| Clean.RemoveCitationsDropsMarker | wikipedia_scraper.py:84 | a whole `[digits]` marker after `[`-free text is removed, and removal goes on after it |
| Clean.RemoveCitationsKeepsBracket | wikipedia_scraper.py:84 | a `[` at which no marker starts is kept, and removal goes on after it |
| Clean.CitationLength | wikipedia_scraper.py:84 | a positive result is exactly the length of a `[digits]` match at the start; zero means no match there |
| Clean.RemoveEditMarks | wikipedia_scraper.py:87 | text without `[` passes through unchanged, and removal never lengthens the text; the three lemmas below pin the rest of the scan |
| Clean.RemoveEditMarksKeepsPrefix | wikipedia_scraper.py:87 | text before the first `[` is kept as it is, and removal goes on in the rest |
| Clean.RemoveEditMarksDropsMark | wikipedia_scraper.py:87 | a `[edit]` after `[`-free text is removed, and removal goes on after it |
| Clean.RemoveEditMarksKeepsBracket | wikipedia_scraper.py:87 | a `[` that does not start `[edit]` is kept, and removal goes on after it |
| Clean.Tidy | wikipedia_scraper.py:88-97 | the result is the words of the input (its maximal whitespace-free runs), in order, joined by single spaces; so it is normalised and no interior run is lost |
| Clean.CleanEventText | wikipedia_scraper.py:81-97 | the result is the words of the citation- and edit-free text, in order, joined by single spaces: no whitespace at either end, no line break, every whitespace run one space |
| Clean.CleanFixesNormalized | wikipedia_scraper.py:84-97 | normalised text without `[` is left unchanged |
| Clean.CleanIdempotentWithoutBrackets | wikipedia_scraper.py:84-97 | cleaning twice equals cleaning once whenever the first result has no `[` |
| Clean.CleanNotIdempotent | wikipedia_scraper.py:84 | `[[1]2]` cleans to `[2]`, which cleans to the empty string: cleaning is not idempotent |
| Text.CollapseSpaces | wikipedia_scraper.py:88 | every whitespace run becomes one space: the result has the same words in order, single spaces only, and whitespace at either end exactly where the input has it |
| Text.CollapseFixed | wikipedia_scraper.py:88 | already collapsed text is a fixed point |
| Text.StripCollapse | wikipedia_scraper.py:88-97 | collapsing whitespace runs and stripping both ends gives the words of the text joined by single spaces |
| Text.Strip | wikipedia_scraper.py:97 | the result is the input minus its leading and trailing whitespace, with non-whitespace at both ends |
| Text.Split | wikipedia_scraper.py:75 | there is at least one piece and no piece contains the separator |
| Text.JoinSplit | news_processor.py:122-123 | joining the pieces of a split with the same separator gives back the text |
| Text.Find | news_processor.py:122 | the leftmost occurrence of the substring, or None exactly when it occurs nowhere |
| WikiEvents.MatchesMonth | wikipedia_scraper.py:48 | true exactly when the text begins with that month's name, whitespace, then a digit |
| WikiEvents.DateMonth | wikipedia_scraper.py:62-64 | the first month whose name-date pattern starts the text; None exactly when no month matches |
| WikiEvents.SkipList | wikipedia_scraper.py:52-55 | a list is skipped exactly when "Toggle" or "Contents" occurs in its text or the text is shorter than 100 characters |
| WikiEvents.DatePart | wikipedia_scraper.py:75 | the stripped text before the first en dash, em dash or colon, found by one scan independent of the three splits |
| WikiEvents.DatePartKeepsDate | wikipedia_scraper.py:75 | the date part cut from a dated text still begins with the same month date |
| WikiEvents.LabelLong | wikipedia_scraper.py:71-77 | one label `date part: text` per cleaned text longer than 20 characters, in the same order and number as `LongTexts` selects them |
| WikiEvents.LongTextsFilter | wikipedia_scraper.py:73 | the selected texts are exactly the cleaned texts longer than 20 characters, in order, each as often as it occurs |
| WikiEvents.SubEvents | wikipedia_scraper.py:71-77 | the i-th sub-event is the date part, `: ` and the i-th nested text that is longer than 20 characters after cleaning; every sub-event begins with the date part |
| WikiEvents.ItemContribution | wikipedia_scraper.py:57-77 | an item adds events exactly when its cleaned text begins with a month date; they go to the first matching month, the cleaned text first, followed by its sub-events |
| WikiEvents.ItemContributionDated | wikipedia_scraper.py:62-77 | every event an item adds, parent and sub-events alike, begins with the month date of its bucket |
| WikiEvents.SubEventsDated | wikipedia_scraper.py:75-77 | sub-events inherit the month date of the parent's date part |
| WikiEvents.ParseEvents | wikipedia_scraper.py:38-79 | exactly 12 buckets named January to December in calendar order, each holding the page's events for that month in document order |
| WikiEvents.BucketsAreDated | wikipedia_scraper.py:62-77 | every string in bucket m begins with month m's name, whitespace and a digit |
| WikiEvents.SkippedListIgnored | wikipedia_scraper.py:53-55 | a list containing "Toggle" or "Contents" or shorter than 100 characters changes no bucket |
| WikiEvents.KeptListContributes | wikipedia_scraper.py:57-77 | a list that passes the filter contributes, to each month, exactly its items' events for that month |
| WikiEvents.SingleListEvents | wikipedia_scraper.py:51-58 | a single list yields nothing when skipped and otherwise all its items' contributions |
| WikiEvents.SameEventsSameBuckets | wikipedia_scraper.py:44-79 | the buckets depend only on the sequence of dated events read from the page |
| Dedup.UniqueBy | wikipedia_scraper.py:102-109 | the kept elements form a subsequence of the input with unseen, pairwise distinct keys, and their keys are exactly the keys of the eligible input elements not seen before |
| Dedup.UniqueByKeepsFirst | wikipedia_scraper.py:102-109 | each kept element is the first eligible element of the input with its key |
| Dedup.UniqueByIdempotent | news_processor.py:138-146 | de-duplicating a de-duplicated sequence changes nothing |
| KeyEvents.UniqueEvents | wikipedia_scraper.py:102-109 | an order-preserving subsequence of events longer than 30 characters with distinct keys, covering every key of a long input event, each the first long event with its key |
| KeyEvents.DedupKey | wikipedia_scraper.py:106 | the key has the words of the lower-cased event, in order, single spaces between them, and a space at either end exactly where the event has whitespace |
| KeyEvents.KeywordHits | wikipedia_scraper.py:129-132 | the number of priority keywords that occur in the lower-cased text |
| KeyEvents.Score | wikipedia_scraper.py:124-142 | two points per priority keyword occurring in the lower-cased event, 1 for more than 100 characters, 3 for more than 200, 1 for a leading month date; at most 2 * 43 + 4 |
| KeyEvents.RanksTotalPreorder | wikipedia_scraper.py:147 | the sort key orders every pair and is transitive |
| KeyEvents.RanksAntisymmetric | wikipedia_scraper.py:147 | two scored events that rank each other are equal, so the sort key is a total order |
| KeyEvents.Ranked | wikipedia_scraper.py:144-147 | the scored events, reordered, sorted by score descending and then text ascending |
| KeyEvents.RankedUnique | wikipedia_scraper.py:147 | every sorted reordering of the scored events is the same list, whatever the sorting algorithm |
| KeyEvents.KeyEventsShape | wikipedia_scraper.py:99-149 | at most `max_per_month` results, each an input event longer than 30 characters and the first such event with its key, no two sharing a key, ordered by score descending then text ascending |
| KeyEvents.KeyEventsAreTop | wikipedia_scraper.py:147-149 | a de-duplicated event left out is ranked after every kept event, and is only left out when `max_per_month` events were kept |
| Digest.ListedFrom | wikipedia_scraper.py:160-165 | the positions of the months with events and non-empty key events, strictly increasing |
| Digest.ListedComplete | wikipedia_scraper.py:160-165 | no month with events and non-empty key events is missed |
| Digest.FormatForLlm | wikipedia_scraper.py:151-170 | the year and source are carried over, and one entry `<Month> <year>` with its non-empty key events is made for each listed month, in bucket order |
| Digest.DigestOfPage | wikipedia_scraper.py:160-168 | on a parsed page the headings are month names in calendar order, and every month with non-empty key events gets one |
| Digest.EscapeHtml | wikipedia_scraper.py:257 | the escaped event contains no `<` and no `>` |
| Digest.EscapeHtmlPerChar | wikipedia_scraper.py:257 | because `&` is replaced first, the three passes escape each character independently |
| Digest.UnescapeEscape | wikipedia_scraper.py:257 | decoding the three entities gives back the original event |
| Digest.AmpersandsAreEntities | wikipedia_scraper.py:257 | every `&` of an escaped event starts `&amp;`, `&lt;` or `&gt;` |
| NewsProcessor.AnyContained | news_processor.py:72 | true exactly when some keyword is a substring of the text |
| NewsProcessor.MatchedFrom | news_processor.py:71-73 | strictly increasing positions of categories with a keyword in the text |
| NewsProcessor.MatchedComplete | news_processor.py:71-73 | every category with a keyword in the text is matched |
| NewsProcessor.SearchText | news_processor.py:50-51 | the searched text is the lower-cased title, description and content, each in its place, separated by spaces |
| NewsProcessor.Categorize | news_processor.py:48-79 | at most 3 distinct tags: the first three matching categories in list order, or `["Politics"]` for a "politics" or "world" article with no match, or nothing |
| NewsProcessor.NormalizeTitle | news_processor.py:140 | the key holds only lower-case letters and digits and is no longer than the title |
| NewsProcessor.NormalizeTitleFilter | news_processor.py:140 | the key holds exactly the lower-case letters and digits of the lower-cased title, in order, each as often as there |
| NewsProcessor.NormalizeAppend | news_processor.py:140 | the key of a concatenation is the concatenation of the keys |
| NewsProcessor.NormalizeSnoc | news_processor.py:140 | appending a character appends its lower-cased form exactly when that is a letter or digit |
| NewsProcessor.NormalizeIgnores | news_processor.py:140 | removing a character other than a letter or digit leaves the key unchanged |
| NewsProcessor.DeduplicateArticles | news_processor.py:133-146 | an order-preserving subsequence with pairwise distinct normalised titles that covers every input title's key, each article the first with its key |
| NewsProcessor.DeduplicateIdempotent | news_processor.py:133-146 | de-duplicating twice equals de-duplicating once |
| NewsProcessor.TagLength | news_processor.py:116 | a positive result is exactly the length of a `<[^>]+>` match at the start; zero means no match there |
| NewsProcessor.StripTags | news_processor.py:116 | the result is never longer than the text; the lemmas below pin what is kept |
| NewsProcessor.StripTagsNoOpen | news_processor.py:116 | text without `<` is unchanged |
| NewsProcessor.StripTagsChars | news_processor.py:116 | the result has no character the input lacks |
| NewsProcessor.StripTagsKeepsPrefix | news_processor.py:116 | text before the first `<` is kept as it is, and removal goes on in the rest |
| NewsProcessor.StripTagsDropsTag | news_processor.py:116 | a whole `<[^>]+>` tag after `<`-free text is removed, and removal goes on after it |
| NewsProcessor.StripTagsKeepsBracket | news_processor.py:116 | a `<` at which no tag starts is kept, and removal goes on after it |
| NewsProcessor.StripTagsTagFree | news_processor.py:116 | no tag is left after removal |
| NewsProcessor.StripTagsIdempotent | news_processor.py:116 | removing tags twice equals removing them once |
| NewsProcessor.CleanDescription | news_processor.py:115-117 | the description is the words of the tag-free text, in order, joined by single spaces |
| NewsProcessor.LeadSentences | news_processor.py:120-123 | the lead is a prefix of the description, and the whole description when it has at most one `. ` break |
| NewsProcessor.LeadSentencesCut | news_processor.py:120-123 | the lead is the description cut just before its second `. ` break |
| NewsProcessor.SecondBreak | news_processor.py:122-123 | a `. ` starts at the cut, after an earlier `. `; the cut is the end of the text only when no two `. ` breaks are apart |
| NewsProcessor.FallbackSummary | news_processor.py:112-131 | the summary ends with ` (Published: <date>)`; before it comes the cleaned description when it has at most 200 characters, else the description cut just before its second `. ` break, followed by `.` |
| NewsProcessor.AddArticle | news_processor.py:152-157 | the article is appended to its month's group, or opens a new group at the end; the other groups are unchanged |
| NewsProcessor.Collect | news_processor.py:150-157 | one group per month present, with distinct months |
| NewsProcessor.CollectGroups | news_processor.py:150-157 | each collected group is non-empty and holds exactly its month's articles in input order |
| NewsProcessor.GroupByMonth | news_processor.py:148-164 | months strictly decreasing; every group non-empty and holding exactly its month's articles in input order; one group per month present |
| NewsProcessor.SortedGroups | news_processor.py:159-162 | ordering the groups newest month first keeps each group and its contents, and the months come out strictly decreasing |
| NewsProcessor.ArticleInItsGroup | news_processor.py:152-157 | every article is in the group of its publication month and in no other group |
| HtmlGenerator.EstimateTokens | html_generator.py:18-20 | the estimate is the length divided by 4, rounded down |
| HtmlGenerator.Anchor | html_generator.py:175 | same length as the month label, spaces become `_`, letters are lower-cased, no space remains |
| HtmlGenerator.FillBudget | html_generator.py:178-191 | the written articles are a prefix of the list; the notice comes once, last, exactly when an article was cut, and only when that article would pass the budget; the count grows by the written articles' estimates and stays within the budget |
| HtmlGenerator.WrittenArticlesFit | html_generator.py:181-191 | every article written fitted in the budget when it was written |
| HtmlGenerator.MonthSection | html_generator.py:173-193 | the section is its heading, the rendered articles before the first that does not fit, and the notice exactly when one did not fit; the count grows by the written articles and stays within the budget |
| HtmlGenerator.MonthSections | html_generator.py:231-235 | the result is the first `months` sections written one after another; the count was below the budget before each of them, and a month is left out only once the budget is reached |
| HtmlGenerator.ById | html_generator.py:217 | keys are the article ids, and each id maps to the last article with that id |
| HtmlGenerator.Reconstruct | html_generator.py:222 | each article is the stored one for its id, and every known id is present |
| HtmlGenerator.ReconstructKnownIds | html_generator.py:222 | the ids of the result are exactly the known ids, in order, each as often as it occurs: repeated known ids are kept |
| HtmlGenerator.Toc | html_generator.py:129-144 | the contents are the fixed opening markup, then exactly one line per month in the order of the months, naming the month and its story count (also months whose section the budget cuts off), then the fixed closing markup, with nothing else in between |
| HtmlGenerator.TocSnoc | html_generator.py:136-142 | one more month appends exactly its own line just before the closing markup and leaves the earlier lines as they were |
| HtmlGenerator.GenerateHtml | html_generator.py:207-246 | no articles give an empty page; otherwise the page is the header, the introduction and the contents, then exactly the month sections written within the budget, then the footer; only article markup is counted: the count is the month sections' count, never falls, and stays within the budget when it starts within it |
| NewsAggregator.FetchFeed | news_aggregator.py:17-61 | the feed fails exactly when a fresh, recent entry cannot be built, and then yields nothing; unless it fails, every link of the feed ends up recorded, stale and skipped entries included; each article has a new, distinct link, the feed's source and category and a recent date |
| NewsAggregator.FetchFeedStopsAt | news_aggregator.py:23-61 | a failing feed stops at its first raising entry, and the links recorded up to and including that entry stay recorded, although no articles are returned |
| NewsAggregator.FetchFeedSelects | news_aggregator.py:17-61 | unless the feed failed, its articles are those of the entries that are first with a new link and recent, built from them, in entry order |
| NewsAggregator.FetchFeedKeeps | news_aggregator.py:23-55 | unless the feed failed, every recent entry with a new link becomes an article |
| NewsAggregator.FetchAll | news_aggregator.py:63-76 | across all feeds, each link yields at most one article, never one seen before |
| NewsAggregator.FetchAllSnoc | news_aggregator.py:66-71 | one more feed extends the collected articles by exactly that feed's articles, fetched with the links the earlier feeds left seen, and the seen links become those the feed leaves |
| NewsAggregator.Merge | news_aggregator.py:107-125 | keys are the old keys plus the new ids; stored articles are never overwritten; a new id stores its first article |
| NewsAggregator.MergeIdempotent | news_aggregator.py:112-115 | merging the same articles again changes nothing |
| Sorting.Sort | news_processor.py:160-162 | a reordering of the input, sorted by the comparison |
| Sorting.SortedUnique | wikipedia_scraper.py:147 | two sorted reorderings of the same elements agree when the comparison separates distinct elements |

## Left out

- Network access, `feedparser`, `requests` and BeautifulSoup: the parsed page is a sequence of list nodes, and each feed a sequence of parsed entries.
- File and JSON persistence and printing: `scrape_and_save`, `save_raw_articles`, the `load_*` functions, `process_articles`, and the writes in `generate_html` and `merge_with_database`.
- The clock: `now` and `cutoff` are parameters of the aggregator. Dates are whole seconds; `cutoff` is the year-old moment rounded up to the whole second, so comparing a whole-second `mktime` date with it decides as the microsecond comparison does. `last_updated`, `fetched_at` and `generate_intro` are not modelled.
- `summarize_article_llm` and the OpenAI client: a foreign call.
- `filter_recent_articles`, `generate_markdown` and the page text of `generate_simple_html` other than the per-event escaping: outside the modelled core.
- The MD5 id: a parameter `idOf` of the link.
- `format_article` and its `%B %d, %Y` date: a parameter `render`, and a date-string parameter of the fallback summary.
- The static header, introduction and footer templates: a parameter `frame`.
- Clean.Tidy: the quote replacement at `wikipedia_scraper.py:91-92` is skipped. Line 91 replaces a character by itself. Line 92's `'''` opens a triple-quoted string, so the line is a single `replace` of the fifteen-character text `, "'").replace(` by `'`, and this member does not do it: on `a, "'").replace(b` the source gives `a'b`, and the model leaves the text unchanged. It is left out because the two lines evidently meant to straighten typographic quotes, and the literal that line 92 matches is a quoting slip that event text from a page does not contain in practice; the model keeps to the whitespace and marker cleaning.
- Clean.CleanEventText: the same line-92 replacement is skipped, because it calls `Clean.Tidy` (see above). `Clean.CleanFixesNormalized` and `Clean.CleanIdempotentWithoutBrackets` hold for this model only. In the source, text that contains that fifteen-character piece, or that forms it after one replacement, is changed again by a second pass.
- Unicode case mapping and the Unicode `\s` and `\d` classes: `Lower`, `IsSpace` and `IsDigit` are ASCII-only. Python's `\d` also matches the other Unicode decimal digits, which the model does not accept.
- The final sort of `fetch_all_sources` by publication date: ties are resolved by Python's stable sort, which the model does not track.
- `NewsAggregator.Raises`: the only exceptions modelled are a missing title and an empty content list. Failures of a missing link, and of a date attribute present but `None`, are not modelled.
- `NewsProcessor.GroupByMonth`: groups are keyed by (year, month) instead of the `%B %Y` label that names that pair. `strptime` parsing of the label is not modelled.
- `HtmlGenerator.GenerateHtml`: the page receives the month lists as a sequence with distinct labels (a JSON object), and `MAX_OUTPUT_TOKENS` (5000 in config.py) is the parameter `maxTokens`.
- `Digest.FormatForLlm`: the year is a natural number and `max_per_month` a natural number. Python's negative slice bounds are not modelled.
- `KeyEvents.ExtractKeyEvents`: its contract is stated by `KeyEvents.KeyEventsShape` and `KeyEvents.KeyEventsAreTop`.
