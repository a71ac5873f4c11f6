# Austria safety reporter — a Dafny model of its news pipeline

The reporter collects safety news about Austria once a day. A run has four stages:

1. **Fetch** (`fetcher.py`) runs one news search per keyword. It keeps an entry only if all of these hold:
   - its date parses;
   - it is at most 24 hours old;
   - its publisher passes a two-stage allow-list (the source name, then the link's host);
   - its title mentions none of the terms on the exclusion list (German and Swiss place names and regions, and "DB", "Deutsche Bahn" and "Bundesrepublik");
   - its link has not been seen earlier in the run.

   The kept items are sorted newest first.
2. **Process** (`processor.py`) turns each new item into a record:
   - the title is cleaned of its " - Publisher" suffix and translated;
   - a summary of at most 1000 characters is scraped from the article. The link is first resolved through the aggregator's redirect decoder. Two fallbacks apply: paragraph text when extraction gives too little, and the feed summary when scraping gives nothing. Cookie banners are rejected.
3. **Dedup and history** (`main.py`) drops items whose link is in a persisted link history, and adds the new items' links to it.
4. **Site generation** (`web_generator.py`) puts the run's records in front of a persistent archive, without adding links already archived. Each record is inserted at the front in turn, so a run's records end up in reverse batch order. It then renders a home page and an archive page.

The modules follow the source files:

| Module | Source | What it holds |
|---|---|---|
| `Config` | `config.py` | The keyword lists and the publisher allow-list. |
| `Fetcher` | `fetcher.py` | `NewsFetcher` is a class holding its `seenLinks` set. `FetchNews` is proved against the spec functions `ScanFeeds`/`ScanEntries` and the stable newest-first sort `SortNewestFirst`. |
| `Processor` | `processor.py` | The cookie-banner heuristic, redirect resolution, scraping and summary composition, title cleaning, and the `process_news` loop. |
| `Web` | `web_generator.py` | `WebGenerator` is a class holding the archive file and the rendered pages. |
| `Pipeline` | `main.py` | `HistoryStore` holds the history file. `Run` is one execution of `main`. |

Support modules:

- `Strings` gives the Python string operations the source relies on: `lower`, `strip`, `in`, `startswith`/`endswith`, `replace`, `split`, `join` and `rsplit`.
- `Urls` models the `netloc` part of `urlparse`.
- `Seqs` gives order-preserving filtering, mapping and slicing.
- `Wrappers` gives `Option`.

Libraries and the outside world are parameters:

- the parsed feed of each search keyword (`feedFor`);
- the clock (`now`, in microseconds, and `nowIso`);
- the `Processor.Services` record: the redirect decoder, the HTTP fetch, the article extractor, the paragraph finder, the HTML-to-text cleaner, the translator and the date formatter;
- whether the fetch stage or the processor's construction raised.

In the source, `FetchNews` always searches `SEARCH_KEYWORDS`. Here it takes the keyword list as a parameter; `Config.SearchKeywords` holds the configured list.

Behaviour of the code as written:

- **Failed summary translation.** The title falls back to the untranslated text (processor.py:147-150). A failed summary translation gives an empty summary (processor.py:175-179), not the original text. The model follows the code.
- **Home page size.** With no news, the home page shows the first 10 archive entries (web_generator.py:67); the comment above that line says 20. The model follows the code.
- **In-batch duplicates.** The archive merge computes its link set once, before its loop, so two records of one batch with the same new link are both added (`Web.BatchDuplicatesBothAdded`).
- **Archive order.** Each record is inserted at the front of the archive in turn (web_generator.py:48-54). The batch arrives newest first, so within one run's block the archive is oldest first, while later runs' blocks come before earlier ones (`Web.PrependedIsReversedFresh`, `Web.MergeShape`). The no-news home page (web_generator.py:67) therefore shows the oldest ten records of the latest run that added any, when that run added at least ten.
- **Shared item records.** The merge writes `fetched_at` into the caller's item records, so the home page shows the stamped records. The model returns that stamped batch explicitly (`Web.Stamped`).
- **Exclusion by substring.** Excluded keywords are matched as substrings, ignoring case, so "Bern" excludes a title naming Oberndorf and "DB" one naming Feldbach (fetcher.py:38-45, config.py:32-37). The model matches the same way.
- **Aggregator links and the domain stage.** No publisher's domain key occurs in a `news.google.com` host, so for an aggregator link only the source-name stage can admit an item (fetcher.py:26-33).
- **Failed items enter the history.** Links of items whose processing failed are still added to the history (`Pipeline.HistoryCoversFetched`), so they are never retried.

## Model

| member | source | states |
|---|---|---|
| Fetcher.NewsFetcher.constructor | fetcher.py:9-10 | A new fetcher has seen no links. |
| Fetcher.NewsFetcher.IsAllowedSource | fetcher.py:12-36 | Returns exactly `AllowedSource`. A missing or empty source name is rejected. Otherwise the source is allowed if some allowed publisher name, lower-cased, occurs in the lower-cased source name. Failing that, it is allowed if some publisher's domain key occurs in the lower-cased host of the link. A link whose host cannot be parsed is rejected. |
| Fetcher.NewsFetcher.FindListed | fetcher.py:18-20 | The name loop returns true exactly when some list entry, lower-cased, occurs in the lowered text. |
| Fetcher.NewsFetcher.FindDomainKey | fetcher.py:28-32 | The domain loop returns true exactly when the domain key of some list entry occurs in the domain. |
| Fetcher.DomainKeyNormalised | fetcher.py:30 | A domain key has no ASCII capital, no space and no ä, ö or ü. |
| Fetcher.NewsFetcher.ContainsExcludedKeyword | fetcher.py:38-45 | True exactly when the text is non-empty and some excluded keyword occurs in it, ignoring case. |
| Fetcher.NewsFetcher.FetchNews | fetcher.py:47-114 | The result is the stable newest-first sort of what the feed scan collects. The seen-link set afterwards is the scan's. |
| Fetcher.StepSkips | fetcher.py:66-94 | An entry that fails a filter, or whose link was already seen, leaves the scan state unchanged. |
| Fetcher.ScanEntriesAppend | fetcher.py:65-106 | Scanning the entries `a + b` is scanning `a`, then `b`. |
| Fetcher.UndatedEntrySkipped | fetcher.py:67-72 | An entry whose date does not parse has no effect on the result. |
| Fetcher.ScanFeedsAppend | fetcher.py:53-109 | Scanning the keywords `a + b` is scanning `a`, then `b`. |
| Fetcher.MalformedFeedSkipped | fetcher.py:61-63 | A feed flagged as malformed contributes nothing. |
| Fetcher.StepKeepsInvariant | fetcher.py:76-106 | One step keeps the scan invariant. Every collected item is in the window, allowed, not excluded, and has a distinct link. Seen links are the initial ones plus the collected links. The seen set grows by the entry's link exactly when the entry passes the filters. Items already collected stay in front, and a new item carries the current keyword. |
| Fetcher.ScanEntriesKeepsInvariant | fetcher.py:65-106 | A feed's scan keeps that invariant. The seen set grows by exactly the links of the entries that pass the filters. Earlier items stay in front, and the feed's items carry its keyword. |
| Fetcher.ScanFeedsKeepsInvariant | fetcher.py:53-109 | The scan of all feeds keeps the invariant. Every item's keyword is one of the searched keywords. |
| Fetcher.InsertNewest | fetcher.py:113 | Insertion gives a permutation of the list plus the new item. |
| Fetcher.InsertNewestSorted | fetcher.py:113 | Insertion into a newest-first list keeps it newest first. |
| Fetcher.SortNewestFirst | fetcher.py:113 | The sort's result is sorted newest first and is a permutation of its input. |
| Fetcher.InsertNewestLinks | fetcher.py:113 | Insertion adds exactly the inserted item's link, and keeps links distinct when that link is new. |
| Fetcher.SortKeepsLinks | fetcher.py:113 | Sorting keeps the set of links and their distinctness. |
| Fetcher.InsertNewestAt | fetcher.py:113 | An inserted item goes before every item with the same timestamp. |
| Fetcher.SortStable | fetcher.py:113 | Among items with the same timestamp the sort keeps the original order, as Python's stable `sort(reverse=True)` does. |
| Fetcher.FetchProperties | fetcher.py:47-114 | The fetched list is sorted newest first. Every item passes all filters and carries a searched keyword. Links are distinct, and they are exactly the passing links not seen before. The seen set grows by exactly the passing links. |
| Urls.Netloc | fetcher.py:27 | The host part never contains `/`, `?`, `#`, a tab, CR or LF. |
| Urls.NetlocOfHost | fetcher.py:27 | For a valid scheme, a host free of `/ ? # [ ]`, tab, CR and LF, and a tail that is empty or starts with `/`, `?` or `#`, the network location of `scheme://host` plus the tail is exactly the host. |
| Urls.NetlocExample | fetcher.py:27 | The network location of `https://orf.at/x` is `orf.at`. |
| Processor.KeywordCountPositive | processor.py:40-43 | The keyword count is at least one exactly when some keyword occurs. |
| Processor.KeywordCountTwo | processor.py:40-46 | The keyword count reaches two exactly when two different listed keywords occur. |
| Processor.IsCookieConsentText | processor.py:26-54 | The keyword loop and tests return exactly the banner predicate `CookieConsent`. |
| Processor.ShortCookieTextIsBanner | processor.py:31-47 | Any text under 500 characters that mentions "cookies" counts both "cookie" and "cookies", so it is taken for a banner. |
| Processor.BannerCases | processor.py:26-54 | A text is a banner exactly when one of two things holds. Either it is non-empty, under 500 characters, and mentions two different listed phrases. Or, stripped and lower-cased, it starts with one of the two consent sentences. |
| Processor.ResolveRedirect | processor.py:56-68 | A link outside the aggregator's domain is returned unchanged. A decoded link is returned only when the decoder succeeded with a status. In every other case, a decoder exception included, the original link is returned. |
| Processor.FallbackParagraphs | processor.py:92-97 | The paragraph loop keeps, in order, exactly the stripped paragraphs over 60 characters that are not banners. |
| Processor.FallbackKept | processor.py:94-97 | Every kept paragraph is over 60 characters, is not a banner, and is a stripped input paragraph. |
| Strings.JoinSplit | processor.py:110 | Splitting the extracted text at line breaks loses nothing: joining the pieces with line breaks gives back the text. |
| Processor.ComposeIsPieces | processor.py:110-116 | The composed summary is the stripped lines over 30 characters, each followed by a space, taken from the leading lines the loop accepts. |
| Processor.ComposeStops | processor.py:113-114 | The loop stops at the first line that would take the summary past 1000 characters. |
| Processor.BeforeIsPieces | processor.py:110-116 | The summary text the loop holds on reaching a line, having accepted every line before it, is the starting text followed by the pieces of those lines. |
| Processor.TakenLinesFit | processor.py:112-116 | Every accepted line fitted within 1000 characters together with the summary before it. |
| Processor.ComposeBound | processor.py:110-116 | The summary under construction never exceeds 1000 characters beyond one trailing space. |
| Processor.SummaryBound | processor.py:109-118 | A stripped summary has at most 1000 characters. |
| Processor.ComposeSummary | processor.py:110-118 | The summary loop computes `Summary` of the text, and its result has at most 1000 characters. |
| Processor.ExtractedCases | processor.py:82-100 | The extractor's text is used when it has at least 100 characters. Otherwise, when any of the page's stripped paragraphs is kept (over 60 characters and not a banner), the first ten kept ones joined by line breaks replace it; when none is kept, the extractor's short or missing text stays. Nothing is extracted exactly when the extractor gave nothing and no paragraph was kept. |
| Processor.ScrapeCases | processor.py:70-122 | Scraping returns nothing exactly when one of these holds: the fetch fails, the status is not 200, the extracted text (after the paragraph fallback) is missing or empty, or that text is a banner. Otherwise it returns the composed summary of at most 1000 characters. |
| Processor.ScrapeArticleContent | processor.py:70-122 | The scraping method computes `Scrape`, and any summary it returns has at most 1000 characters. |
| Processor.CleanTitle | processor.py:135-143 | Cleaning never lengthens a title. |
| Processor.CleanTitleSplit | processor.py:138-143 | Consider a title that does not end with its source name. If it contains " - ", it is cut at the last " - ". If it does not, it is kept unchanged. |
| Processor.CleanTitleDropsSuffix | processor.py:137-138 | A title "head - Source", where " - Source" does not occur earlier, cleans to the stripped head. |
| Processor.CleanText | processor.py:18-24 | The cleaner leaves the empty text empty. |
| Processor.FeedSummary | processor.py:154-163 | The fallback fails exactly when cleaning the feed summary fails. It is never longer than the cleaned summary, and it is the cleaned summary itself when the source name is empty or does not occur in it. |
| Processor.FeedSummaryDropsSuffix | processor.py:160-163 | A cleaned feed summary "head - Source", in which the source name occurs only at the end, falls back to its head. |
| Processor.Truncate | processor.py:172-173 | A text of at most 1000 characters is kept. A longer one becomes its first 1000 characters followed by "...". |
| Processor.SummaryKo | processor.py:165-179 | An empty summary translates to the empty text. A non-empty translated summary is the translator's output for the truncated summary; a translator failure gives the empty text. |
| Processor.ProcessedCopies | processor.py:124-186 | An item fails exactly when scraping gives no text and the feed-summary cleaning raises. A record copies the item's title, link, source and keyword, and formats its date. The Korean title is the translation of the cleaned title, or the cleaned title when translation fails. The Korean summary is `SummaryKo` of the scraped text when that is non-empty, and otherwise of the fallback feed summary. |
| Processor.ProcessItem | processor.py:130-187 | One loop body computes the record `Processed` of the item, or fails. |
| Processor.ProcessAllAppend | processor.py:128-189 | Processing `a + b` gives the records of `a`, then those of `b`. |
| Processor.FailedItemSkipped | processor.py:128-194 | A failing item does not stop the others. The result is that of the list without it. |
| Processor.ProcessAllFromItems | processor.py:124-191 | There are at most as many records as items, and every record is that of some item. |
| Processor.ProcessNews | processor.py:124-191 | The loop computes `ProcessAll`: the records of the items, in order, skipping failures. |
| Web.Stamp | web_generator.py:51-52 | An added record gets a fetch time if it has none. A record that already has one keeps it. |
| Web.PrependedIsReversedFresh | web_generator.py:48-54 | The records put in front of the archive are the batch records with a new link, stamped, in reverse batch order. |
| Web.MergeShape | web_generator.py:44-54 | The merged archive is the added records followed by the loaded archive, whole and in order. Its length is the loaded length plus the number added, which is at most the batch size. |
| Web.AddedIff | web_generator.py:45-53 | A batch record is added exactly when its link is not among the links of the archive as loaded. Every added record comes from the batch. |
| Web.AddedStamped | web_generator.py:51-53 | Every added record carries a fetch time, and a fetch time the batch record already had is kept. |
| Web.BatchDuplicatesBothAdded | web_generator.py:45-54 | Two batch records sharing a new link, whatever else they differ in, are both added, the later one in front. |
| Web.MergeAgainAddsNothing | web_generator.py:45-53 | Merging the same batch again, at any later time, leaves the archive unchanged. |
| Web.HomePage | web_generator.py:63-67 | A run with news shows that news on the home page. A run without news shows the first ten archive entries, which that run left unchanged. The home page is empty only when both are. |
| Web.WebGenerator.Loaded | web_generator.py:27-35 | A missing or unreadable archive file reads as the empty archive; a readable one reads as the stored archive. |
| Web.WebGenerator.UpdateArchive | web_generator.py:42-58 | The merge loop leaves these results: the archive `Merge` of the loaded archive and the batch, now also saved; the batch stamped where added; the count of records added. |
| Web.WebGenerator.GenerateSite | web_generator.py:60-79 | The archive is saved merged and rendered whole. The home page shows the stamped news, or without news the first ten archive entries. |
| Pipeline.UnseenExact | main.py:43-50 | The new items are exactly the fetched items whose link is not in the history. |
| Pipeline.SeenItemIgnored | main.py:44-50 | An item whose link is in the history has no effect on the new items or their order. |
| Pipeline.DedupNew | main.py:43-50 | The dedup loop keeps, in fetch order, exactly the items whose link is not in the history. |
| Pipeline.AddToHistory | main.py:66-67 | The history update adds exactly the new items' links. |
| Pipeline.HistoryCoversFetched | main.py:43-67 | After a completed run the history has only grown, and it contains every fetched link, including links whose processing failed. |
| Pipeline.SecondRunFindsNothing | main.py:43-70 | A second run over the same fetched items, with the history the first run left, finds no new items and saves nothing. |
| Pipeline.SavedIffNewItems | main.py:54-74 | The history is saved exactly when there were new items, and a run that does not save keeps it unchanged. A run completes exactly when the fetch succeeded and, if the processor raises, nothing was new. |
| Pipeline.ProcessedFromNew | main.py:59-63 | A completed run has at most as many records as new items. Each record is that of a fetched item whose link was not in the history. |
| Pipeline.HistoryStore.Loaded | main.py:11-18 | A missing or unreadable history file reads as the empty history; a readable one reads as the stored set of links. |
| Pipeline.HistoryStore.Save | main.py:20-23 | Saving replaces the file's content by the given history. |
| Pipeline.Run | main.py:27-79 | Takes the fetch stage's result as an input (`fetched: Option<seq<NewsItem>>`, `None` when fetching raised) instead of calling `NewsFetcher.FetchNews`, so none of its clauses relies on the fetch's sorted, distinct links. The run's outcome is `RunSpec`. The history file changes only when the run saved, and then holds the grown history. A completed run saves the merged archive, renders it on the archive page, and shows on the home page its stamped records, or without any the first ten archive entries. A failing run leaves the site untouched. |

## Left out

- **Network, parsing, extraction and translation.** Feed retrieval and parsing, HTTP, article extraction, HTML parsing, redirect decoding and translation are not modelled. Each is a parameter (`feedFor`, `Processor.Services`), taken as an arbitrary function.
- **Per-entry clock.** The source reads the clock again for every entry (fetcher.py:76) and for every archived record (web_generator.py:52). The model uses one `now` per fetch and one `nowIso` per merge.
- **Date handling.** Parsing dates into local time (fetcher.py:68-69) and `strftime` are not modelled. An unparsable date is an absent `published`; formatting is the `formatTime` parameter.
- **Exceptions inside a feed.** An exception raised while reading the attributes of one feed entry abandons the rest of that feed (fetcher.py:108-109). This is not modelled; only feeds flagged as malformed and undated entries are skipped.
- **Library exceptions while scraping.** Failures inside the extractor or the HTML parser (processor.py:120-122) are not modelled. Only the fetch can fail, and the extractor can return nothing.
- **Unreadable archive records.** An archive record without a `link` would raise at web_generator.py:45. Archive records are typed, so this cannot occur in the model.
- **Write errors.** `save_history` swallows write errors (main.py:24-25) and `save_archive` can raise. In the model both writes always succeed.
- **Output stages.** The PDF and text reports (reporter.py), opening the PDF, the `GITHUB_ACTIONS` check, the search page, template rendering and console output are not modelled.
- **Timestamp type.** `str(item['published'])` for a non-datetime date (processor.py:185) is folded into `formatTime`.
- **Fetch errors.** Errors in the fetch stage are an input (`None`). An exception escaping the processor can only come from its construction, so it is the `processorRaises` input.
- Strings.Lower: maps only ASCII and Latin-1 capitals; other Unicode case mappings of Python's `str.lower` are not modelled.
- Urls.Netloc: covers `urlsplit` only as far as the network location. The content checks of bracketed IPv6 hosts are not modelled, nor is the check of a non-ASCII network location whose NFKC normal form contains `/`, `?`, `#`, `@` or `:`: the library raises there (so `is_allowed_source` rejects such a link), while the model returns the location as written.
- Processor.CleanTitle: its own contract states only the length bound. `CleanTitleSplit` states the cases without the source name at the end; for a title ending in its source name, `CleanTitleDropsSuffix` states the result only when " - <source>" occurs once, at the end.
- Processor.CleanText: its own contract states only the empty case. The cleaner's output is the parameter `cleanHtml`.
