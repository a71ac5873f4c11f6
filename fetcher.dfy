/**
 * The news fetcher (fetcher.py): the publisher allow-list, the regional
 * exclusion list, the strict 24-hour window and the per-run link
 * deduplication applied to every entry of every keyword's search feed,
 * followed by a newest-first stable sort.
 *
 * Feed retrieval and parsing are outside the model: the feed for a search
 * keyword is a parameter `feedFor`, and an entry whose date could not be
 * parsed has no `published` value. Timestamps are integers in
 * microseconds, and `now` is one value for the whole fetch.
 */
module Fetcher {
  import opened Wrappers
  import opened Strings
  import opened Config
  import Urls

  /** One entry of a parsed search feed. `source` and `summary` are absent
      when the entry has no such attribute; `published` is absent when its
      date does not parse. */
  datatype Entry = Entry(
    title: string,
    link: string,
    published: Option<int>,
    source: Option<string>,
    summary: Option<string>)

  /** A parsed search feed; `bozo` is the parser's "malformed feed" flag. */
  datatype Feed = Feed(bozo: bool, entries: seq<Entry>)

  /** A news item as the fetcher emits it. */
  datatype NewsItem = NewsItem(
    title: string,
    link: string,
    published: int,
    source: string,
    summary: string,
    keyword: string)

  /** 24 hours, in microseconds. */
  const Day: int := 24 * 60 * 60 * 1000000

  /** The strict window: at most 24 hours old (exactly 24 hours is kept). */
  predicate WithinWindow(published: int, now: int)
  {
    now - published <= Day
  }

  /** Some entry of `list`, lower-cased, occurs in the lower-cased text `lowered`. */
  predicate ListedIn(list: seq<string>, lowered: string)
  {
    exists i :: 0 <= i < |list| && IsSubstring(Lower(list[i]), lowered)
  }

  /** Some allowed publisher name, lower-cased, occurs in the lower-cased source name. */
  predicate NameAllowed(name: string)
  {
    ListedIn(AllowedSources, Lower(name))
  }

  /** An allowed publisher name as it would appear in a host name: lower-cased,
      spaces removed, and ä, ö, ü spelled ae, oe, ue (ß is left alone). */
  function DomainKey(allowed: string): string
  {
    ReplaceAll(ReplaceAll(ReplaceAll(ReplaceAll(Lower(allowed), " ", ""), "ä", "ae"), "ö", "oe"), "ü", "ue")
  }

  /** A domain key has no capital ASCII letter, no space and no ä, ö or ü. */
  lemma DomainKeyNormalised(allowed: string)
    ensures var k := DomainKey(allowed);
      && ' ' !in k && 'ä' !in k && 'ö' !in k && 'ü' !in k
      && forall i :: 0 <= i < |k| ==> !('A' <= k[i] <= 'Z')
  {
    var l := Lower(allowed);
    var k1 := ReplaceAll(l, " ", "");
    var k2 := ReplaceAll(k1, "ä", "ae");
    var k3 := ReplaceAll(k2, "ö", "oe");
    var k4 := ReplaceAll(k3, "ü", "ue");
    forall c | 'A' <= c <= 'Z'
      ensures c !in k4
    {
      assert c !in l;
      ReplaceKeepsAbsent(l, " ", "", c);
      ReplaceKeepsAbsent(k1, "ä", "ae", c);
      ReplaceKeepsAbsent(k2, "ö", "oe", c);
      ReplaceKeepsAbsent(k3, "ü", "ue", c);
    }
    forall i | 0 <= i < |k4|
      ensures !('A' <= k4[i] <= 'Z')
    {
      assert k4[i] in k4;
    }
    ReplaceCharRemoves(l, ' ', "");
    ReplaceKeepsAbsent(k1, "ä", "ae", ' ');
    ReplaceKeepsAbsent(k2, "ö", "oe", ' ');
    ReplaceKeepsAbsent(k3, "ü", "ue", ' ');
    ReplaceCharRemoves(k1, 'ä', "ae");
    ReplaceKeepsAbsent(k2, "ö", "oe", 'ä');
    ReplaceKeepsAbsent(k3, "ü", "ue", 'ä');
    ReplaceCharRemoves(k2, 'ö', "oe");
    ReplaceKeepsAbsent(k3, "ü", "ue", 'ö');
    ReplaceCharRemoves(k3, 'ü', "ue");
  }

  /** The domain key of publisher `allowed` occurs in `domain`. */
  predicate KeyInDomain(allowed: string, domain: string)
  {
    IsSubstring(DomainKey(allowed), domain)
  }

  /** The domain key of some entry of `list` occurs in `domain`. */
  predicate KeyListedIn(list: seq<string>, domain: string)
  {
    exists i :: 0 <= i < |list| && KeyInDomain(list[i], domain)
  }

  /** The domain stage of the allow-list: the lower-cased host of `link`
      matches; false when the host cannot be parsed. */
  predicate DomainAllowed(link: string)
  {
    match Urls.Netloc(link)
    case None => false
    case Some(host) => KeyListedIn(AllowedSources, Lower(host))
  }

  /** The two-stage allow-list: a non-empty source name is needed, and then
      either the name or the link's host must match. */
  predicate AllowedSource(sourceName: Option<string>, link: string)
  {
    match sourceName
    case None => false
    case Some(name) => name != [] && (NameAllowed(name) || DomainAllowed(link))
  }

  /** Some excluded keyword occurs, ignoring case, in a non-empty text. */
  predicate ExcludedKeyword(text: string)
  {
    text != [] && ListedIn(ExcludedKeywords, Lower(text))
  }

  /** The source name the fetcher uses: the feed's own, or "Unknown". */
  function SourceName(e: Entry): string
  {
    e.source.GetOr("Unknown")
  }

  /** The filters of the fetch loop that do not depend on the links seen so far. */
  predicate PassesFilters(e: Entry, now: int)
  {
    && e.published.Some?
    && WithinWindow(e.published.value, now)
    && AllowedSource(Some(SourceName(e)), e.link)
    && !ExcludedKeyword(e.title)
  }

  function ToItem(e: Entry, keyword: string): NewsItem
    requires e.published.Some?
  {
    NewsItem(e.title, e.link, e.published.value, SourceName(e), e.summary.GetOr(""), keyword)
  }

  /** The fetch loop's state: the items kept so far and the links seen so far. */
  datatype ScanState = ScanState(found: seq<NewsItem>, seen: set<string>)

  /** One iteration of the entry loop: an entry that passes the filters and
      whose link has not been seen is collected and its link recorded. */
  function Step(e: Entry, keyword: string, now: int, st: ScanState): ScanState
  {
    if PassesFilters(e, now) && e.link !in st.seen
    then ScanState(st.found + [ToItem(e, keyword)], st.seen + {e.link})
    else st
  }

  /** The entries of one feed, processed in order from state `st`. */
  function ScanEntries(entries: seq<Entry>, keyword: string, now: int, st: ScanState): ScanState
    decreases |entries|
  {
    if entries == [] then st
    else ScanEntries(entries[1..], keyword, now, Step(entries[0], keyword, now, st))
  }

  /** A step on an entry that is filtered out, or already seen, changes nothing. */
  lemma StepSkips(e: Entry, keyword: string, now: int, st: ScanState)
    requires !PassesFilters(e, now) || e.link in st.seen
    ensures Step(e, keyword, now, st) == st
  {
  }

  /** Scanning from position `j` is one step followed by scanning from `j + 1`. */
  lemma ScanEntriesFrom(entries: seq<Entry>, j: nat, keyword: string, now: int, st: ScanState)
    requires j < |entries|
    ensures ScanEntries(entries[j..], keyword, now, st)
         == ScanEntries(entries[j + 1..], keyword, now, Step(entries[j], keyword, now, st))
  {
    assert entries[j..][1..] == entries[j + 1..];
  }

  /** The feeds of `keywords`, in order, skipping the malformed ones. */
  function ScanFeeds(keywords: seq<string>, feedFor: string -> Feed, now: int, st: ScanState): ScanState
    decreases |keywords|
  {
    if keywords == [] then st
    else
      var feed := feedFor(keywords[0]);
      var next := if feed.bozo then st else ScanEntries(feed.entries, keywords[0], now, st);
      ScanFeeds(keywords[1..], feedFor, now, next)
  }

  predicate SortedNewestFirst(s: seq<NewsItem>)
  {
    forall i, j :: 0 <= i < j < |s| ==> s[i].published >= s[j].published
  }

  /** Inserts `x` before the first item that is not newer than it. */
  function InsertNewest(x: NewsItem, s: seq<NewsItem>): (r: seq<NewsItem>)
    ensures multiset(r) == multiset(s) + multiset{x}
    decreases |s|
  {
    if s == [] || s[0].published <= x.published then [x] + s
    else
      assert s == [s[0]] + s[1..];
      [s[0]] + InsertNewest(x, s[1..])
  }

  /** Insertion into a newest-first list keeps it newest first. */
  lemma {:induction false} InsertNewestSorted(x: NewsItem, s: seq<NewsItem>)
    requires SortedNewestFirst(s)
    ensures SortedNewestFirst(InsertNewest(x, s))
    decreases |s|
  {
    if s != [] && s[0].published > x.published {
      var rest := InsertNewest(x, s[1..]);
      InsertNewestSorted(x, s[1..]);
      forall k | 0 <= k < |rest|
        ensures s[0].published >= rest[k].published
      {
        assert rest[k] in multiset(rest);
        assert rest[k] == x || rest[k] in multiset(s[1..]);
      }
      assert InsertNewest(x, s) == [s[0]] + rest;
    }
  }

  /** Python's stable `sort(key=published, reverse=True)`. */
  function SortNewestFirst(s: seq<NewsItem>): (r: seq<NewsItem>)
    ensures SortedNewestFirst(r)
    ensures multiset(r) == multiset(s)
    decreases |s|
  {
    if s == [] then []
    else
      assert s == [s[0]] + s[1..];
      var sorted := SortNewestFirst(s[1..]);
      InsertNewestSorted(s[0], sorted);
      InsertNewest(s[0], sorted)
  }

  /** The items of `s` published at time `t`, in order. */
  function PublishedAt(s: seq<NewsItem>, t: int): seq<NewsItem>
    decreases |s|
  {
    if s == [] then []
    else (if s[0].published == t then [s[0]] else []) + PublishedAt(s[1..], t)
  }

  /** Composition: scanning `a + b` is scanning `a`, then `b`. */
  lemma {:induction false} ScanEntriesAppend(a: seq<Entry>, b: seq<Entry>, keyword: string, now: int, st: ScanState)
    ensures ScanEntries(a + b, keyword, now, st)
         == ScanEntries(b, keyword, now, ScanEntries(a, keyword, now, st))
    decreases |a|
  {
    if a == [] {
      assert a + b == b;
    } else {
      assert (a + b)[1..] == a[1..] + b;
      ScanEntriesAppend(a[1..], b, keyword, now, Step(a[0], keyword, now, st));
    }
  }

  /** An entry whose date did not parse is skipped and the scan goes on:
      the result is that of the same feed without the entry. */
  lemma UndatedEntrySkipped(a: seq<Entry>, e: Entry, b: seq<Entry>, keyword: string, now: int, st: ScanState)
    requires e.published.None?
    ensures ScanEntries(a + [e] + b, keyword, now, st) == ScanEntries(a + b, keyword, now, st)
  {
    ScanEntriesAppend(a + [e], b, keyword, now, st);
    ScanEntriesAppend(a, [e], keyword, now, st);
    ScanEntriesAppend(a, b, keyword, now, st);
    StepSkips(e, keyword, now, ScanEntries(a, keyword, now, st));
  }

  /** Composition: the feeds of `a + b` are those of `a`, then those of `b`. */
  lemma {:induction false} ScanFeedsAppend(a: seq<string>, b: seq<string>, feedFor: string -> Feed, now: int, st: ScanState)
    ensures ScanFeeds(a + b, feedFor, now, st)
         == ScanFeeds(b, feedFor, now, ScanFeeds(a, feedFor, now, st))
    decreases |a|
  {
    if a == [] {
      assert a + b == b;
    } else {
      assert (a + b)[1..] == a[1..] + b;
      assert (a + b)[0] == a[0];
      var feed := feedFor(a[0]);
      var next := if feed.bozo then st else ScanEntries(feed.entries, a[0], now, st);
      ScanFeedsAppend(a[1..], b, feedFor, now, next);
    }
  }

  /** A keyword whose feed is malformed contributes nothing, and the other
      keywords are still searched. */
  lemma MalformedFeedSkipped(a: seq<string>, k: string, b: seq<string>, feedFor: string -> Feed, now: int, st: ScanState)
    requires feedFor(k).bozo
    ensures ScanFeeds(a + [k] + b, feedFor, now, st) == ScanFeeds(a + b, feedFor, now, st)
  {
    ScanFeedsAppend(a + [k], b, feedFor, now, st);
    ScanFeedsAppend(a, [k], feedFor, now, st);
    ScanFeedsAppend(a, b, feedFor, now, st);
  }

  /** What every emitted item satisfies. */
  predicate ItemOk(it: NewsItem, now: int)
  {
    && WithinWindow(it.published, now)
    && AllowedSource(Some(it.source), it.link)
    && !ExcludedKeyword(it.title)
  }

  function Links(s: seq<NewsItem>): set<string>
  {
    set i | 0 <= i < |s| :: s[i].link
  }

  predicate DistinctLinks(s: seq<NewsItem>)
  {
    forall i, j :: 0 <= i < j < |s| ==> s[i].link != s[j].link
  }

  /** The links of the entries that pass the filters. */
  function PassingLinks(entries: seq<Entry>, now: int): set<string>
  {
    set e | e in entries && PassesFilters(e, now) :: e.link
  }

  /** The links of the passing entries of every well-formed feed. */
  function FeedLinks(keywords: seq<string>, feedFor: string -> Feed, now: int): set<string>
    decreases |keywords|
  {
    if keywords == [] then {}
    else
      var feed := feedFor(keywords[0]);
      (if feed.bozo then {} else PassingLinks(feed.entries, now)) + FeedLinks(keywords[1..], feedFor, now)
  }

  /** The fetch loop's invariant relative to the links `seen0` seen before
      the fetch: every collected item passed the filters, no link was
      collected twice or had been seen before, and a link is seen exactly
      when it was seen before or its item was collected. */
  predicate ScanInvariant(st: ScanState, seen0: set<string>, now: int)
  {
    && (forall i :: 0 <= i < |st.found| ==> ItemOk(st.found[i], now))
    && DistinctLinks(st.found)
    && st.seen == seen0 + Links(st.found)
    && seen0 !! Links(st.found)
  }

  /** Appending an item adds exactly its link, and keeps the links
      distinct when that link is new. */
  lemma LinksSnoc(s: seq<NewsItem>, x: NewsItem)
    ensures Links(s + [x]) == Links(s) + {x.link}
    ensures DistinctLinks(s) && x.link !in Links(s) ==> DistinctLinks(s + [x])
  {
    var t := s + [x];
    forall y | y in Links(t)
      ensures y in Links(s) + {x.link}
    {
      var i :| 0 <= i < |t| && t[i].link == y;
      if i < |s| {
        assert s[i].link == y;
      }
    }
    forall y | y in Links(s)
      ensures y in Links(t)
    {
      var i :| 0 <= i < |s| && s[i].link == y;
      assert t[i].link == y;
    }
    assert t[|s|].link == x.link;
    if DistinctLinks(s) && x.link !in Links(s) {
      forall i | 0 <= i < |s|
        ensures t[i].link != x.link
      {
        assert s[i].link in Links(s);
      }
    }
  }

  /** One step keeps the invariant, grows the seen set by the entry's link
      exactly when the entry passes the filters, and only appends items
      of the current keyword. */
  lemma StepKeepsInvariant(e: Entry, keyword: string, now: int, st: ScanState, seen0: set<string>)
    requires ScanInvariant(st, seen0, now)
    ensures var r := Step(e, keyword, now, st);
      && ScanInvariant(r, seen0, now)
      && r.seen == st.seen + (if PassesFilters(e, now) then {e.link} else {})
      && st.found <= r.found
      && (forall i :: |st.found| <= i < |r.found| ==> r.found[i].keyword == keyword)
  {
    if PassesFilters(e, now) && e.link !in st.seen {
      var x := ToItem(e, keyword);
      LinksSnoc(st.found, x);
      assert ItemOk(x, now);
    }
  }

  /** The links of the passing entries of a non-empty list: its head's, if
      it passes, and those of its tail. */
  lemma PassingLinksCons(entries: seq<Entry>, now: int)
    requires entries != []
    ensures PassingLinks(entries, now)
         == (if PassesFilters(entries[0], now) then {entries[0].link} else {}) + PassingLinks(entries[1..], now)
  {
    assert entries == [entries[0]] + entries[1..];
  }

  lemma {:induction false} ScanEntriesKeepsInvariant(entries: seq<Entry>, keyword: string, now: int, st: ScanState, seen0: set<string>)
    requires ScanInvariant(st, seen0, now)
    ensures var r := ScanEntries(entries, keyword, now, st);
      && ScanInvariant(r, seen0, now)
      && r.seen == st.seen + PassingLinks(entries, now)
      && st.found <= r.found
      && (forall i :: |st.found| <= i < |r.found| ==> r.found[i].keyword == keyword)
    decreases |entries|
  {
    if entries != [] {
      var next := Step(entries[0], keyword, now, st);
      StepKeepsInvariant(entries[0], keyword, now, st, seen0);
      ScanEntriesKeepsInvariant(entries[1..], keyword, now, next, seen0);
      PassingLinksCons(entries, now);
    }
  }

  lemma {:induction false} ScanFeedsKeepsInvariant(keywords: seq<string>, feedFor: string -> Feed, now: int, st: ScanState, seen0: set<string>)
    requires ScanInvariant(st, seen0, now)
    ensures var r := ScanFeeds(keywords, feedFor, now, st);
      && ScanInvariant(r, seen0, now)
      && r.seen == st.seen + FeedLinks(keywords, feedFor, now)
      && st.found <= r.found
      && (forall i :: |st.found| <= i < |r.found| ==> r.found[i].keyword in keywords)
    decreases |keywords|
  {
    if keywords != [] {
      var feed := feedFor(keywords[0]);
      var next := if feed.bozo then st else ScanEntries(feed.entries, keywords[0], now, st);
      if !feed.bozo {
        ScanEntriesKeepsInvariant(feed.entries, keywords[0], now, st, seen0);
      }
      ScanFeedsKeepsInvariant(keywords[1..], feedFor, now, next, seen0);
      var r := ScanFeeds(keywords, feedFor, now, st);
      forall i | |st.found| <= i < |r.found|
        ensures r.found[i].keyword in keywords
      {
        if i < |next.found| {
          assert r.found[i] == next.found[i];
        } else {
          assert r.found[i].keyword in keywords[1..];
        }
      }
    }
  }

  /** The links of a non-empty list: its head's and those of its tail. */
  lemma LinksCons(s: seq<NewsItem>)
    requires s != []
    ensures Links(s) == {s[0].link} + Links(s[1..])
    ensures DistinctLinks(s) <==> DistinctLinks(s[1..]) && s[0].link !in Links(s[1..])
  {
    forall y | y in Links(s)
      ensures y in {s[0].link} + Links(s[1..])
    {
      var i :| 0 <= i < |s| && s[i].link == y;
      if i > 0 {
        assert s[1..][i - 1].link == y;
      }
    }
    forall y | y in Links(s[1..])
      ensures y in Links(s)
    {
      var i :| 0 <= i < |s[1..]| && s[1..][i].link == y;
      assert s[i + 1].link == y;
    }
    assert s[0].link in Links(s);
    if DistinctLinks(s) {
      forall i, j | 0 <= i < j < |s[1..]|
        ensures s[1..][i].link != s[1..][j].link
      {
        assert s[1..][i] == s[i + 1] && s[1..][j] == s[j + 1];
      }
      forall i | 0 <= i < |s[1..]|
        ensures s[1..][i].link != s[0].link
      {
        assert s[1..][i] == s[i + 1];
      }
    }
    if DistinctLinks(s[1..]) && s[0].link !in Links(s[1..]) {
      forall i, j | 0 <= i < j < |s|
        ensures s[i].link != s[j].link
      {
        assert s[j] == s[1..][j - 1];
        if i > 0 {
          assert s[i] == s[1..][i - 1];
        } else {
          assert s[1..][j - 1].link in Links(s[1..]);
        }
      }
    }
  }

  /** Inserting an item whose link is new keeps the links distinct and adds
      exactly that link. */
  lemma {:induction false} InsertNewestLinks(x: NewsItem, s: seq<NewsItem>)
    ensures Links(InsertNewest(x, s)) == Links(s) + {x.link}
    ensures DistinctLinks(s) && x.link !in Links(s) ==> DistinctLinks(InsertNewest(x, s))
    decreases |s|
  {
    var r := InsertNewest(x, s);
    if s == [] || s[0].published <= x.published {
      assert r[1..] == s;
      LinksCons(r);
    } else {
      InsertNewestLinks(x, s[1..]);
      assert r[1..] == InsertNewest(x, s[1..]);
      LinksCons(r);
      LinksCons(s);
    }
  }

  /** Sorting keeps the set of links, and keeps them distinct. */
  lemma {:induction false} SortKeepsLinks(s: seq<NewsItem>)
    ensures Links(SortNewestFirst(s)) == Links(s)
    ensures DistinctLinks(s) ==> DistinctLinks(SortNewestFirst(s))
    decreases |s|
  {
    if s != [] {
      SortKeepsLinks(s[1..]);
      InsertNewestLinks(s[0], SortNewestFirst(s[1..]));
      LinksCons(s);
    }
  }

  /** Inserting `x` puts it among the items of its own timestamp ahead of
      all of them, which is where the later items of the original order are. */
  lemma {:induction false} InsertNewestAt(x: NewsItem, s: seq<NewsItem>, t: int)
    ensures PublishedAt(InsertNewest(x, s), t) == (if x.published == t then [x] else []) + PublishedAt(s, t)
    decreases |s|
  {
    if s == [] || s[0].published <= x.published {
      assert ([x] + s)[1..] == s;
    } else {
      var rest := InsertNewest(x, s[1..]);
      InsertNewestAt(x, s[1..], t);
      assert ([s[0]] + rest)[1..] == rest;
    }
  }

  /** The sort is stable: the items sharing a timestamp keep their
      discovery order. */
  lemma {:induction false} SortStable(s: seq<NewsItem>, t: int)
    ensures PublishedAt(SortNewestFirst(s), t) == PublishedAt(s, t)
    decreases |s|
  {
    if s != [] {
      SortStable(s[1..], t);
      InsertNewestAt(s[0], SortNewestFirst(s[1..]), t);
    }
  }

  /** Everything the fetch promises, for a fetcher that had seen `seen0`
      before: the result is newest first, every item is within the window,
      from an allowed source and free of excluded keywords, was found by one
      of the keywords, no link occurs twice or was seen before, the links are
      exactly the new links of the passing entries, and the seen set grows by
      exactly the passing links. */
  lemma FetchProperties(keywords: seq<string>, feedFor: string -> Feed, now: int, seen0: set<string>)
    ensures var st := ScanFeeds(keywords, feedFor, now, ScanState([], seen0));
      var news := SortNewestFirst(st.found);
      && SortedNewestFirst(news)
      && (forall i :: 0 <= i < |news| ==> ItemOk(news[i], now) && news[i].keyword in keywords)
      && DistinctLinks(news)
      && Links(news) == FeedLinks(keywords, feedFor, now) - seen0
      && st.seen == seen0 + FeedLinks(keywords, feedFor, now)
  {
    var st0 := ScanState([], seen0);
    assert Links([]) == {};
    ScanFeedsKeepsInvariant(keywords, feedFor, now, st0, seen0);
    var st := ScanFeeds(keywords, feedFor, now, st0);
    var news := SortNewestFirst(st.found);
    SortKeepsLinks(st.found);
    forall i | 0 <= i < |news|
      ensures ItemOk(news[i], now) && news[i].keyword in keywords
    {
      assert news[i] in multiset(news);
      assert news[i] in st.found;
    }
  }

  class NewsFetcher {
    /** Links already emitted by this fetcher. */
    var seenLinks: set<string>

    constructor ()
      ensures seenLinks == {}
    {
      seenLinks := {};
    }

    /** The allow-list check: the source name first, then the link's host. */
    static method IsAllowedSource(sourceName: Option<string>, link: string) returns (allowed: bool)
      ensures allowed == AllowedSource(sourceName, link)
    {
      if sourceName.None? || sourceName.value == [] {
        return false;
      }
      var nameListed := FindListed(AllowedSources, Lower(sourceName.value));
      if nameListed {
        return true;
      }
      var host := Urls.Netloc(link);
      if host.None? {
        return false;
      }
      allowed := FindDomainKey(AllowedSources, Lower(host.value));
    }

    /** The loop shared by the name stage of the allow-list and the
        exclusion check: is some entry, lower-cased, in the lower-cased text? */
    static method FindListed(list: seq<string>, lowered: string) returns (found: bool)
      ensures found == ListedIn(list, lowered)
    {
      for i := 0 to |list|
        invariant forall k :: 0 <= k < i ==> !IsSubstring(Lower(list[k]), lowered)
      {
        if IsSubstring(Lower(list[i]), lowered) {
          return true;
        }
      }
      return false;
    }

    /** The domain stage of the allow-list: the loop over the publisher
        names, each turned into its domain key and looked for in the host. */
    static method FindDomainKey(list: seq<string>, domain: string) returns (found: bool)
      ensures found == KeyListedIn(list, domain)
    {
      for i := 0 to |list|
        invariant forall k :: 0 <= k < i ==> !KeyInDomain(list[k], domain)
      {
        var cleanAllowed := DomainKey(list[i]);
        if IsSubstring(cleanAllowed, domain) {
          return true;
        }
      }
      return false;
    }

    /** The exclusion check on a title. */
    static method ContainsExcludedKeyword(text: string) returns (excluded: bool)
      ensures excluded == ExcludedKeyword(text)
    {
      if text == [] {
        return false;
      }
      excluded := FindListed(ExcludedKeywords, Lower(text));
    }

    /** One search per keyword; every entry passes, in order, the date
        parse, the 24-hour window, the seen-links check, the allow-list and
        the exclusion list; survivors are recorded as seen and collected,
        and the collection is sorted newest first. */
    method FetchNews(keywords: seq<string>, feedFor: string -> Feed, now: int) returns (news: seq<NewsItem>)
      modifies this
      ensures var st := ScanFeeds(keywords, feedFor, now, ScanState([], old(seenLinks)));
              news == SortNewestFirst(st.found) && seenLinks == st.seen
    {
      var allNews: seq<NewsItem> := [];
      ghost var target := ScanFeeds(keywords, feedFor, now, ScanState([], seenLinks));
      for i := 0 to |keywords|
        invariant ScanFeeds(keywords[i..], feedFor, now, ScanState(allNews, seenLinks)) == target
      {
        var keyword := keywords[i];
        var feed := feedFor(keyword);
        assert keywords[i..][1..] == keywords[i + 1..];
        if feed.bozo {
          continue;
        }
        ghost var afterFeed := ScanEntries(feed.entries, keyword, now, ScanState(allNews, seenLinks));
        for j := 0 to |feed.entries|
          invariant ScanEntries(feed.entries[j..], keyword, now, ScanState(allNews, seenLinks)) == afterFeed
        {
          var entry := feed.entries[j];
          ghost var before := ScanState(allNews, seenLinks);
          ScanEntriesFrom(feed.entries, j, keyword, now, before);
          if entry.published.None? {
            StepSkips(entry, keyword, now, before);
            continue;
          }
          var published := entry.published.value;
          if now - published > Day {
            StepSkips(entry, keyword, now, before);
            continue;
          }
          if entry.link in seenLinks {
            StepSkips(entry, keyword, now, before);
            continue;
          }
          var sourceName := if entry.source.Some? then entry.source.value else "Unknown";
          var allowed := IsAllowedSource(Some(sourceName), entry.link);
          if !allowed {
            StepSkips(entry, keyword, now, before);
            continue;
          }
          var excluded := ContainsExcludedKeyword(entry.title);
          if excluded {
            StepSkips(entry, keyword, now, before);
            continue;
          }
          seenLinks := seenLinks + {entry.link};
          var summary := if entry.summary.Some? then entry.summary.value else "";
          allNews := allNews + [NewsItem(entry.title, entry.link, published, sourceName, summary, keyword)];
          assert ScanState(allNews, seenLinks) == Step(entry, keyword, now, before);
        }
      }
      news := SortNewestFirst(allNews);
    }
  }
}
