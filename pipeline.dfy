/**
 * One run of the reporter (main.py): fetch, drop the items already in the
 * link history, process the rest, record their links, and regenerate the
 * site.
 *
 * The history file is a field of `HistoryStore` (`None` when it is missing
 * or unreadable, which the loader reads as an empty history). The fetch
 * stage's result is a parameter (`None` where it raised), and so is
 * whether constructing the processor raised; the processing services and
 * the clock are parameters as in the other modules.
 */
module Pipeline {
  import opened Wrappers
  import opened Seqs
  import Fetcher
  import Processor
  import Web

  /** The fetched items whose link is not in the history, in fetch order. */
  function Unseen(items: seq<Fetcher.NewsItem>, history: set<string>): seq<Fetcher.NewsItem>
  {
    Filter(items, (it: Fetcher.NewsItem) => it.link !in history)
  }

  /** How a run ends. `Completed` carries the new items, their processed
      records, the history afterwards and whether the history was saved. */
  datatype Outcome =
    | FetchFailed
    | ProcessorFailed
    | Completed(newItems: seq<Fetcher.NewsItem>, processed: seq<Processor.ProcessedItem>,
                history: set<string>, saved: bool)

  /** The run, stage by stage: a fetch failure ends it at once; with no new
      items nothing is processed or saved; otherwise a processor failure
      ends it before the history changes, and a successful processing adds
      the link of every new item to the history, which is then saved. */
  function RunSpec(history: set<string>, fetched: Option<seq<Fetcher.NewsItem>>,
                   processorRaises: bool, svc: Processor.Services): Outcome
  {
    match fetched
    case None => FetchFailed
    case Some(news) =>
      var newItems := Unseen(news, history);
      if newItems == [] then Completed([], [], history, false)
      else if processorRaises then ProcessorFailed
      else Completed(newItems, Processor.ProcessAll(newItems, svc), history + Fetcher.Links(newItems), true)
  }

  /** The records the site is generated from: processed items carry no
      fetch time yet. */
  function AsEntries(processed: seq<Processor.ProcessedItem>): seq<Web.ArchiveEntry>
  {
    Map(processed, (p: Processor.ProcessedItem) => Web.ArchiveEntry(p, None))
  }

  /** The new items are exactly the fetched items whose link the history
      lacks. */
  lemma UnseenExact(items: seq<Fetcher.NewsItem>, history: set<string>)
    ensures forall x :: x in Unseen(items, history) <==> x in items && x.link !in history
  {
    forall x | x in items && x.link !in history
      ensures x in Unseen(items, history)
    {
      FilterKeeps(items, (it: Fetcher.NewsItem) => it.link !in history, x);
    }
  }

  /** An item whose link is in the history has no effect on the new items:
      they are those of the list without it, so the order of the others is
      kept. */
  lemma SeenItemIgnored(a: seq<Fetcher.NewsItem>, seen: Fetcher.NewsItem, b: seq<Fetcher.NewsItem>, history: set<string>)
    requires seen.link in history
    ensures Unseen(a + [seen] + b, history) == Unseen(a + b, history)
  {
    var p := (it: Fetcher.NewsItem) => it.link !in history;
    FilterAppend(a + [seen], b, p);
    FilterAppend(a, [seen], p);
    FilterAppend(a, b, p);
    assert Filter([seen], p) == [] by {
      assert [seen][1..] == [];
    }
  }

  /** After a completed run every fetched link is in the history, which
      only grew: the links of items whose processing failed are recorded
      too. */
  lemma HistoryCoversFetched(history: set<string>, news: seq<Fetcher.NewsItem>,
                             processorRaises: bool, svc: Processor.Services)
    requires RunSpec(history, Some(news), processorRaises, svc).Completed?
    ensures var h := RunSpec(history, Some(news), processorRaises, svc).history;
      history <= h && forall i :: 0 <= i < |news| ==> news[i].link in h
  {
    var u := Unseen(news, history);
    UnseenExact(news, history);
    forall i | 0 <= i < |news| && news[i].link !in history
      ensures news[i].link in Fetcher.Links(u)
    {
      assert news[i] in u;
      var k :| 0 <= k < |u| && u[k] == news[i];
    }
  }

  /** A second run over the same fetched items, with the history the first
      one left, finds nothing new, saves nothing and changes nothing. */
  lemma SecondRunFindsNothing(history: set<string>, news: seq<Fetcher.NewsItem>, svc: Processor.Services,
                              processorRaises: bool, svc2: Processor.Services)
    requires RunSpec(history, Some(news), false, svc).Completed?
    ensures var h := RunSpec(history, Some(news), false, svc).history;
      RunSpec(h, Some(news), processorRaises, svc2) == Completed([], [], h, false)
  {
    var h := RunSpec(history, Some(news), false, svc).history;
    HistoryCoversFetched(history, news, false, svc);
    FilterNoneKept(news, (it: Fetcher.NewsItem) => it.link !in h);
  }

  /** The history is saved exactly when there were new items, and a run
      that does not save leaves it as it was; a failing stage has no
      history of its own, so the stored one stays. */
  lemma SavedIffNewItems(history: set<string>, fetched: Option<seq<Fetcher.NewsItem>>,
                         processorRaises: bool, svc: Processor.Services)
    ensures var r := RunSpec(history, fetched, processorRaises, svc);
      && (r.Completed? ==> (r.saved <==> r.newItems != []) && (!r.saved ==> r.history == history))
      && (r.Completed? <==> fetched.Some? && (processorRaises ==> Unseen(fetched.value, history) == []))
  {
  }

  /** Every processed record of a completed run belongs to one of its new
      items, and a run's records are never more than its new items. */
  lemma ProcessedFromNew(history: set<string>, news: seq<Fetcher.NewsItem>, svc: Processor.Services)
    requires RunSpec(history, Some(news), false, svc).Completed?
    ensures var r := RunSpec(history, Some(news), false, svc);
      && |r.processed| <= |r.newItems|
      && forall k :: 0 <= k < |r.processed| ==>
           exists i :: 0 <= i < |news| && news[i].link !in history
                       && Processor.Processed(news[i], svc) == Some(r.processed[k])
  {
    var r := RunSpec(history, Some(news), false, svc);
    if r.newItems != [] {
      Processor.ProcessAllFromItems(r.newItems, svc);
      forall k | 0 <= k < |r.processed|
        ensures exists i :: 0 <= i < |news| && news[i].link !in history
                            && Processor.Processed(news[i], svc) == Some(r.processed[k])
      {
        var j :| 0 <= j < |r.newItems| && Processor.Processed(r.newItems[j], svc) == Some(r.processed[k]);
        assert r.newItems[j] in news && r.newItems[j].link !in history;
        var i :| 0 <= i < |news| && news[i] == r.newItems[j];
      }
    }
  }

  /** The deduplication loop of the run. */
  method DedupNew(newsItems: seq<Fetcher.NewsItem>, history: set<string>) returns (newItems: seq<Fetcher.NewsItem>)
    ensures newItems == Unseen(newsItems, history)
  {
    newItems := [];
    for i := 0 to |newsItems|
      invariant newItems == Unseen(newsItems[..i], history)
    {
      assert newsItems[..i + 1] == newsItems[..i] + [newsItems[i]];
      FilterAppend(newsItems[..i], [newsItems[i]], (it: Fetcher.NewsItem) => it.link !in history);
      if newsItems[i].link !in history {
        newItems := newItems + [newsItems[i]];
      }
    }
    assert newsItems[..|newsItems|] == newsItems;
  }

  /** The history update of the run: the link of every new item is added. */
  method AddToHistory(history: set<string>, newItems: seq<Fetcher.NewsItem>) returns (updated: set<string>)
    ensures updated == history + Fetcher.Links(newItems)
  {
    updated := history;
    for i := 0 to |newItems|
      invariant updated == history + Fetcher.Links(newItems[..i])
    {
      assert newItems[..i + 1] == newItems[..i] + [newItems[i]];
      Fetcher.LinksSnoc(newItems[..i], newItems[i]);
      updated := updated + {newItems[i].link};
    }
    assert newItems[..|newItems|] == newItems;
  }

  /** The link-history file. */
  class HistoryStore {
    /** The file: `None` when it is missing or unreadable. */
    var file: Option<set<string>>

    constructor(file0: Option<set<string>>)
      ensures file == file0
    {
      file := file0;
    }

    /** The history as the loader reads it. */
    function Loaded(): (history: set<string>)
      reads this
      ensures file.None? ==> history == {}
      ensures file.Some? ==> history == file.value
    {
      match file
      case None => {}
      case Some(h) => h
    }

    method Save(history: set<string>)
      modifies this
      ensures file == Some(history)
    {
      file := Some(history);
    }
  }

  /** One run. The site is regenerated after every run that gets past
      processing, from that run's records (none when nothing was new). */
  method Run(store: HistoryStore, site: Web.WebGenerator,
             fetched: Option<seq<Fetcher.NewsItem>>, processorRaises: bool,
             svc: Processor.Services, nowIso: string)
    returns (outcome: Outcome)
    modifies store, site
    ensures outcome == RunSpec(old(store.Loaded()), fetched, processorRaises, svc)
    ensures store.file == (if outcome.Completed? && outcome.saved then Some(outcome.history) else old(store.file))
    ensures outcome.Completed? ==>
      var batch := AsEntries(outcome.processed);
      && site.stored == Some(Web.Merge(old(site.Loaded()), batch, nowIso))
      && site.archivePage == Web.Merge(old(site.Loaded()), batch, nowIso)
      && site.homePage == Web.HomeItems(Web.Stamped(batch, Web.ArchiveLinks(old(site.Loaded())), nowIso),
                                        Web.Merge(old(site.Loaded()), batch, nowIso))
    ensures !outcome.Completed? ==> unchanged(site)
  {
    var history := store.Loaded();
    if fetched.None? {
      return FetchFailed;
    }
    var newItems := DedupNew(fetched.value, history);
    var processedNews: seq<Processor.ProcessedItem> := [];
    var saved := false;
    if newItems != [] {
      if processorRaises {
        return ProcessorFailed;
      }
      processedNews := Processor.ProcessNews(newItems, svc);
      history := AddToHistory(history, newItems);
      store.Save(history);
      saved := true;
    }
    outcome := Completed(newItems, processedNews, history, saved);
    site.GenerateSite(AsEntries(processedNews), nowIso);
  }
}
