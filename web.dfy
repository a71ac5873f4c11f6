/**
 * The static-site generator (web_generator.py): the merge of a run's
 * processed items into the persistent archive, and the choice of what the
 * home page shows.
 *
 * The archive file is a field of `WebGenerator` (`None` when it is missing
 * or does not parse, which the loader reads as an empty archive); the
 * rendered pages are fields holding the items each page was given.
 * Template rendering itself is outside the model, and the clock is the
 * parameter `nowIso`.
 */
module Web {
  import opened Wrappers
  import opened Seqs
  import Processor

  /** An archive record: a processed item and, once it has entered the
      archive, the time it was fetched. */
  datatype ArchiveEntry = ArchiveEntry(item: Processor.ProcessedItem, fetchedAt: Option<string>)

  /** The links of an archive. */
  function ArchiveLinks(archive: seq<ArchiveEntry>): set<string>
  {
    set i | 0 <= i < |archive| :: archive[i].item.link
  }

  /** An entry as it is added: given a fetch time if it has none. */
  function Stamp(e: ArchiveEntry, nowIso: string): (r: ArchiveEntry)
    ensures r.item == e.item && r.fetchedAt.Some?
    ensures e.fetchedAt.Some? ==> r == e
    ensures e.fetchedAt.None? ==> r.fetchedAt == Some(nowIso)
  {
    if e.fetchedAt.None? then e.(fetchedAt := Some(nowIso)) else e
  }

  /** The batch entries whose link is not among `existing`, in batch order. */
  function Fresh(batch: seq<ArchiveEntry>, existing: set<string>): seq<ArchiveEntry>
  {
    Filter(batch, (e: ArchiveEntry) => e.item.link !in existing)
  }

  /** What the merge loop has put in front of the archive after visiting
      `batch`: each novel entry, stamped, pushed onto the front in turn. */
  function Prepended(batch: seq<ArchiveEntry>, existing: set<string>, nowIso: string): seq<ArchiveEntry>
    decreases |batch|
  {
    if batch == [] then []
    else
      var last := batch[|batch| - 1];
      (if last.item.link !in existing then [Stamp(last, nowIso)] else [])
      + Prepended(batch[..|batch| - 1], existing, nowIso)
  }

  /** The archive after merging `batch` into `archive`. */
  function Merge(archive: seq<ArchiveEntry>, batch: seq<ArchiveEntry>, nowIso: string): seq<ArchiveEntry>
  {
    Prepended(batch, ArchiveLinks(archive), nowIso) + archive
  }

  /** A batch entry after the merge has run: the loop writes the fetch time
      into the caller's own item records, so an added entry carries it. */
  function Touched(e: ArchiveEntry, existing: set<string>, nowIso: string): ArchiveEntry
  {
    if e.item.link !in existing then Stamp(e, nowIso) else e
  }

  /** The caller's batch as the merge leaves it. */
  function Stamped(batch: seq<ArchiveEntry>, existing: set<string>, nowIso: string): seq<ArchiveEntry>
  {
    Map(batch, (e: ArchiveEntry) => Touched(e, existing, nowIso))
  }

  /** What the home page shows: the run's news, or, when there is none, the
      first ten archive entries. */
  function HomeItems(current: seq<ArchiveEntry>, archive: seq<ArchiveEntry>): seq<ArchiveEntry>
  {
    if current != [] then current else Take(archive, 10)
  }

  /** The novel entries of a batch with one more entry at its end. */
  lemma FreshSnoc(init: seq<ArchiveEntry>, last: ArchiveEntry, existing: set<string>)
    ensures Fresh(init + [last], existing)
         == Fresh(init, existing) + (if last.item.link !in existing then [last] else [])
  {
    FilterAppend(init, [last], (e: ArchiveEntry) => e.item.link !in existing);
    assert [last][1..] == [];
  }

  /** The entries the merge adds are the novel ones, stamped, in reverse
      batch order. */
  lemma {:induction false} PrependedIsReversedFresh(batch: seq<ArchiveEntry>, existing: set<string>, nowIso: string)
    ensures var novel := Fresh(batch, existing);
      var added := Prepended(batch, existing, nowIso);
      && |added| == |novel|
      && forall k :: 0 <= k < |novel| ==> added[k] == Stamp(novel[|novel| - 1 - k], nowIso)
    decreases |batch|
  {
    if batch != [] {
      var init := batch[..|batch| - 1];
      var last := batch[|batch| - 1];
      PrependedIsReversedFresh(init, existing, nowIso);
      assert batch == init + [last];
      FreshSnoc(init, last, existing);
      var f := Fresh(init, existing);
      var novel := Fresh(batch, existing);
      var rest := Prepended(init, existing, nowIso);
      var added := Prepended(batch, existing, nowIso);
      if last.item.link !in existing {
        assert added == [Stamp(last, nowIso)] + rest;
        assert novel == f + [last];
        forall k | 0 < k < |novel|
          ensures added[k] == Stamp(novel[|novel| - 1 - k], nowIso)
        {
          assert added[k] == rest[k - 1];
          assert novel[|novel| - 1 - k] == f[|f| - 1 - (k - 1)];
        }
      } else {
        assert added == rest;
      }
    }
  }

  /** Shape of a merge: the added entries first, then the archive as
      loaded, whole and in order. The added entries are the batch entries
      whose link the loaded archive lacks, stamped, newest-visited first;
      so the length grows by their count, which is at most the batch's. */
  lemma MergeShape(archive: seq<ArchiveEntry>, batch: seq<ArchiveEntry>, nowIso: string)
    ensures var novel := Fresh(batch, ArchiveLinks(archive));
      var m := Merge(archive, batch, nowIso);
      && |m| == |archive| + |novel|
      && |novel| <= |batch|
      && m[|novel|..] == archive
      && forall k :: 0 <= k < |novel| ==> m[k] == Stamp(novel[|novel| - 1 - k], nowIso)
  {
    var existing := ArchiveLinks(archive);
    PrependedIsReversedFresh(batch, existing, nowIso);
  }

  /** A batch entry is added exactly when its link is not among the links
      of the archive as loaded; every added entry comes from the batch. */
  lemma AddedIff(archive: seq<ArchiveEntry>, batch: seq<ArchiveEntry>, nowIso: string)
    ensures var added := Prepended(batch, ArchiveLinks(archive), nowIso);
      && (forall i :: 0 <= i < |batch| && batch[i].item.link !in ArchiveLinks(archive)
            ==> Stamp(batch[i], nowIso) in added)
      && (forall x :: x in added ==>
            exists i :: 0 <= i < |batch| && batch[i].item.link !in ArchiveLinks(archive)
                        && x == Stamp(batch[i], nowIso))
  {
    var existing := ArchiveLinks(archive);
    var p := (e: ArchiveEntry) => e.item.link !in existing;
    var novel := Fresh(batch, existing);
    var added := Prepended(batch, existing, nowIso);
    PrependedIsReversedFresh(batch, existing, nowIso);
    assert |added| == |novel|;
    forall i | 0 <= i < |batch| && batch[i].item.link !in existing
      ensures Stamp(batch[i], nowIso) in added
    {
      FilterKeeps(batch, p, batch[i]);
      var k :| 0 <= k < |novel| && novel[k] == batch[i];
      assert added[|novel| - 1 - k] == Stamp(batch[i], nowIso);
    }
    forall x | x in added
      ensures exists i :: 0 <= i < |batch| && batch[i].item.link !in existing && x == Stamp(batch[i], nowIso)
    {
      var k :| 0 <= k < |added| && added[k] == x;
      var e := novel[|novel| - 1 - k];
      assert p(e) && e in batch;
      var i :| 0 <= i < |batch| && batch[i] == e;
    }
  }

  /** Every entry the merge adds carries a fetch time, and one the batch
      entry already had is kept. */
  lemma AddedStamped(archive: seq<ArchiveEntry>, batch: seq<ArchiveEntry>, nowIso: string)
    ensures var added := Prepended(batch, ArchiveLinks(archive), nowIso);
      forall x :: x in added ==>
        x.fetchedAt.Some?
        && exists i :: 0 <= i < |batch| && batch[i].item == x.item
                       && (batch[i].fetchedAt.Some? ==> x.fetchedAt == batch[i].fetchedAt)
  {
    AddedIff(archive, batch, nowIso);
  }

  /** The link set is taken once, before the loop: two entries of one batch
      sharing a new link are both added, whatever else they differ in, the
      later one in front. */
  lemma BatchDuplicatesBothAdded(archive: seq<ArchiveEntry>, e1: ArchiveEntry, e2: ArchiveEntry, nowIso: string)
    requires e1.item.link == e2.item.link && e1.item.link !in ArchiveLinks(archive)
    ensures Merge(archive, [e1, e2], nowIso) == [Stamp(e2, nowIso), Stamp(e1, nowIso)] + archive
  {
    var existing := ArchiveLinks(archive);
    assert [e1, e2][..1] == [e1];
    assert [e1][..0] == [];
    assert Prepended([e1], existing, nowIso) == [Stamp(e1, nowIso)] + Prepended([], existing, nowIso);
    assert Prepended([e1, e2], existing, nowIso) == [Stamp(e2, nowIso)] + Prepended([e1], existing, nowIso);
  }

  /** Pushing onto the front of a concatenation pushes onto its first part. */
  lemma ConsAppend<T>(x: T, a: seq<T>, b: seq<T>)
    ensures [x] + (a + b) == ([x] + a) + b
  {
  }

  /** One visit of the merge loop: the prefix grows by one entry. */
  lemma MergeStep(batch: seq<ArchiveEntry>, i: nat, existing: set<string>, nowIso: string)
    requires i < |batch|
    ensures Prepended(batch[..i + 1], existing, nowIso)
         == (if batch[i].item.link !in existing then [Stamp(batch[i], nowIso)] else [])
            + Prepended(batch[..i], existing, nowIso)
    ensures |Fresh(batch[..i + 1], existing)|
         == |Fresh(batch[..i], existing)| + (if batch[i].item.link !in existing then 1 else 0)
  {
    assert batch[..i + 1] == batch[..i] + [batch[i]];
    assert batch[..i + 1][..i] == batch[..i];
    FilterAppend(batch[..i], [batch[i]], (e: ArchiveEntry) => e.item.link !in existing);
  }

  /** Nothing is added when every batch link is already present. */
  lemma {:induction false} PrependedNone(batch: seq<ArchiveEntry>, existing: set<string>, nowIso: string)
    requires forall i :: 0 <= i < |batch| ==> batch[i].item.link in existing
    ensures Prepended(batch, existing, nowIso) == []
    decreases |batch|
  {
    if batch != [] {
      PrependedNone(batch[..|batch| - 1], existing, nowIso);
    }
  }

  /** Merging the same batch again, at any time, adds nothing. */
  lemma MergeAgainAddsNothing(archive: seq<ArchiveEntry>, batch: seq<ArchiveEntry>, nowIso: string, laterIso: string)
    ensures var m := Merge(archive, batch, nowIso);
      Merge(m, batch, laterIso) == m
  {
    var existing := ArchiveLinks(archive);
    var m := Merge(archive, batch, nowIso);
    var added := Prepended(batch, existing, nowIso);
    AddedIff(archive, batch, nowIso);
    forall i | 0 <= i < |batch|
      ensures batch[i].item.link in ArchiveLinks(m)
    {
      if batch[i].item.link in existing {
        var j :| 0 <= j < |archive| && archive[j].item.link == batch[i].item.link;
        assert m[|added| + j] == archive[j];
      } else {
        var x := Stamp(batch[i], nowIso);
        var k :| 0 <= k < |added| && added[k] == x;
        assert m[k] == x;
      }
    }
    PrependedNone(batch, ArchiveLinks(m), laterIso);
  }

  /** The home page of a run with news shows that news, each entry with its
      original item; a run without news shows the first ten entries of the
      archive, which that run leaves as it was. */
  lemma HomePage(current: seq<ArchiveEntry>, archive: seq<ArchiveEntry>, nowIso: string)
    ensures var links := ArchiveLinks(archive);
      var home := HomeItems(Stamped(current, links, nowIso), Merge(archive, current, nowIso));
      && (current != [] ==> |home| == |current| && forall k :: 0 <= k < |current| ==> home[k].item == current[k].item)
      && (current == [] ==> home == Take(archive, 10))
      && (home == [] <==> current == [] && archive == [])
  {
    if current == [] {
      assert Merge(archive, current, nowIso) == archive;
    }
  }

  /** The generator, with the archive file and the pages it writes. */
  class WebGenerator {
    /** The archive file: `None` when it is missing or unreadable. */
    var stored: Option<seq<ArchiveEntry>>
    /** The items the home page was last rendered with. */
    var homePage: seq<ArchiveEntry>
    /** The items the archive page was last rendered with. */
    var archivePage: seq<ArchiveEntry>

    constructor(file: Option<seq<ArchiveEntry>>)
      ensures stored == file && homePage == [] && archivePage == []
    {
      stored := file;
      homePage := [];
      archivePage := [];
    }

    /** The archive as the loader reads it: an unreadable or missing file
        reads as the empty archive. */
    function Loaded(): (archive: seq<ArchiveEntry>)
      reads this
      ensures stored.None? ==> archive == []
      ensures stored.Some? ==> archive == stored.value
    {
      match stored
      case None => []
      case Some(a) => a
    }

    /** The merge: entries of `newItems` with a link not in the loaded
        archive are stamped and pushed onto its front one by one; the result
        is saved. Also returned: the batch as the loop leaves the caller's
        item records, and the number of entries added. */
    method UpdateArchive(newItems: seq<ArchiveEntry>, nowIso: string)
      returns (archive: seq<ArchiveEntry>, items: seq<ArchiveEntry>, added: nat)
      modifies this
      ensures archive == Merge(old(Loaded()), newItems, nowIso)
      ensures items == Stamped(newItems, ArchiveLinks(old(Loaded())), nowIso)
      ensures added == |Fresh(newItems, ArchiveLinks(old(Loaded())))|
      ensures stored == Some(archive)
      ensures homePage == old(homePage) && archivePage == old(archivePage)
    {
      archive := Loaded();
      ghost var loaded := archive;
      var existingLinks := set i | 0 <= i < |archive| :: archive[i].item.link;
      added := 0;
      items := newItems;
      for i := 0 to |newItems|
        invariant archive == Prepended(newItems[..i], existingLinks, nowIso) + loaded
        invariant added == |Fresh(newItems[..i], existingLinks)|
        invariant |items| == |newItems|
        invariant forall k :: 0 <= k < i ==> items[k] == Touched(newItems[k], existingLinks, nowIso)
        invariant forall k :: i <= k < |newItems| ==> items[k] == newItems[k]
        invariant unchanged(this)
      {
        MergeStep(newItems, i, existingLinks, nowIso);
        var item := newItems[i];
        if item.item.link !in existingLinks {
          if item.fetchedAt.None? {
            item := item.(fetchedAt := Some(nowIso));
            items := items[i := item];
          }
          assert item == Stamp(newItems[i], nowIso);
          ConsAppend(item, Prepended(newItems[..i], existingLinks, nowIso), loaded);
          archive := [item] + archive;
          added := added + 1;
        } else {
          assert Prepended(newItems[..i + 1], existingLinks, nowIso) == Prepended(newItems[..i], existingLinks, nowIso);
        }
        assert items[i] == Touched(newItems[i], existingLinks, nowIso);
      }
      assert newItems[..|newItems|] == newItems;
      assert items == Stamped(newItems, existingLinks, nowIso);
      stored := Some(archive);
    }

    /** Site generation: merge the run's news into the archive, then render
        the home page with that news (as the merge left it) or, when there is
        none, with the first ten archive entries, and the archive page with
        the whole archive. */
    method GenerateSite(currentNews: seq<ArchiveEntry>, nowIso: string)
      modifies this
      ensures var links := ArchiveLinks(old(Loaded()));
        var merged := Merge(old(Loaded()), currentNews, nowIso);
        && stored == Some(merged)
        && archivePage == merged
        && homePage == HomeItems(Stamped(currentNews, links, nowIso), merged)
    {
      var fullArchive, current, _ := UpdateArchive(currentNews, nowIso);
      var displayItems := if current != [] then current else Take(fullArchive, 10);
      homePage := displayItems;
      archivePage := fullArchive;
    }
  }
}
