/**
 * main (index.js:100-142): merge the skin list into the cache, crawl the
 * pending records if there are any, save the cache, write the plugin
 * configuration.
 */
module Orchestrator {
  import opened Records
  import opened CacheStore
  import opened Crawler
  import opened PluginConfig

  /**
   * What one run leaves behind: the last snapshot written to the cache
   * file, the plugin configuration if one was written, the error the run
   * ended with, how many progress ticks it made and how many pages it read.
   */
  datatype RunResult = RunResult(saved: seq<Record>, config: Option<seq<Group>>,
                                 failure: Option<CrawlError>, ticks: nat, pagesRead: nat)

  /**
   * One run of the program. `loaded` is the cache file's content (empty
   * when there is none), `skinsList` the skin list file's.
   */
  method RunOnce(loaded: seq<Record>, skinsList: seq<string>, fetch: string -> Outcome, sigint: nat -> bool)
    returns (result: RunResult)
    ensures var merged := Merged(loaded, skinsList);
      var run := CrawlPending(merged, fetch, sigint);
      && result.saved == run.records
      && result.ticks == run.ticks
      && result.pagesRead == Processed(run)
      && (run.stop.Threw? ==> result.failure == Some(run.stop.error) && result.config == None)
      && (!run.stop.Threw? ==> result.failure == None && result.config == Some(Expected(Resolved(run.records))))
    ensures PendingIndices(Merged(loaded, skinsList)) == [] ==>
      result.saved == Merged(loaded, skinsList) && result.pagesRead == 0
  {
    var cache := GenerateCache(loaded, skinsList);
    var toCrawl := PendingIndices(cache);
    if |toCrawl| == 0 {
      var config := GeneratePluginConfig(cache);
      return RunResult(cache, Some(config), None, 0, 0);
    }
    var records := new Record[|cache|](i requires 0 <= i < |cache| => cache[i]);
    assert records[..] == cache;
    var ticks, stop := Crawl(records, toCrawl, fetch, sigint);
    var pagesRead := Processed(Run(records[..], ticks, stop));
    if stop.Threw? {
      // the cache is saved before the error is rethrown
      return RunResult(records[..], None, Some(stop.error), ticks, pagesRead);
    }
    // a cancelled crawl returns normally: the cache is saved and the
    // configuration rewritten as after a full crawl
    var config := GeneratePluginConfig(records[..]);
    result := RunResult(records[..], Some(config), None, ticks, pagesRead);
  }

  /** The crawl changes no page address, so the crawled cache still knows every page it knew. */
  lemma CrawlKeepsUris(cache: seq<Record>, fetch: string -> Outcome, sigint: nat -> bool)
    ensures var run := CrawlPending(cache, fetch, sigint);
      |run.records| == |cache| && forall j | 0 <= j < |cache| :: run.records[j].uri == cache[j].uri
  {
    var p := PendingIndices(cache);
    var run := CrawlPending(cache, fetch, sigint);
    CrawlFromRecords(cache, p, fetch, sigint, 0);
    forall j | 0 <= j < |cache| ensures run.records[j].uri == cache[j].uri {
      if !NotListedFrom(p, 0, j) {
        var k :| 0 <= k < |p| && p[k] == j;
        assert run.records[p[k]] == VisitedAt(cache, p, fetch, k) || run.records[p[k]] == cache[p[k]];
      }
    }
  }

  /** No page that the crawl of the pending records of `cache` reads gives the workshop id -1. */
  predicate CrawledPagesHaveIds(cache: seq<Record>, fetch: string -> Outcome)
  {
    forall k | 0 <= k < |PendingIndices(cache)| ::
      !(PageAt(cache, PendingIndices(cache), fetch, k).WorkshopId? &&
        PageAt(cache, PendingIndices(cache), fetch, k).id == -1)
  }

  /**
   * A crawl that went through every pending record, where no page it read
   * gave the workshop id -1, leaves no record pending.
   */
  lemma FullCrawlLeavesNothingPending(cache: seq<Record>, fetch: string -> Outcome, sigint: nat -> bool)
    requires CrawlPending(cache, fetch, sigint).stop == Finished
    requires CrawledPagesHaveIds(cache, fetch)
    ensures PendingIndices(CrawlPending(cache, fetch, sigint).records) == []
  {
    var p := PendingIndices(cache);
    var saved := CrawlPending(cache, fetch, sigint).records;
    CrawlFinishes(cache, fetch, sigint);
    CrawlTouchesOnlyPending(cache, fetch, sigint);
    forall j | 0 <= j < |saved| ensures !IsPending(saved[j]) {
      if IsPending(cache[j]) {
        var k :| 0 <= k < |p| && p[k] == j;
        var o := PageAt(cache, p, fetch, k);
        assert Fault(o) == None;
        assert !(o.WorkshopId? && o.id == -1);
        assert saved[j] == Visited(cache[j], o);
      }
    }
    PendingRecordsAreThePending(saved);
  }

  /**
   * After a run whose crawl went through every pending record, and where no
   * page it read gave the workshop id -1, the next run with the same skin list
   * finds the cache up to date: the merge changes nothing and nothing is
   * pending, so it only rewrites the configuration.
   */
  lemma NextRunIsUpToDate(loaded: seq<Record>, skinsList: seq<string>, fetch: string -> Outcome, sigint: nat -> bool)
    requires CrawlPending(Merged(loaded, skinsList), fetch, sigint).stop == Finished
    requires CrawledPagesHaveIds(Merged(loaded, skinsList), fetch)
    ensures var saved := CrawlPending(Merged(loaded, skinsList), fetch, sigint).records;
      Merged(saved, skinsList) == saved && PendingIndices(saved) == []
  {
    var merged := Merged(loaded, skinsList);
    var saved := CrawlPending(merged, fetch, sigint).records;
    CrawlKeepsUris(merged, fetch, sigint);
    forall u | u in skinsList ensures HasUri(saved, u) {
      MergedUris(loaded, skinsList, u);
      var j :| 0 <= j < |merged| && merged[j].uri == u;
      assert saved[j].uri == u;
    }
    MergedAllKnown(saved, skinsList);
    FullCrawlLeavesNothingPending(merged, fetch, sigint);
  }
}
