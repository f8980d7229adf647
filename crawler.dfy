/**
 * The crawl (index.js:52-76): the pending records, in cache order, are
 * read one page at a time and updated in place; a cancellation flag is
 * polled after each record, before the progress tick.
 */
module Crawler {
  import opened Records
  import opened ItemIds

  /**
   * What reading a skin page gives. The page download and the HTML
   * selectors are outside the model: the crawl only sees their outcome.
   */
  datatype Outcome =
    | PageError                                       // the download or the parse failed
    | NoWorkshopId                                    // the page shows no workshop id
    | WorkshopId(id: int, imageSrc: Option<string>)   // the parsed id, and the item image's src if present

  datatype CrawlError =
    | FetchFailed        // the error of the page download
    | MissingImageSrc    // the TypeError of reading the src of a missing image

  /** How a crawl ends: it ran out of records, saw the flag, or threw. */
  datatype Stop = Finished | Interrupted | Threw(error: CrawlError)

  /**
   * The record after its page has been read (index.js:59-68). The page
   * address never changes, and a page takes a pending record out of the
   * pending set unless it failed or gave the id -1.
   */
  function Visited(r: Record, o: Outcome): (v: Record)
    ensures v.uri == r.uri
    ensures o.PageError? ==> v == r
    ensures IsPending(r) ==> (IsPending(v) <==> o.PageError? || (o.WorkshopId? && o.id == -1))
  {
    match o
    case PageError => r
    case NoWorkshopId => r.(ignore := true)
    case WorkshopId(id, None) => r.(workshopid := id)
    case WorkshopId(id, Some(src)) => r.(workshopid := id, itemid := Stem(src))
  }

  /** The error reading the page throws, if any. */
  function Fault(o: Outcome): Option<CrawlError>
  {
    match o
    case PageError => Some(FetchFailed)
    case WorkshopId(_, None) => Some(MissingImageSrc)
    case _ => None
  }

  /**
   * Where each error is thrown: a failed fetch before the record is touched
   * (index.js:55), a missing item image after the workshop id is stored
   * (index.js:60-63). A page that does not throw and shows an id has stored
   * both the id and the shortname.
   */
  lemma FaultPoints(r: Record, o: Outcome)
    ensures Fault(o) == Some(FetchFailed) ==> Visited(r, o) == r
    ensures Fault(o) == Some(MissingImageSrc) ==> o.WorkshopId? && Visited(r, o) == r.(workshopid := o.id)
    ensures Fault(o) == None && o.WorkshopId? ==>
      o.imageSrc.Some? && Visited(r, o) == r.(workshopid := o.id, itemid := Stem(o.imageSrc.value))
    ensures Fault(o) == None && !o.WorkshopId? ==> Visited(r, o) == r.(ignore := true)
  {
  }

  /** The cache after a crawl, how many progress ticks it made, and how it ended. */
  datatype Run = Run(records: seq<Record>, ticks: nat, stop: Stop)

  predicate ValidIndices(toCrawl: seq<nat>, n: nat)
  {
    forall k | 0 <= k < |toCrawl| :: toCrawl[k] < n
  }

  /** `run` with `t` earlier ticks counted in. */
  function After(run: Run, t: nat): Run
  {
    run.(ticks := run.ticks + t)
  }

  /**
   * The crawl from the `i`-th record of the crawl list on. `fetch` gives
   * each page's outcome, `sigint(k)` is the flag as read after the `k`-th
   * record.
   */
  function CrawlFrom(cache: seq<Record>, toCrawl: seq<nat>, fetch: string -> Outcome,
                     sigint: nat -> bool, i: nat): (run: Run)
    requires i <= |toCrawl| && ValidIndices(toCrawl, |cache|)
    ensures |run.records| == |cache|
    ensures i + run.ticks <= |toCrawl|
    decreases |toCrawl| - i
  {
    if i == |toCrawl| then Run(cache, 0, Finished)
    else
      var idx := toCrawl[i];
      var o := fetch(cache[idx].uri);
      var next := cache[idx := Visited(cache[idx], o)];
      match Fault(o)
      case Some(e) => Run(next, 0, Threw(e))
      case None =>
        if sigint(i) then Run(next, 0, Interrupted)
        else After(CrawlFrom(next, toCrawl, fetch, sigint, i + 1), 1)
  }

  /**
   * crawl(toCrawl, cache, tick): the records at the positions `toCrawl`
   * are updated in place; `ticks` counts the calls of `tick`.
   */
  method Crawl(cache: array<Record>, toCrawl: seq<nat>, fetch: string -> Outcome, sigint: nat -> bool)
    returns (ticks: nat, stop: Stop)
    requires ValidIndices(toCrawl, cache.Length)
    modifies cache
    ensures Run(cache[..], ticks, stop) == CrawlFrom(old(cache[..]), toCrawl, fetch, sigint, 0)
  {
    ticks := 0;
    var i := 0;
    while i < |toCrawl|
      invariant i <= |toCrawl|
      invariant After(CrawlFrom(cache[..], toCrawl, fetch, sigint, i), ticks)
             == CrawlFrom(old(cache[..]), toCrawl, fetch, sigint, 0)
      decreases |toCrawl| - i
    {
      ghost var before := cache[..];
      var skin := toCrawl[i];
      var page := fetch(cache[skin].uri);
      match page {
        case PageError =>
          stop := Threw(FetchFailed);
          assert cache[..] == before[skin := Visited(before[skin], page)];
          return;
        case NoWorkshopId =>
          cache[skin] := cache[skin].(ignore := true);
        case WorkshopId(id, src) =>
          cache[skin] := cache[skin].(workshopid := id);
          if src.None? {
            stop := Threw(MissingImageSrc);
            assert cache[..] == before[skin := Visited(before[skin], page)];
            return;
          }
          cache[skin] := cache[skin].(itemid := Stem(src.value));
      }
      assert cache[..] == before[skin := Visited(before[skin], page)];
      if sigint(i) {
        stop := Interrupted;
        return;
      }
      ticks := ticks + 1;
      i := i + 1;
    }
    stop := Finished;
  }

  /** How many records a crawl read: the ticked ones and, unless it finished, one more. */
  function Processed(run: Run): nat
  {
    if run.stop == Finished then run.ticks else run.ticks + 1
  }

  /** The `k`-th record of the crawl list as its page leaves it. */
  function VisitedAt(cache: seq<Record>, toCrawl: seq<nat>, fetch: string -> Outcome, k: nat): Record
    requires k < |toCrawl| && ValidIndices(toCrawl, |cache|)
  {
    Visited(cache[toCrawl[k]], fetch(cache[toCrawl[k]].uri))
  }

  /** The outcome of the `k`-th page of the crawl list. */
  function PageAt(cache: seq<Record>, toCrawl: seq<nat>, fetch: string -> Outcome, k: nat): Outcome
    requires k < |toCrawl| && ValidIndices(toCrawl, |cache|)
  {
    fetch(cache[toCrawl[k]].uri)
  }

  /** `j` is none of the positions of the crawl list from `i` on. */
  predicate NotListedFrom(toCrawl: seq<nat>, i: nat, j: nat)
  {
    forall m | i <= m < |toCrawl| :: toCrawl[m] != j
  }

  /** The record the `i`-th step writes is not written again, and later pages see the old cache. */
  lemma StepIsolated(cache: seq<Record>, toCrawl: seq<nat>, fetch: string -> Outcome, i: nat, r: Record)
    requires i < |toCrawl| && ValidIndices(toCrawl, |cache|) && StrictlyIncreasing(toCrawl)
    ensures NotListedFrom(toCrawl, i + 1, toCrawl[i])
    ensures var next := cache[toCrawl[i] := r];
      forall k | i < k < |toCrawl| :: next[toCrawl[k]] == cache[toCrawl[k]]
  {
    forall k | i < k < |toCrawl| ensures toCrawl[k] != toCrawl[i] {
      assert toCrawl[i] < toCrawl[k];
    }
  }

  /** A crawl keeps the cache's length and reads at most the rest of the list. */
  lemma {:induction false} CrawlFromCounts(cache: seq<Record>, toCrawl: seq<nat>, fetch: string -> Outcome,
                                           sigint: nat -> bool, i: nat)
    requires i <= |toCrawl| && ValidIndices(toCrawl, |cache|)
    ensures var run := CrawlFrom(cache, toCrawl, fetch, sigint, i);
      && i + Processed(run) <= |toCrawl|
      && (run.stop == Finished <==> i + run.ticks == |toCrawl|)
    decreases |toCrawl| - i
  {
    if i < |toCrawl| {
      var idx := toCrawl[i];
      var o := fetch(cache[idx].uri);
      var next := cache[idx := Visited(cache[idx], o)];
      if Fault(o) == None && !sigint(i) {
        CrawlFromCounts(next, toCrawl, fetch, sigint, i + 1);
      }
    }
  }

  /**
   * Every record the crawl ticked neither threw nor saw the flag; the one
   * after them is the record that threw or after which the flag was seen.
   */
  ghost predicate Polled(cache: seq<Record>, toCrawl: seq<nat>, fetch: string -> Outcome,
                         sigint: nat -> bool, i: nat, run: Run)
    requires i + run.ticks <= |toCrawl| && ValidIndices(toCrawl, |cache|)
  {
    && (forall k | i <= k < i + run.ticks :: Fault(PageAt(cache, toCrawl, fetch, k)) == None && !sigint(k))
    && (run.stop == Interrupted ==>
          && i + run.ticks < |toCrawl|
          && Fault(PageAt(cache, toCrawl, fetch, i + run.ticks)) == None
          && sigint(i + run.ticks))
    && (run.stop.Threw? ==>
          && i + run.ticks < |toCrawl|
          && Fault(PageAt(cache, toCrawl, fetch, i + run.ticks)) == Some(run.stop.error))
  }

  /**
   * What the crawl's polls saw (index.js:53-75): every ticked record neither
   * threw nor saw the flag; a cancelled crawl stopped at a record that did
   * not throw and after which the flag was seen; a crawl that threw stopped
   * at the record whose page raised that error.
   */
  lemma {:induction false} CrawlFromPolls(cache: seq<Record>, toCrawl: seq<nat>, fetch: string -> Outcome,
                                          sigint: nat -> bool, i: nat)
    requires i <= |toCrawl| && ValidIndices(toCrawl, |cache|) && StrictlyIncreasing(toCrawl)
    ensures Polled(cache, toCrawl, fetch, sigint, i, CrawlFrom(cache, toCrawl, fetch, sigint, i))
    decreases |toCrawl| - i
  {
    if i < |toCrawl| {
      var run := CrawlFrom(cache, toCrawl, fetch, sigint, i);
      var idx := toCrawl[i];
      var o := fetch(cache[idx].uri);
      var next := cache[idx := Visited(cache[idx], o)];
      assert PageAt(cache, toCrawl, fetch, i) == o;
      if Fault(o) == None && !sigint(i) {
        var rest := CrawlFrom(next, toCrawl, fetch, sigint, i + 1);
        assert run == After(rest, 1);
        CrawlFromPolls(next, toCrawl, fetch, sigint, i + 1);
        StepIsolated(cache, toCrawl, fetch, i, Visited(cache[idx], o));
        forall k | i < k < |toCrawl| ensures PageAt(next, toCrawl, fetch, k) == PageAt(cache, toCrawl, fetch, k) {
          assert next[toCrawl[k]] == cache[toCrawl[k]];
        }
        forall k | i <= k < i + run.ticks
          ensures Fault(PageAt(cache, toCrawl, fetch, k)) == None && !sigint(k)
        {
          if k > i {
            assert Fault(PageAt(next, toCrawl, fetch, k)) == None && !sigint(k);
          }
        }
      } else {
        assert run.ticks == 0;
      }
    }
  }

  /**
   * The records a crawl read are updated as their pages say, and no other
   * record changes.
   */
  lemma {:induction false} CrawlFromRecords(cache: seq<Record>, toCrawl: seq<nat>, fetch: string -> Outcome,
                                            sigint: nat -> bool, i: nat)
    requires i <= |toCrawl| && ValidIndices(toCrawl, |cache|) && StrictlyIncreasing(toCrawl)
    ensures var run := CrawlFrom(cache, toCrawl, fetch, sigint, i);
      && |run.records| == |cache|
      && (forall j | 0 <= j < |cache| && NotListedFrom(toCrawl, i, j) :: run.records[j] == cache[j])
      && (forall k | i <= k < |toCrawl| ::
            run.records[toCrawl[k]] ==
              if k < i + Processed(run) then VisitedAt(cache, toCrawl, fetch, k) else cache[toCrawl[k]])
    decreases |toCrawl| - i
  {
    CrawlFromCounts(cache, toCrawl, fetch, sigint, i);
    if i < |toCrawl| {
      var run := CrawlFrom(cache, toCrawl, fetch, sigint, i);
      var idx := toCrawl[i];
      var o := fetch(cache[idx].uri);
      var next := cache[idx := Visited(cache[idx], o)];
      StepIsolated(cache, toCrawl, fetch, i, Visited(cache[idx], o));
      if Fault(o) == None && !sigint(i) {
        var rest := CrawlFrom(next, toCrawl, fetch, sigint, i + 1);
        CrawlFromRecords(next, toCrawl, fetch, sigint, i + 1);
        assert run == After(rest, 1);
        assert Processed(run) == Processed(rest) + 1;
        forall j | 0 <= j < |cache| && NotListedFrom(toCrawl, i, j) ensures run.records[j] == cache[j] {
          assert NotListedFrom(toCrawl, i + 1, j) && toCrawl[i] != j;
        }
        forall k | i <= k < |toCrawl|
          ensures run.records[toCrawl[k]] ==
                  if k < i + Processed(run) then VisitedAt(cache, toCrawl, fetch, k) else cache[toCrawl[k]]
        {
          if k == i {
            assert run.records[idx] == rest.records[idx] == next[idx];
          } else {
            assert VisitedAt(next, toCrawl, fetch, k) == VisitedAt(cache, toCrawl, fetch, k);
            assert next[toCrawl[k]] == cache[toCrawl[k]];
          }
        }
      } else {
        assert run.records == next && Processed(run) == 1;
        forall k | i < k < |toCrawl| ensures run.records[toCrawl[k]] == cache[toCrawl[k]] {
        }
      }
    }
  }

  /**
   * The crawl of the pending records (index.js:118, 131): it keeps the
   * cache's length and ticks at most once per pending record.
   */
  function CrawlPending(cache: seq<Record>, fetch: string -> Outcome, sigint: nat -> bool): (run: Run)
    ensures |run.records| == |cache|
    ensures run.ticks <= |PendingIndices(cache)|
  {
    CrawlFrom(cache, PendingIndices(cache), fetch, sigint, 0)
  }

  /** The crawl changes only pending records; resolved and ignored ones keep every field. */
  lemma CrawlTouchesOnlyPending(cache: seq<Record>, fetch: string -> Outcome, sigint: nat -> bool)
    ensures var run := CrawlPending(cache, fetch, sigint);
      && |run.records| == |cache|
      && forall j | 0 <= j < |cache| && !IsPending(cache[j]) :: run.records[j] == cache[j]
  {
    var p := PendingIndices(cache);
    CrawlFromRecords(cache, p, fetch, sigint, 0);
    forall j | 0 <= j < |cache| && !IsPending(cache[j]) ensures NotListedFrom(p, 0, j) {
    }
  }

  /** No page of the crawl list throws, and the flag is never seen after one. */
  predicate NeverStopped(cache: seq<Record>, toCrawl: seq<nat>, fetch: string -> Outcome, sigint: nat -> bool)
    requires ValidIndices(toCrawl, |cache|)
  {
    forall k | 0 <= k < |toCrawl| :: Fault(PageAt(cache, toCrawl, fetch, k)) == None && !sigint(k)
  }

  /**
   * A crawl runs through all pending records exactly when no page throws
   * and the flag is never seen; then every pending record has been read and
   * ticked.
   */
  lemma CrawlFinishes(cache: seq<Record>, fetch: string -> Outcome, sigint: nat -> bool)
    ensures CrawlPending(cache, fetch, sigint).stop == Finished <==>
      NeverStopped(cache, PendingIndices(cache), fetch, sigint)
    ensures var run := CrawlPending(cache, fetch, sigint);
      run.stop == Finished ==> run.ticks == |PendingIndices(cache)|
    ensures var p := PendingIndices(cache);
      var run := CrawlPending(cache, fetch, sigint);
      run.stop == Finished ==> forall k | 0 <= k < |p| :: run.records[p[k]] == VisitedAt(cache, p, fetch, k)
  {
    var p := PendingIndices(cache);
    var run := CrawlPending(cache, fetch, sigint);
    CrawlFromCounts(cache, p, fetch, sigint, 0);
    CrawlFromPolls(cache, p, fetch, sigint, 0);
    CrawlFromRecords(cache, p, fetch, sigint, 0);
    assert run == CrawlFrom(cache, p, fetch, sigint, 0);
    assert Polled(cache, p, fetch, sigint, 0, run);
    if run.stop == Finished {
      assert run.ticks == |p| && Processed(run) == |p|;
      assert forall k | 0 <= k < |p| :: Fault(PageAt(cache, p, fetch, k)) == None && !sigint(k);
      assert forall k | 0 <= k < |p| :: run.records[p[k]] == VisitedAt(cache, p, fetch, k);
    } else {
      // the record after the ticked ones threw or saw the flag
      var k := run.ticks;
      assert k < |p|;
      if run.stop == Interrupted {
        assert sigint(k);
      } else {
        assert Fault(PageAt(cache, p, fetch, k)) != None;
      }
      assert !(Fault(PageAt(cache, p, fetch, k)) == None && !sigint(k));
    }
  }

  /**
   * Cancellation stops the crawl at a record boundary: if the flag is first
   * seen after the `k`-th pending record, that record and the ones before it
   * have been read, those after it are untouched, and `tick` ran `k` times.
   */
  lemma CrawlCancelledPrefix(cache: seq<Record>, fetch: string -> Outcome, sigint: nat -> bool)
    ensures var p := PendingIndices(cache);
      var run := CrawlPending(cache, fetch, sigint);
      var k := run.ticks;
      run.stop == Interrupted ==>
        && k < |p| && sigint(k)
        && (forall m | 0 <= m < k :: !sigint(m))
        && (forall m | 0 <= m < |p| ::
              run.records[p[m]] == if m <= k then VisitedAt(cache, p, fetch, m) else cache[p[m]])
  {
    var p := PendingIndices(cache);
    CrawlFromPolls(cache, p, fetch, sigint, 0);
    CrawlFromRecords(cache, p, fetch, sigint, 0);
  }

  /**
   * A page that throws ends the crawl with the progress so far kept: the
   * records before it are read, it is left as the failure leaves it, those
   * after it are untouched, and the ticks count the records before it.
   */
  lemma CrawlFailureKeepsProgress(cache: seq<Record>, fetch: string -> Outcome, sigint: nat -> bool)
    ensures var p := PendingIndices(cache);
      var run := CrawlPending(cache, fetch, sigint);
      var k := run.ticks;
      run.stop.Threw? ==>
        && k < |p|
        && Fault(PageAt(cache, p, fetch, k)) == Some(run.stop.error)
        && (forall m | 0 <= m < |p| ::
              run.records[p[m]] == if m <= k then VisitedAt(cache, p, fetch, m) else cache[p[m]])
  {
    var p := PendingIndices(cache);
    CrawlFromPolls(cache, p, fetch, sigint, 0);
    CrawlFromRecords(cache, p, fetch, sigint, 0);
  }

  /** A page that cannot be fetched leaves its record pending, so the next run retries it. */
  lemma FetchFailureStaysPending(cache: seq<Record>, fetch: string -> Outcome, sigint: nat -> bool)
    ensures var p := PendingIndices(cache);
      var run := CrawlPending(cache, fetch, sigint);
      run.stop == Threw(FetchFailed) ==>
        run.ticks < |p| && run.records[p[run.ticks]] == cache[p[run.ticks]] && IsPending(run.records[p[run.ticks]])
  {
    var p := PendingIndices(cache);
    CrawlFailureKeepsProgress(cache, fetch, sigint);
  }

  /**
   * A page with a workshop id but no item image throws after the id is
   * stored: the record keeps its old item id, and with an id of 0 or more
   * it is no longer pending, so no later run reads that page again.
   */
  lemma MissingImageLeavesIdOnly(cache: seq<Record>, fetch: string -> Outcome, sigint: nat -> bool)
    ensures var p := PendingIndices(cache);
      var run := CrawlPending(cache, fetch, sigint);
      run.stop == Threw(MissingImageSrc) ==>
        && run.ticks < |p|
        && var before := cache[p[run.ticks]];
           var after := run.records[p[run.ticks]];
           var page := PageAt(cache, p, fetch, run.ticks);
        && page.WorkshopId? && page.imageSrc.None?
        && after == before.(workshopid := page.id)
        && (page.id >= 0 ==> !IsPending(after))
  {
    CrawlFailureKeepsProgress(cache, fetch, sigint);
  }
}
