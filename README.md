# rust-skins-config, modelled in Dafny

rust-skins-config builds the "Skins" configuration of a Rust server skin
plugin. It keeps a cache of skin pages in `cache.json`. Each record holds a
page address, its workshop id (-1 while unresolved), its item shortname and
an optional `ignore` mark. One run does five things:

- it merges the skin list into the cache;
- it selects the records still pending;
- it reads the page of each pending record in cache order;
- it saves the cache;
- it groups the resolved records by item shortname into the configuration.

A SIGINT handler sets a flag. The crawl polls that flag after each record,
so a stopped run keeps its progress, and the next run picks up the rest.
A cancelled crawl returns normally. The run then saves the cache and
rewrites the configuration, as it does after a full crawl (index.js:137-141).
Only a crawl that throws skips the configuration.

The model has one module per part of `index.js`:

- `Records` (records.dfy): the cache record and the pending filter.
- `CacheStore` (cache_store.dfy): the cache merge.
- `ItemIds` (item_id.dfy): the item shortname taken from the item image's address.
- `Crawler` (crawler.dfy): the crawl, an in-place loop over an `array` of records.
- `PluginConfig` (plugin_config.dfy): the grouping.
- `Orchestrator` (orchestrator.dfy): `main`.

The crawl list in the source holds the cache's own record objects, so
updating a record through the list updates the cache. The model therefore
represents the crawl list as positions in the cache array. Each page read
is an `Outcome`, given by a `fetch` parameter:

- the page could not be fetched or parsed;
- it shows no workshop id;
- it shows a workshop id, with or without the item image's `src`.

The flag is a parameter `sigint(k)`: its value when polled after the k-th
record. The progress bar is a tick counter that the crawl returns.

Each loop is proved equal to a function:

- The merge loop (`GenerateCache`) is proved equal to `Merged`. `Merged`
  is the same lookup-and-append written as recursion over the list.
- The crawl loop (`Crawl`) is proved equal to `CrawlFrom`. `CrawlFrom` is
  the same fetch, update, throw, poll and tick sequence written as
  recursion over the crawl list.
- The grouping reduce (`GeneratePluginConfig`) is proved equal to
  `Expected`. `Expected` is an independent definition: one group per
  distinct item id in first-encounter order, each holding that item's ids
  in record order.

For the first two, the lemmas state what the recursive versions
guarantee: which records change and how, what is kept, and where the
crawl stops.

## Model

| member | source | states |
|---|---|---|
| Records.PendingIndices | index.js:118 | the crawl list holds exactly the records with workshop id -1 and no ignore mark, in cache order |
| Records.PendingRecords | index.js:118 | the crawl list has one entry per pending position, and each entry is the cache record at that position |
| Records.PendingRecordsAreThePending | index.js:118 | the filter keeps every pending record and nothing else; it is empty iff no record is pending |
| CacheStore.GenerateCache | index.js:24-46 | the merge loop computes `Merged`; loaded records keep their place and fields; every listed page is in the cache; it adds no duplicate page |
| CacheStore.Merged | index.js:35-41 | the merge keeps the cache in front and adds at most one record per listed page |
| CacheStore.MergedExtends | index.js:35-41 | the merge only appends, and each appended record is an unresolved record for a listed page the cache lacked |
| CacheStore.MergedUris | index.js:35-41 | after the merge the cache knows a page iff it knew it before or the page is listed |
| CacheStore.MergedNoNewDuplicates | index.js:35-41 | a page listed twice, or already cached, gets no second record |
| CacheStore.MergedListOrder | index.js:35-41 | appended records follow the order in which their pages first appear in the list |
| CacheStore.MergedAllKnown | index.js:35-38 | a list whose pages are all cached changes nothing |
| CacheStore.MergeIdempotent | index.js:35-41 | merging the same list twice gives the cache of one merge |
| ItemIds.LastIndexOf | index.js:63 | `lastIndexOf`: the last position of the character, or -1 when it is absent |
| ItemIds.IndexOf | index.js:63 | `indexOf`: the first occurrence of the pattern, or -1 when there is none |
| ItemIds.RemoveFirst | index.js:63 | `replace('.png', '')`: only the first occurrence is cut out, and the string is unchanged without one |
| ItemIds.FileName | index.js:63 | `substring(lastIndexOf('/') + 1)`: a suffix of the address, preceded by a '/' unless it is the whole address, and holding no '/' itself, so it is exactly the part after the last '/' |
| ItemIds.Stem | index.js:63 | the shortname is never longer than the image address and never holds a '/' |
| ItemIds.StemOfPath | index.js:63 | the shortname is the text after the last '/', or the whole string when there is none, minus its first ".png" |
| ItemIds.StemOfImagePath | index.js:63 | the image `<dir>/<name>.png` gives back `name` when `name` contains no '/' and no ".png" |
| Crawler.Crawl | index.js:52-76 | the in-place loop leaves the cache, tick count and stop reason that `CrawlFrom` defines |
| Crawler.CrawlFrom | index.js:53-75 | the crawl keeps the cache's length and makes at most one tick per listed record |
| Crawler.CrawlFromCounts | index.js:53-75 | the crawl reads at most the rest of the list; it finishes iff it ticked every remaining record |
| Crawler.CrawlFromRecords | index.js:53-68 | the records read are updated as their pages say; records not on the list, or not reached, are unchanged |
| Crawler.Visited | index.js:59-68 | a read page keeps the page address and leaves the record unchanged when the fetch failed; a pending record stays pending iff the fetch failed or the id read is -1 |
| Crawler.FaultPoints | index.js:55-68 | a failed fetch throws before the record is touched; a missing item image throws after the id is stored; otherwise the page sets the ignore mark, or both id and shortname |
| Crawler.CrawlFromPolls | index.js:53-75 | every ticked record neither threw nor saw the flag; a cancelled crawl stopped at a record that did not throw and after which the flag was seen; a crawl that threw stopped at the record whose page raised that error |
| Crawler.CrawlPending | index.js:118-131 | the crawl of the pending records keeps the cache's length and ticks at most once per pending record |
| Crawler.CrawlTouchesOnlyPending | index.js:118-131 | the crawl changes no resolved or ignored record |
| Crawler.CrawlFinishes | index.js:53-75 | the crawl goes through every pending record iff no page throws and the flag is never seen; then all were read and ticked |
| Crawler.CrawlCancelledPrefix | index.js:70-74 | when the flag is first seen after the k-th record, records up to k are read, later ones untouched, and k ticks happened |
| Crawler.CrawlFailureKeepsProgress | index.js:55-65 | a throwing page ends the crawl; earlier records stay read, later ones untouched, and the ticks count the earlier records |
| Crawler.FetchFailureStaysPending | index.js:55 | a page that cannot be fetched leaves its record unchanged and pending |
| Crawler.MissingImageLeavesIdOnly | index.js:60-63 | a page with an id but no item image stores the id, keeps the old item id, then throws |
| PluginConfig.Resolved | index.js:80 | the filter keeps exactly the records whose workshop id is above -1 |
| PluginConfig.ResolvedConcat | index.js:80 | the filter works record by record: filtering a concatenation concatenates the filtered parts, so cache order and repeats are kept |
| PluginConfig.ResolvedOne | index.js:80 | a single record is kept exactly when its workshop id is above -1 |
| PluginConfig.Shortnames | index.js:81-91 | the group names are distinct and are exactly the item ids of the records |
| PluginConfig.IdsFor | index.js:84-89 | an item's ids are empty exactly when no record is of that item, and each comes from a record of that item |
| PluginConfig.IdsForConcat | index.js:84-89 | an item's ids split over a concatenation of records |
| PluginConfig.IdsForOne | index.js:84-89 | a single record gives its own id exactly when it is of that item |
| PluginConfig.IdsForHoldsRecord | index.js:84-89 | every record puts its own id into its item's ids, at the position given by the number of records of that item before it |
| PluginConfig.IdsForKeepsOrder | index.js:84-89 | a later record of the same item sits at a later position, so no id is dropped or merged |
| PluginConfig.Expected | index.js:80-94 | one group per distinct item id, and no group is empty |
| PluginConfig.FindGroup | index.js:81 | `find` by shortname: the first position holding that name, or none when no group has it |
| PluginConfig.ExpectedStep | index.js:81-93 | one reduce step appends the id to the group of a known item, or opens a new group at the end |
| PluginConfig.GeneratePluginConfig | index.js:78-98 | the reduce computes the one-group-per-item configuration; every permission is empty |
| PluginConfig.ExpectedTotal | index.js:80-94 | the configuration holds exactly one skin id per resolved record |
| PluginConfig.ShortnamesFirstEncounter | index.js:81-91 | groups come in the order in which their item ids first appear |
| PluginConfig.ConfigGroupsByItem | index.js:80-94 | no two groups share a shortname, and every resolved record has its item's group |
| PluginConfig.ConfigHoldsEveryRecord | index.js:80-89 | the id of every resolved record is in its item's group, at that record's position among the item's records |
| PluginConfig.ConfigOnlyResolvedIds | index.js:80-94 | every id in a group is the workshop id of a resolved record of that item |
| PluginConfig.ExpectedNewItem | index.js:86-90 | a record of a new item opens a group at the end |
| PluginConfig.ExpectedKnownItem | index.js:83-84 | a record of a known item appends its id to that group |
| PluginConfig.GroupingExample | index.js:80-94 | records of item A, item B, an unresolved one and item A again give A with both ids, then B |
| Orchestrator.RunOnce | index.js:100-142 | a run saves the crawled cache; on a throw it writes no configuration, and otherwise, cancellation included, it writes the configuration of the saved cache; with nothing pending it reads no page |
| Orchestrator.CrawlKeepsUris | index.js:52-76 | the crawl changes no page address |
| Orchestrator.FullCrawlLeavesNothingPending | index.js:59-68 | a complete crawl in which no page it read gave the id -1 leaves nothing pending |
| Orchestrator.NextRunIsUpToDate | index.js:114-125 | after such a crawl, the next run with the same list merges nothing and crawls nothing |

## Left out

- Page download and HTML parsing (`getParsedPage`, the CSS selectors) are not modelled. Each page is an `Outcome` given by the `fetch` parameter.
- `regenSkinList` is not modelled. It downloads the skin list when `skinslist.json` is missing, and the model takes the list as an input.
- `parseInt` of the workshop id text is not modelled. The model takes the parsed integer, so a NaN result is not represented.
- Reading and writing `cache.json`, `skinslist.json` and `Skins.json` (JSON encoding, indentation) are not modelled. `RunOnce` returns the last cache snapshot and the configuration instead of writing them.
- The merge's cache-file write at index.js:43 is not modelled, because its content equals the returned cache.
- The `ENOENT` handling when reading the cache file is not modelled: a missing cache is the empty `loaded` sequence, and any other read error is not represented.
- The progress bar and console messages are left out. Only the number of `tick` calls is kept.
- A page's outcome depends only on its address, because `fetch` takes the uri. Two records with the same uri, which only a hand-edited cache file can hold, therefore get the same outcome. Two live downloads of that page could differ, and the model does not capture that.
- The SIGINT handler and the asynchronous scheduling around `await` are left out. The flag's value at each poll is the `sigint` parameter.
