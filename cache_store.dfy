/**
 * The cache merge of generateCache: every listed page the cache does not
 * know yet gets an unresolved record at the end of the cache.
 */
module CacheStore {
  import opened Records

  /**
   * The cache after the merge loop has gone through `list`, one page at a
   * time; the lookup for a page also sees the records added for the pages
   * before it. It keeps the cache in front and adds at most one record per
   * listed page.
   */
  function Merged(cache: seq<Record>, list: seq<string>): (r: seq<Record>)
    ensures |cache| <= |r| <= |cache| + |list|
    ensures r[..|cache|] == cache
    decreases |list|
  {
    if list == [] then cache
    else
      var before := Merged(cache, list[..|list| - 1]);
      var uri := list[|list| - 1];
      if HasUri(before, uri) then before else before + [Unresolved(uri)]
  }

  /**
   * generateCache (index.js:24-46) without the file: `loaded` is what the
   * cache file held (empty when there was none).
   */
  method GenerateCache(loaded: seq<Record>, skinsList: seq<string>) returns (cache: seq<Record>)
    ensures cache == Merged(loaded, skinsList)
    ensures |loaded| <= |cache| && cache[..|loaded|] == loaded
    ensures forall u | u in skinsList :: HasUri(cache, u)
    ensures UniqueUris(loaded) ==> UniqueUris(cache)
  {
    cache := loaded;
    for i := 0 to |skinsList|
      invariant cache == Merged(loaded, skinsList[..i])
    {
      var uri := skinsList[i];
      assert skinsList[..i + 1][..i] == skinsList[..i];
      if !HasUri(cache, uri) {
        cache := cache + [Unresolved(uri)];
      }
    }
    assert skinsList[..|skinsList|] == skinsList;
    MergedExtends(loaded, skinsList);
    forall u | u in skinsList ensures HasUri(cache, u) {
      MergedUris(loaded, skinsList, u);
    }
    MergedNoNewDuplicates(loaded, skinsList);
  }

  /**
   * The merge keeps the existing records, fields and order, in front, and
   * everything after them is an unresolved record for a listed page that
   * the cache did not have.
   */
  lemma {:induction false} MergedExtends(cache: seq<Record>, list: seq<string>)
    ensures var r := Merged(cache, list);
      |cache| <= |r| && r[..|cache|] == cache &&
      forall j | |cache| <= j < |r| ::
        r[j] == Unresolved(r[j].uri) && r[j].uri in list && !HasUri(cache, r[j].uri)
    decreases |list|
  {
    if list != [] {
      var init := list[..|list| - 1];
      MergedExtends(cache, init);
      var before := Merged(cache, init);
      var r := Merged(cache, list);
      forall j | |cache| <= j < |r|
        ensures r[j] == Unresolved(r[j].uri) && r[j].uri in list && !HasUri(cache, r[j].uri)
      {
        if j < |before| {
          assert r[j] == before[j];
          assert r[j].uri in init;
          assert init[IndexIn(init, r[j].uri)] == list[IndexIn(init, r[j].uri)];
        } else {
          assert r[j] == Unresolved(list[|list| - 1]);
        }
      }
    }
  }

  /** After the merge, the cache knows a page iff it knew it before or it is listed. */
  lemma {:induction false} MergedUris(cache: seq<Record>, list: seq<string>, u: string)
    ensures HasUri(Merged(cache, list), u) <==> HasUri(cache, u) || u in list
    decreases |list|
  {
    if list != [] {
      var init := list[..|list| - 1];
      var last := list[|list| - 1];
      MergedUris(cache, init, u);
      var before := Merged(cache, init);
      var r := Merged(cache, list);
      assert list == init + [last];
      if !HasUri(before, last) {
        assert r == before + [Unresolved(last)];
        assert r[|before|].uri == last;
        if HasUri(r, u) && u != last {
          var i :| 0 <= i < |r| && r[i].uri == u;
          assert before[i].uri == u;
        }
        if HasUri(before, u) {
          var i :| 0 <= i < |before| && before[i].uri == u;
          assert r[i].uri == u;
        }
      }
    }
  }

  /** No record from position `n` on shares its page with an earlier one. */
  predicate UniqueFrom(cache: seq<Record>, n: nat)
  {
    forall i, j | 0 <= i < j < |cache| && n <= j :: cache[i].uri != cache[j].uri
  }

  /**
   * The merge never adds a second record for a page: not for a page the
   * cache has, and not for a page listed twice.
   */
  lemma {:induction false} MergedNoNewDuplicates(cache: seq<Record>, list: seq<string>)
    ensures UniqueFrom(Merged(cache, list), |cache|)
    ensures UniqueUris(cache) ==> UniqueUris(Merged(cache, list))
    decreases |list|
  {
    MergedExtends(cache, list);
    if list != [] {
      var init := list[..|list| - 1];
      var last := list[|list| - 1];
      MergedNoNewDuplicates(cache, init);
      var before := Merged(cache, init);
      var r := Merged(cache, list);
      if !HasUri(before, last) {
        assert r == before + [Unresolved(last)];
        forall i, j | 0 <= i < j < |r| ensures (|cache| <= j || UniqueUris(cache)) ==> r[i].uri != r[j].uri {
          if j == |before| {
            assert r[i] == before[i] && r[j].uri == last;
            assert before[i].uri != last;
            assert r[i].uri != r[j].uri;
          } else {
            assert r[i] == before[i] && r[j] == before[j];
            if UniqueUris(cache) {
              assert UniqueUris(before);
            }
          }
        }
      }
    }
  }

  /** The records the merge adds come in the order their pages are first listed. */
  lemma {:induction false} MergedListOrder(cache: seq<Record>, list: seq<string>)
    ensures var r := Merged(cache, list);
      |cache| <= |r| &&
      forall a, b | |cache| <= a < b < |r| ::
        r[a].uri in list && r[b].uri in list && IndexIn(list, r[a].uri) < IndexIn(list, r[b].uri)
    decreases |list|
  {
    MergedExtends(cache, list);
    if list != [] {
      var init := list[..|list| - 1];
      var last := list[|list| - 1];
      MergedListOrder(cache, init);
      MergedExtends(cache, init);
      var before := Merged(cache, init);
      var r := Merged(cache, list);
      assert list == init + [last];
      forall a | |cache| <= a < |before| ensures IndexIn(list, before[a].uri) == IndexIn(init, before[a].uri) {
        IndexInExtended(init, last, before[a].uri);
      }
      if !HasUri(before, last) {
        MergedUris(cache, init, last);
        assert last !in init;
        assert IndexIn(list, last) == |init| by {
          assert list[..|init|] == init;
        }
        forall a, b | |cache| <= a < b < |r|
          ensures IndexIn(list, r[a].uri) < IndexIn(list, r[b].uri)
        {
          assert r[a] == before[a];
          if b < |before| {
            assert r[b] == before[b];
          }
        }
      }
    }
  }

  /** Merging a list whose pages are all known already changes nothing. */
  lemma {:induction false} MergedAllKnown(cache: seq<Record>, list: seq<string>)
    requires forall u | u in list :: HasUri(cache, u)
    ensures Merged(cache, list) == cache
    decreases |list|
  {
    if list != [] {
      var init := list[..|list| - 1];
      assert forall u | u in init :: u in list;
      MergedAllKnown(cache, init);
      assert list[|list| - 1] in list;
    }
  }

  /** Merging the same list a second time leaves the cache as the first merge left it. */
  lemma MergeIdempotent(cache: seq<Record>, list: seq<string>)
    ensures Merged(Merged(cache, list), list) == Merged(cache, list)
  {
    forall u | u in list ensures HasUri(Merged(cache, list), u) {
      MergedUris(cache, list, u);
    }
    MergedAllKnown(Merged(cache, list), list);
  }
}
