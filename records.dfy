/**
 * The crawl cache's record type and the selection of the records that
 * still have to be crawled.
 */
module Records {

  datatype Option<T> = None | Some(value: T)

  /**
   * One entry of the cache file: the skin page, its workshop id (-1 while
   * unresolved), the item shortname ('' while unresolved) and the `ignore`
   * mark, which is absent (false) until a crawl finds no workshop id.
   */
  datatype Record = Record(uri: string, workshopid: int, itemid: string, ignore: bool)

  /** The record the cache merge pushes for a page it has not seen yet. */
  function Unresolved(uri: string): Record
  {
    Record(uri, -1, "", false)
  }

  /** A record still to be crawled: no workshop id yet and not ignored. */
  predicate IsPending(r: Record)
  {
    r.workshopid == -1 && !r.ignore
  }

  predicate StrictlyIncreasing(s: seq<nat>)
  {
    forall a, b | 0 <= a < b < |s| :: s[a] < s[b]
  }

  /** Some record of the cache is for page `uri`. */
  predicate HasUri(cache: seq<Record>, uri: string)
  {
    exists i | 0 <= i < |cache| :: cache[i].uri == uri
  }

  /** No page occurs twice in the cache. */
  predicate UniqueUris(cache: seq<Record>)
  {
    forall i, j | 0 <= i < j < |cache| :: cache[i].uri != cache[j].uri
  }

  /**
   * The records to crawl, as positions in the cache: the crawl list holds
   * the cache's own record objects, so it is modelled by where they are.
   * The positions are exactly those of the pending records, in cache order.
   */
  function PendingIndices(cache: seq<Record>): (r: seq<nat>)
    ensures forall k | 0 <= k < |r| :: r[k] < |cache| && IsPending(cache[r[k]])
    ensures forall i | 0 <= i < |cache| && IsPending(cache[i]) :: i in r
    ensures StrictlyIncreasing(r)
  {
    if |cache| == 0 then []
    else
      var n := |cache| - 1;
      PendingIndices(cache[..n]) + (if IsPending(cache[n]) then [n] else [])
  }

  /** The crawl list itself: the pending records, in cache order. */
  function PendingRecords(cache: seq<Record>): (r: seq<Record>)
    ensures |r| == |PendingIndices(cache)|
    ensures forall k | 0 <= k < |r| :: r[k] == cache[PendingIndices(cache)[k]]
  {
    var idx := PendingIndices(cache);
    seq(|idx|, k requires 0 <= k < |idx| => cache[idx[k]])
  }

  /** A filter that keeps a record exactly when it is pending keeps nothing else. */
  lemma {:induction false} PendingRecordsAreThePending(cache: seq<Record>)
    ensures forall r | r in PendingRecords(cache) :: IsPending(r) && r in cache
    ensures forall r | r in cache && IsPending(r) :: r in PendingRecords(cache)
    ensures (forall r | r in cache :: !IsPending(r)) <==> PendingRecords(cache) == []
  {
    var idx := PendingIndices(cache);
    var p := PendingRecords(cache);
    forall r | r in cache && IsPending(r) ensures r in p {
      var i :| 0 <= i < |cache| && cache[i] == r;
      var k :| 0 <= k < |idx| && idx[k] == i;
      assert p[k] == r;
    }
    if p != [] {
      assert p[0] in cache && IsPending(p[0]);
    }
  }

  /** The first position of `u` in `list` (a page in the skin list, an item id in the cache). */
  function IndexIn(list: seq<string>, u: string): (k: nat)
    requires u in list
    ensures k < |list| && list[k] == u && u !in list[..k]
  {
    if list[0] == u then 0
    else
      var k := 1 + IndexIn(list[1..], u);
      assert list[..k] == [list[0]] + list[1..][..k - 1];
      k
  }

  lemma {:induction false} IndexInExtended(list: seq<string>, x: string, u: string)
    requires u in list
    ensures IndexIn(list + [x], u) == IndexIn(list, u)
  {
    if list[0] != u {
      assert (list + [x])[1..] == list[1..] + [x];
      IndexInExtended(list[1..], x, u);
    }
  }
}
