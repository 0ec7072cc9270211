/** The list bookkeeping of the favourites view: the refresh button picks
    the record checked longest ago, runs a refresh pass on it and upserts
    the result into the cached list; the list is shown by rank, highest
    first. */
module Favorites {
  import opened Wrappers
  import opened Subscriptions
  import Sync

  // ---------------------------------------------------------------------------
  // Picking the stalest record
  // ---------------------------------------------------------------------------

  /** `data.reduce((acc, curr) => curr.checkedAt < acc.checkedAt ? curr : acc, …)`
      from index `i` on, with the accumulator at index `acc`.  The
      accumulator is the first minimum of the prefix already scanned. */
  function StalestFrom(data: seq<Subscription>, acc: nat, i: nat): (k: nat)
    requires acc < |data| && acc <= i <= |data|
    requires forall j :: 0 <= j < i ==> data[acc].checkedAt <= data[j].checkedAt
    requires forall j :: 0 <= j < acc ==> data[j].checkedAt > data[acc].checkedAt
    ensures k < |data|
    ensures forall j :: 0 <= j < |data| ==> data[k].checkedAt <= data[j].checkedAt
    ensures forall j :: 0 <= j < k ==> data[j].checkedAt > data[k].checkedAt
    decreases |data| - i
  {
    if i == |data| then acc
    else StalestFrom(data, if data[i].checkedAt < data[acc].checkedAt then i else acc, i + 1)
  }

  /** The record the refresh button refreshes: the reduce seeded with
      `data[0]`.  It has the least `checkedAt`, and since the comparison is
      strict the earliest such record wins a tie. */
  function Stalest(data: seq<Subscription>): (k: nat)
    requires |data| > 0
    ensures k < |data|
    ensures forall j :: 0 <= j < |data| ==> data[k].checkedAt <= data[j].checkedAt
    ensures forall j :: 0 <= j < k ==> data[j].checkedAt > data[k].checkedAt
  {
    StalestFrom(data, 0, 0)
  }

  // ---------------------------------------------------------------------------
  // The refresh click
  // ---------------------------------------------------------------------------

  /** What a click on the refresh button does: nothing (no data loaded
      yet), throw (no record is written and nothing is posted), or save the
      refreshed record (upsert it into the cache and post it). */
  datatype Click = Ignored | Thrown | Saved(record: Subscription)

  /** The click handler.  An empty list seeds the reduce with `undefined`,
      and the refresh pass then fails on it. */
  function OnRefreshClick(data: Option<seq<Subscription>>, now: Timestamp,
                          fetchGallery: string -> Option<Sync.GalleryDoc>,
                          fetchBook: string -> Option<Sync.BookDoc>): (c: Click)
    ensures data.None? <==> c == Ignored
    ensures data == Some([]) ==> c == Thrown
    ensures c.Saved? ==> data.Some? && |data.value| > 0
    ensures c.Saved? ==> c.record.checkedAt == now
    ensures c.Saved? ==> c.record.subUrl == data.value[Stalest(data.value)].subUrl
    ensures data.Some? && |data.value| > 0 ==>
      (c == Thrown <==>
       Sync.UpdateSubscription(data.value[Stalest(data.value)], now, fetchGallery, fetchBook).outcome.Unexpected?)
    ensures c.Saved? ==>
      Sync.UpdateSubscription(data.value[Stalest(data.value)], now, fetchGallery, fetchBook).outcome
      == Sync.Ok(c.record)
  {
    match data
    case None => Ignored
    case Some(list) =>
      if |list| == 0 then Thrown
      else
        match Sync.UpdateSubscription(list[Stalest(list)], now, fetchGallery, fetchBook).outcome
        case Unexpected => Thrown
        case Ok(record) => Saved(record)
  }

  /** The cache after the click: only a saved record changes it. */
  function CacheAfterClick(cache: Option<seq<Subscription>>, c: Click): (r: Option<seq<Subscription>>)
    ensures !c.Saved? ==> r == cache
    ensures c.Saved? && cache.Some? ==> r.Some? && c.record in r.value
  {
    if c.Saved? then Upsert(cache, c.record) else cache
  }

  // ---------------------------------------------------------------------------
  // Upsert into the cache
  // ---------------------------------------------------------------------------

  /** Every `subUrl` occurs at most once in `list`. */
  predicate UniqueUrls(list: seq<Subscription>) {
    forall i, j :: 0 <= i < j < |list| ==> list[i].subUrl != list[j].subUrl
  }

  /** The cache update after a refresh: every entry with the record's
      `subUrl` is removed and the record is appended last; a cache not yet
      loaded stays unloaded. */
  function Upsert(cache: Option<seq<Subscription>>, s: Subscription): (r: Option<seq<Subscription>>)
    ensures r.None? <==> cache.None?
    ensures r.Some? ==> |r.value| >= 1 && r.value[|r.value| - 1] == s
    ensures r.Some? ==> forall i :: 0 <= i < |r.value| - 1 ==> r.value[i].subUrl != s.subUrl
    ensures r.Some? ==> forall x :: x in r.value[..|r.value| - 1] <==> x in cache.value && x.subUrl != s.subUrl
    ensures r.Some? ==> r.value[..|r.value| - 1] == WithoutUrl(cache.value, s.subUrl)
  {
    match cache
    case None => None
    case Some(prev) =>
      var kept := WithoutUrl(prev, s.subUrl);
      assert forall i :: 0 <= i < |kept| ==> kept[i] in kept;
      assert (kept + [s])[..|kept|] == kept;
      Some(kept + [s])
  }

  /** Upserting keeps `subUrl`s unique. */
  lemma UpsertKeepsUrlsUnique(cache: seq<Subscription>, s: Subscription)
    requires UniqueUrls(cache)
    ensures UniqueUrls(Upsert(Some(cache), s).value)
  {
    var kept := WithoutUrl(cache, s.subUrl);
    UniqueInFilter(cache, s.subUrl);
    assert Upsert(Some(cache), s).value == kept + [s];
    var r := kept + [s];
    forall i, j | 0 <= i < j < |r| ensures r[i].subUrl != r[j].subUrl {
      assert r[i] == kept[i];
      if j < |kept| {
        assert r[j] == kept[j];
      } else {
        assert kept[i] in kept;
      }
    }
  }

  /** Filtering a list with unique `subUrl`s keeps them unique. */
  lemma {:induction false} UniqueInFilter(list: seq<Subscription>, url: string)
    requires UniqueUrls(list)
    ensures UniqueUrls(WithoutUrl(list, url))
    decreases |list|
  {
    if |list| > 0 {
      var tail := list[1..];
      assert UniqueUrls(tail) by {
        forall a, b | 0 <= a < b < |tail| ensures tail[a].subUrl != tail[b].subUrl {
          assert tail[a] == list[a + 1] && tail[b] == list[b + 1];
        }
      }
      UniqueInFilter(tail, url);
      var rest := WithoutUrl(tail, url);
      if list[0].subUrl != url {
        forall k | 0 <= k < |rest| ensures rest[k].subUrl != list[0].subUrl {
          assert rest[k] in rest;
          var m :| 0 <= m < |tail| && tail[m] == rest[k];
          assert list[m + 1] == rest[k];
        }
        UniqueCons(list[0], rest);
      }
    }
  }

  /** A list with unique `subUrl`s stays so with a head whose URL it does
      not hold. */
  lemma UniqueCons(head: Subscription, rest: seq<Subscription>)
    requires UniqueUrls(rest)
    requires forall k :: 0 <= k < |rest| ==> rest[k].subUrl != head.subUrl
    ensures UniqueUrls([head] + rest)
  {
    var r := [head] + rest;
    forall i, j | 0 <= i < j < |r| ensures r[i].subUrl != r[j].subUrl {
      assert r[j] == rest[j - 1];
      if i > 0 {
        assert r[i] == rest[i - 1];
      }
    }
  }

  /** Refreshing the same record twice leaves the cache as refreshing it
      once. */
  lemma UpsertIdempotent(cache: Option<seq<Subscription>>, s: Subscription)
    ensures Upsert(Upsert(cache, s), s) == Upsert(cache, s)
  {
    if cache.Some? {
      var kept := WithoutUrl(cache.value, s.subUrl);
      assert Upsert(cache, s) == Some(kept + [s]);
      WithoutUrlAppend(kept, [s], s.subUrl);
      WithoutUrlIdempotent(cache.value, s.subUrl);
      assert [s][1..] == [];
      assert WithoutUrl([s], s.subUrl) == [];
      assert WithoutUrl(kept + [s], s.subUrl) == kept;
    }
  }

  // ---------------------------------------------------------------------------
  // Display order
  // ---------------------------------------------------------------------------

  /** The sort key: the rank, 0 when missing. */
  function RankKey(s: Subscription): (key: int) {
    s.rank.GetOr(0)
  }

  /** Highest rank first. */
  predicate SortedByRank(list: seq<Subscription>) {
    forall i, j :: 0 <= i < j < |list| ==> RankKey(list[i]) >= RankKey(list[j])
  }

  /** The entries of `list` with sort key `key`, in order. */
  function WithKey(list: seq<Subscription>, key: int): (r: seq<Subscription>)
    decreases |list|
  {
    if |list| == 0 then []
    else (if RankKey(list[0]) == key then [list[0]] else []) + WithKey(list[1..], key)
  }

  /** Filtering by key distributes over putting one entry in front. */
  lemma WithKeyCons(e: Subscription, list: seq<Subscription>, key: int)
    ensures WithKey([e] + list, key) == (if RankKey(e) == key then [e] else []) + WithKey(list, key)
  {
    assert ([e] + list)[1..] == list;
  }

  /** Puts `x` into a sorted list ahead of every entry with its key or a
      lower one, so that it precedes the entries it preceded in the input. */
  function Insert(x: Subscription, sorted: seq<Subscription>): (r: seq<Subscription>)
    requires SortedByRank(sorted)
    ensures SortedByRank(r)
    ensures multiset(r) == multiset(sorted) + multiset{x}
    ensures forall key :: WithKey(r, key) == (if RankKey(x) == key then [x] else []) + WithKey(sorted, key)
    decreases |sorted|
  {
    if |sorted| == 0 then
      assert forall key :: WithKey([x], key) == (if RankKey(x) == key then [x] else []) + WithKey([], key) by {
        forall key ensures WithKey([x], key) == (if RankKey(x) == key then [x] else []) + WithKey([], key) {
          WithKeyCons(x, [], key);
          assert [x] + [] == [x];
        }
      }
      [x]
    else if RankKey(sorted[0]) <= RankKey(x) then
      InsertFront(x, sorted);
      [x] + sorted
    else
      var rest := Insert(x, sorted[1..]);
      InsertLater(x, sorted, rest);
      [sorted[0]] + rest
  }

  /** `x` may go in front of a sorted list whose head has its key or a
      lower one. */
  lemma InsertFront(x: Subscription, sorted: seq<Subscription>)
    requires SortedByRank(sorted) && |sorted| > 0 && RankKey(sorted[0]) <= RankKey(x)
    ensures SortedByRank([x] + sorted)
    ensures forall key :: WithKey([x] + sorted, key) == (if RankKey(x) == key then [x] else []) + WithKey(sorted, key)
  {
    forall key ensures WithKey([x] + sorted, key) == (if RankKey(x) == key then [x] else []) + WithKey(sorted, key) {
      WithKeyCons(x, sorted, key);
    }
  }

  /** The head of a sorted list whose key is above `x`'s may stay in front
      of `rest`, the insertion of `x` into the tail. */
  lemma InsertLater(x: Subscription, sorted: seq<Subscription>, rest: seq<Subscription>)
    requires SortedByRank(sorted) && |sorted| > 0 && RankKey(sorted[0]) > RankKey(x)
    requires SortedByRank(rest)
    requires multiset(rest) == multiset(sorted[1..]) + multiset{x}
    requires forall key :: WithKey(rest, key) == (if RankKey(x) == key then [x] else []) + WithKey(sorted[1..], key)
    ensures SortedByRank([sorted[0]] + rest)
    ensures multiset([sorted[0]] + rest) == multiset(sorted) + multiset{x}
    ensures forall key :: WithKey([sorted[0]] + rest, key) == (if RankKey(x) == key then [x] else []) + WithKey(sorted, key)
  {
    var head := sorted[0];
    assert sorted == [head] + sorted[1..];
    assert multiset([head] + rest) == multiset{head} + multiset(rest);
    HeadDominates(x, sorted, rest);
    SortedCons(head, rest);
    WithKeyLater(x, sorted, rest);
  }

  /** The head of `sorted` ranks above `x`, so putting it in front does not
      disturb where `x` falls among the entries of its own key. */
  lemma WithKeyLater(x: Subscription, sorted: seq<Subscription>, rest: seq<Subscription>)
    requires |sorted| > 0 && RankKey(sorted[0]) > RankKey(x)
    requires forall key :: WithKey(rest, key) == (if RankKey(x) == key then [x] else []) + WithKey(sorted[1..], key)
    ensures forall key :: WithKey([sorted[0]] + rest, key) == (if RankKey(x) == key then [x] else []) + WithKey(sorted, key)
  {
    var head := sorted[0];
    assert sorted == [head] + sorted[1..];
    forall key ensures WithKey([head] + rest, key) == (if RankKey(x) == key then [x] else []) + WithKey(sorted, key) {
      WithKeyLaterAt(x, head, sorted[1..], rest, key);
    }
  }

  /** `WithKeyLater` for one key. */
  lemma WithKeyLaterAt(x: Subscription, head: Subscription, tail: seq<Subscription>, rest: seq<Subscription>, key: int)
    requires RankKey(head) > RankKey(x)
    requires WithKey(rest, key) == (if RankKey(x) == key then [x] else []) + WithKey(tail, key)
    ensures WithKey([head] + rest, key) == (if RankKey(x) == key then [x] else []) + WithKey([head] + tail, key)
  {
    WithKeyCons(head, rest, key);
    WithKeyCons(head, tail, key);
    if RankKey(head) == key {
      assert RankKey(x) != key;
    }
  }

  /** Every entry of the insertion into the tail ranks at most the head. */
  lemma HeadDominates(x: Subscription, sorted: seq<Subscription>, rest: seq<Subscription>)
    requires SortedByRank(sorted) && |sorted| > 0 && RankKey(sorted[0]) > RankKey(x)
    requires multiset(rest) == multiset(sorted[1..]) + multiset{x}
    ensures forall i :: 0 <= i < |rest| ==> RankKey(rest[i]) <= RankKey(sorted[0])
  {
    forall i | 0 <= i < |rest| ensures RankKey(rest[i]) <= RankKey(sorted[0]) {
      var e := rest[i];
      assert e in multiset(rest);
      if e != x {
        assert e in multiset(sorted[1..]);
        var m :| 0 <= m < |sorted[1..]| && sorted[1..][m] == e;
        assert sorted[m + 1] == e;
      }
    }
  }

  /** A sorted list stays sorted with a head that ranks at least its
      entries. */
  lemma SortedCons(head: Subscription, rest: seq<Subscription>)
    requires SortedByRank(rest)
    requires forall i :: 0 <= i < |rest| ==> RankKey(rest[i]) <= RankKey(head)
    ensures SortedByRank([head] + rest)
  {
    var r := [head] + rest;
    forall i, j | 0 <= i < j < |r| ensures RankKey(r[i]) >= RankKey(r[j]) {
      assert r[j] == rest[j - 1];
      if i > 0 {
        assert r[i] == rest[i - 1];
      }
    }
  }

  /** The view's `sort((a, b) => rankKey(b) - rankKey(a))`: a stable sort,
      highest rank first. */
  function SortByRank(list: seq<Subscription>): (r: seq<Subscription>)
    ensures SortedByRank(r)
    ensures multiset(r) == multiset(list)
    ensures forall key :: WithKey(r, key) == WithKey(list, key)
    decreases |list|
  {
    if |list| == 0 then []
    else
      var sortedTail := SortByRank(list[1..]);
      var r := Insert(list[0], sortedTail);
      SortStep(list, sortedTail, r);
      r
  }

  /** Inserting the head into the sorted tail keeps the entries and their
      order within each key. */
  lemma SortStep(list: seq<Subscription>, sortedTail: seq<Subscription>, r: seq<Subscription>)
    requires |list| > 0
    requires multiset(sortedTail) == multiset(list[1..])
    requires forall key :: WithKey(sortedTail, key) == WithKey(list[1..], key)
    requires multiset(r) == multiset(sortedTail) + multiset{list[0]}
    requires forall key :: WithKey(r, key) == (if RankKey(list[0]) == key then [list[0]] else []) + WithKey(sortedTail, key)
    ensures multiset(r) == multiset(list)
    ensures forall key :: WithKey(r, key) == WithKey(list, key)
  {
    assert list == [list[0]] + list[1..];
    forall key ensures WithKey(r, key) == WithKey(list, key) {
      WithKeyCons(list[0], list[1..], key);
    }
  }

  /** The cards in display order; an unloaded list shows nothing. */
  function Display(data: Option<seq<Subscription>>): (r: seq<Subscription>)
    ensures data.None? ==> r == []
    ensures SortedByRank(r)
    ensures data.Some? ==> multiset(r) == multiset(data.value)
    ensures data.Some? ==> forall key :: WithKey(r, key) == WithKey(data.value, key)
  {
    SortByRank(data.GetOr([]))
  }
}
