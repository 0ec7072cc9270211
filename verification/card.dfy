/** The subscription card: its rank and NEW/READ controls, and the cache
    updates that follow a successful patch or delete request. */
module Card {
  import opened Wrappers
  import opened Subscriptions
  import Favorites

  /** The rank shown and sent when none is known. */
  const DefaultRank: int := 3

  /** The rank the card starts with (`rank ?? DEFAULT_RANK`). */
  function InitialRank(rank: Option<int>): (r: int)
    ensures rank.Some? ==> r == rank.value
    ensures rank.None? ==> r == DefaultRank
  {
    rank.GetOr(DefaultRank)
  }

  /** The card's rank after a rating change, and the rank it sends, if any. */
  datatype RankChange = RankChange(shown: int, sent: Option<int>)

  /** A rating change to `value` (`None` when the rating is cleared).  It is
      ignored while a rank update is pending; otherwise the rank shown and
      the rank sent are the value, or the default for a cleared rating. */
  function OnRatingChange(pending: bool, shown: int, value: Option<int>): (r: RankChange)
    ensures pending ==> r == RankChange(shown, None)
    ensures !pending ==> r.sent == Some(r.shown)
    ensures !pending && value.Some? ==> r.shown == value.value
    ensures !pending && value.None? ==> r.shown == DefaultRank
  {
    if pending then RankChange(shown, None)
    else
      var rank := value.GetOr(DefaultRank);
      RankChange(rank, Some(rank))
  }

  /** A click on the NEW/READ button: the `hasNew` value it sends, nothing
      while an update of it is pending. */
  function OnToggleNew(pending: bool, hasNew: bool): (r: Option<bool>)
    ensures r.None? <==> pending
    ensures r.Some? ==> r.value != hasNew
  {
    if pending then None else Some(!hasNew)
  }

  /** The button's label. */
  function NewLabel(hasNew: bool): (r: string)
    ensures r == "NEW" <==> hasNew
    ensures !hasNew ==> r == "READ"
  {
    if hasNew then "NEW" else "READ"
  }

  // ---------------------------------------------------------------------------
  // Cache updates
  // ---------------------------------------------------------------------------

  /** The entries with `url` take `hasNew` and `rank` from the server's
      response; all other fields and all other entries stay as they are. */
  function PatchList(list: seq<Subscription>, url: string, response: Subscription): (r: seq<Subscription>)
    ensures |r| == |list|
    ensures forall i :: 0 <= i < |list| && list[i].subUrl != url ==> r[i] == list[i]
    ensures forall i :: 0 <= i < |list| && list[i].subUrl == url ==>
      r[i].hasNew == response.hasNew && r[i].rank == response.rank
      && r[i].(hasNew := list[i].hasNew, rank := list[i].rank) == list[i]
    decreases |list|
  {
    if |list| == 0 then []
    else
      var head := if list[0].subUrl == url then list[0].(hasNew := response.hasNew, rank := response.rank)
                  else list[0];
      [head] + PatchList(list[1..], url, response)
  }

  /** The cache after a successful patch; a cache not yet loaded is taken
      as the empty list. */
  function Patch(cache: Option<seq<Subscription>>, url: string, response: Subscription): (r: seq<Subscription>)
    ensures cache.None? ==> r == []
    ensures cache.Some? ==> |r| == |cache.value|
  {
    PatchList(cache.GetOr([]), url, response)
  }

  /** Patching keeps every entry's `subUrl` and so keeps them unique. */
  lemma PatchKeepsUrls(list: seq<Subscription>, url: string, response: Subscription)
    ensures forall i :: 0 <= i < |list| ==> PatchList(list, url, response)[i].subUrl == list[i].subUrl
    ensures Favorites.UniqueUrls(list) ==> Favorites.UniqueUrls(PatchList(list, url, response))
  {
  }

  /** Patching with the same response twice is patching once. */
  lemma PatchIdempotent(list: seq<Subscription>, url: string, response: Subscription)
    ensures PatchList(PatchList(list, url, response), url, response) == PatchList(list, url, response)
  {
    var once := PatchList(list, url, response);
    var twice := PatchList(once, url, response);
    assert forall i :: 0 <= i < |list| ==> twice[i] == once[i];
  }

  /** Nothing but the entries with `url` changes: removing them from the
      patched list leaves what removing them from the original leaves. */
  lemma {:induction false} PatchFrame(list: seq<Subscription>, url: string, response: Subscription)
    ensures WithoutUrl(PatchList(list, url, response), url) == WithoutUrl(list, url)
    decreases |list|
  {
    if |list| > 0 {
      var r := PatchList(list, url, response);
      PatchFrame(list[1..], url, response);
      assert r[1..] == PatchList(list[1..], url, response);
    }
  }

  /** The cache after a successful delete: every entry with `url` is
      removed, the others keep their order, and a cache not yet loaded
      stays unloaded. */
  function Delete(cache: Option<seq<Subscription>>, url: string): (r: Option<seq<Subscription>>)
    ensures r.None? <==> cache.None?
    ensures r.Some? ==> forall s :: s in r.value <==> s in cache.value && s.subUrl != url
  {
    match cache
    case None => None
    case Some(list) => Some(WithoutUrl(list, url))
  }

  /** Deleting a record that was just refreshed into the cache leaves what
      deleting it from the cache before the refresh leaves. */
  lemma DeleteAfterUpsert(cache: Option<seq<Subscription>>, s: Subscription)
    ensures Delete(Favorites.Upsert(cache, s), s.subUrl) == Delete(cache, s.subUrl)
  {
    if cache.Some? {
      var kept := WithoutUrl(cache.value, s.subUrl);
      assert Favorites.Upsert(cache, s) == Some(kept + [s]);
      WithoutUrlAppend(kept, [s], s.subUrl);
      WithoutUrlIdempotent(cache.value, s.subUrl);
      assert [s][1..] == [];
      assert WithoutUrl([s], s.subUrl) == [];
      assert WithoutUrl(kept + [s], s.subUrl) == kept;
    }
  }
}
