/** The subscription record the extension keeps for each followed listing
    page, and the filter by `sub_url` that the client-side cache uses. */
module Subscriptions {
  import opened Wrappers

  /** Milliseconds since the epoch, as `Date.now()` returns them. */
  type Timestamp = int

  /** One followed listing page.  `subUrl` is its identity.  `rank` is
      optional because the views read it with a default (`rank ?? 0`,
      `rank ?? DEFAULT_RANK`) and copy it from server responses that may
      omit it. */
  datatype Subscription = Subscription(
    subUrl: string,
    workUrl: string,
    title: string,
    image: string,
    updatedAt: Timestamp,
    checkedAt: Timestamp,
    name: string,
    rank: Option<int>,
    hasNew: bool)

  /** The entries of `list` whose `subUrl` is not `url`, in their order
      (`list.filter((s) => s.sub_url !== url)`). */
  function WithoutUrl(list: seq<Subscription>, url: string): (r: seq<Subscription>)
    ensures |r| <= |list|
    ensures forall s :: s in r <==> s in list && s.subUrl != url
  {
    if |list| == 0 then []
    else if list[0].subUrl == url then WithoutUrl(list[1..], url)
    else [list[0]] + WithoutUrl(list[1..], url)
  }

  /** Filtering keeps relative order: filtering a concatenation filters each
      part and concatenates the results. */
  lemma {:induction false} WithoutUrlAppend(a: seq<Subscription>, b: seq<Subscription>, url: string)
    ensures WithoutUrl(a + b, url) == WithoutUrl(a, url) + WithoutUrl(b, url)
    decreases |a|
  {
    if |a| == 0 {
      assert a + b == b;
    } else {
      assert (a + b)[0] == a[0];
      assert (a + b)[1..] == a[1..] + b;
      WithoutUrlAppend(a[1..], b, url);
    }
  }

  /** A list in which no entry has `url` is left as it is. */
  lemma {:induction false} WithoutUrlAbsent(list: seq<Subscription>, url: string)
    requires forall i :: 0 <= i < |list| ==> list[i].subUrl != url
    ensures WithoutUrl(list, url) == list
    decreases |list|
  {
    if |list| > 0 {
      WithoutUrlAbsent(list[1..], url);
      assert list == [list[0]] + list[1..];
    }
  }

  /** Filtering twice by the same URL is filtering once. */
  lemma WithoutUrlIdempotent(list: seq<Subscription>, url: string)
    ensures WithoutUrl(WithoutUrl(list, url), url) == WithoutUrl(list, url)
  {
    var once := WithoutUrl(list, url);
    assert forall i :: 0 <= i < |once| ==> once[i] in once;
    WithoutUrlAbsent(once, url);
  }
}
