/** The refresh pass over one subscription (`updateSubscription`).

    The pass fetches the listing page at `subUrl`, picks the first gallery
    entry tagged as Japanese, fetches that entry's book page, and compares
    the book's title with the stored one.  Fetching and HTML parsing are
    abstracted: a fetcher maps a URL to the parsed document it yields, or
    to `None` when the request or the parse fails.  The pass reports which
    URLs it requested, so that "the book page is never fetched" can be
    stated.  The clock is the parameter `now`, read once for both
    timestamps. */
module Sync {
  import opened Wrappers
  import opened Subscriptions

  /** The `data-tags` token that marks a gallery entry as Japanese. */
  const JapaneseTag: string := "6346"

  /** Stored for a title or an author the book page does not carry. */
  const ExtractionFailed: string := "取得失敗"

  /** Stored for an image the gallery entry does not carry. */
  const MissingImage: string := "undefined"

  /** One `div.gallery` entry of the listing page: its `data-tags`
      attribute, the `href` of its first child as an anchor (`None` when
      there is no such child), and the `data-src` of its `img`. */
  datatype Candidate = Candidate(dataTags: Option<string>, href: Option<string>, thumbnail: Option<string>)

  /** The listing page: its gallery entries in document order. */
  datatype GalleryDoc = GalleryDoc(candidates: seq<Candidate>)

  /** The book page: the text of `h2.title span.pretty` and of
      `h2.title span.before`, when present. */
  datatype BookDoc = BookDoc(title: Option<string>, author: Option<string>)

  /** The value `updateSubscription` resolves to: the record, or an
      `UnexpectedError` for any failure. */
  datatype Outcome = Ok(subscription: Subscription) | Unexpected

  /** The outcome of one pass and the URLs it requested, in order. */
  datatype Pass = Pass(outcome: Outcome, requested: seq<string>)

  // ---------------------------------------------------------------------------
  // Splitting `data-tags`
  // ---------------------------------------------------------------------------

  /** The parts joined with `sep` between them (the inverse of `Split`). */
  function Join(parts: seq<string>, sep: char): (r: string)
    decreases |parts|
  {
    if |parts| == 0 then ""
    else if |parts| == 1 then parts[0]
    else parts[0] + [sep] + Join(parts[1..], sep)
  }

  /** JavaScript's `s.split(sep)` for a one-character separator: the
      maximal runs between separators, empty runs included. */
  function Split(s: string, sep: char): (r: seq<string>)
    ensures |r| >= 1
    ensures forall part :: part in r ==> sep !in part
    ensures Join(r, sep) == s
    decreases |s|
  {
    if |s| == 0 then [""]
    else
      var rest := Split(s[1..], sep);
      if s[0] == sep then [""] + rest
      else [[s[0]] + rest[0]] + rest[1..]
  }

  /** A run without the separator followed by the separator splits off as
      the first part. */
  lemma {:induction false} SplitAfterPart(a: string, b: string, sep: char)
    requires sep !in a
    ensures Split(a + [sep] + b, sep) == [a] + Split(b, sep)
    decreases |a|
  {
    var s := a + [sep] + b;
    if |a| == 0 {
      assert s[0] == sep && s[1..] == b;
    } else {
      assert a[0] in a;
      assert sep !in a[1..] by {
        assert forall k :: 0 <= k < |a[1..]| ==> a[1..][k] == a[k + 1];
      }
      assert s[0] == a[0];
      assert s[1..] == a[1..] + [sep] + b;
      SplitAfterPart(a[1..], b, sep);
      assert [a[0]] + a[1..] == a;
    }
  }

  /** A run without the separator splits into itself. */
  lemma {:induction false} SplitPart(a: string, sep: char)
    requires sep !in a
    ensures Split(a, sep) == [a]
    decreases |a|
  {
    if |a| > 0 {
      assert a[0] in a;
      assert sep !in a[1..] by {
        assert forall k :: 0 <= k < |a[1..]| ==> a[1..][k] == a[k + 1];
      }
      SplitPart(a[1..], sep);
      assert [a[0]] + a[1..] == a;
    }
  }

  /** Splitting undoes joining when no part holds the separator, so the
      tokens `Split` returns are exactly the separator-free parts. */
  lemma {:induction false} SplitJoin(parts: seq<string>, sep: char)
    requires |parts| >= 1
    requires forall i :: 0 <= i < |parts| ==> sep !in parts[i]
    ensures Split(Join(parts, sep), sep) == parts
    decreases |parts|
  {
    if |parts| == 1 {
      SplitPart(parts[0], sep);
    } else {
      SplitJoin(parts[1..], sep);
      SplitAfterPart(parts[0], Join(parts[1..], sep), sep);
      assert [parts[0]] + parts[1..] == parts;
    }
  }

  // ---------------------------------------------------------------------------
  // Choosing the candidate
  // ---------------------------------------------------------------------------

  /** The entry's `data-tags` (empty when absent), split on spaces, holds the
      exact token `6346`. */
  predicate Tagged(c: Candidate) {
    JapaneseTag in Split(c.dataTags.GetOr(""), ' ')
  }

  /** `k` is the first tagged entry of `cs` in document order. */
  predicate FirstTagged(cs: seq<Candidate>, k: nat) {
    k < |cs| && Tagged(cs[k]) && forall j :: 0 <= j < k ==> !Tagged(cs[j])
  }

  /** The index `Array.prototype.find` stops at, if any. */
  function FindTagged(cs: seq<Candidate>): (r: Option<nat>)
    ensures r.Some? ==> FirstTagged(cs, r.value)
    ensures r.None? <==> forall j :: 0 <= j < |cs| ==> !Tagged(cs[j])
    decreases |cs|
  {
    if |cs| == 0 then None
    else if Tagged(cs[0]) then Some(0)
    else match FindTagged(cs[1..]) {
      case None => None
      case Some(k) => Some(k + 1)
    }
  }

  /** The first tagged entry is unique. */
  lemma FirstTaggedUnique(cs: seq<Candidate>, k: nat, m: nat)
    requires FirstTagged(cs, k) && FirstTagged(cs, m)
    ensures k == m
  {
  }

  // ---------------------------------------------------------------------------
  // The pass
  // ---------------------------------------------------------------------------

  /** Marks the record as checked at `now`; nothing else changes. */
  function UpdateCheckedAt(s: Subscription, now: Timestamp): (r: Subscription)
    ensures r.checkedAt == now
    ensures r.(checkedAt := s.checkedAt) == s
  {
    s.(checkedAt := now)
  }

  /** One refresh pass over `s`.  Every failure (a fetch that rejects, an
      entry without an anchor child) becomes `Unexpected`; the record is
      only written once both pages are in hand. */
  function UpdateSubscription(s: Subscription, now: Timestamp,
                              fetchGallery: string -> Option<GalleryDoc>,
                              fetchBook: string -> Option<BookDoc>): (r: Pass)
    ensures 1 <= |r.requested| <= 2 && r.requested[0] == s.subUrl
    ensures r.outcome.Ok? ==> r.outcome.subscription.checkedAt == now
    ensures r.outcome.Ok? ==> r.outcome.subscription.subUrl == s.subUrl
    ensures r.outcome.Ok? ==> r.outcome.subscription.rank == s.rank
    ensures r.outcome.Ok? ==>
      r.outcome.subscription == s.(checkedAt := now) || r.outcome.subscription.updatedAt == now
  {
    match fetchGallery(s.subUrl)
    case None => Pass(Unexpected, [s.subUrl])
    case Some(gallery) =>
      match FindTagged(gallery.candidates)
      case None => Pass(Ok(UpdateCheckedAt(s, now)), [s.subUrl])
      case Some(k) =>
        var book := gallery.candidates[k];
        match book.href
        case None => Pass(Unexpected, [s.subUrl])
        case Some(bookUrl) =>
          match fetchBook(bookUrl)
          case None => Pass(Unexpected, [s.subUrl, bookUrl])
          case Some(doc) =>
            if doc.title == Some(s.title) then
              Pass(Ok(UpdateCheckedAt(s, now)), [s.subUrl, bookUrl])
            else
              Pass(Ok(s.(name := doc.author.GetOr(ExtractionFailed),
                         title := doc.title.GetOr(ExtractionFailed),
                         image := book.thumbnail.GetOr(MissingImage),
                         updatedAt := now,
                         workUrl := bookUrl,
                         hasNew := true,
                         checkedAt := now)),
                   [s.subUrl, bookUrl])
  }

  /** No tagged entry on the listing page: only `checkedAt` moves to `now`,
      and the book page is never requested. */
  lemma NoCandidate(s: Subscription, now: Timestamp,
                    fetchGallery: string -> Option<GalleryDoc>, fetchBook: string -> Option<BookDoc>)
    requires fetchGallery(s.subUrl).Some?
    requires forall j :: 0 <= j < |fetchGallery(s.subUrl).value.candidates| ==>
               !Tagged(fetchGallery(s.subUrl).value.candidates[j])
    ensures UpdateSubscription(s, now, fetchGallery, fetchBook)
         == Pass(Ok(s.(checkedAt := now)), [s.subUrl])
  {
  }

  /** The book page of the first tagged entry carries the stored title:
      only `checkedAt` moves to `now`; `hasNew` and every other field keep
      their values. */
  lemma SameTitle(s: Subscription, now: Timestamp,
                  fetchGallery: string -> Option<GalleryDoc>, fetchBook: string -> Option<BookDoc>,
                  k: nat, bookUrl: string)
    requires fetchGallery(s.subUrl).Some?
    requires FirstTagged(fetchGallery(s.subUrl).value.candidates, k)
    requires fetchGallery(s.subUrl).value.candidates[k].href == Some(bookUrl)
    requires fetchBook(bookUrl).Some? && fetchBook(bookUrl).value.title == Some(s.title)
    ensures UpdateSubscription(s, now, fetchGallery, fetchBook)
         == Pass(Ok(s.(checkedAt := now)), [s.subUrl, bookUrl])
  {
    var cs := fetchGallery(s.subUrl).value.candidates;
    FirstTaggedUnique(cs, k, FindTagged(cs).value);
  }

  /** The book page of the first tagged entry carries another title, or
      none: the record takes the book's author and title (or the
      placeholder), the entry's image (or "undefined") and the book URL, is
      marked new, and both timestamps become `now`.  `subUrl` and `rank`
      are untouched. */
  lemma NewTitle(s: Subscription, now: Timestamp,
                 fetchGallery: string -> Option<GalleryDoc>, fetchBook: string -> Option<BookDoc>,
                 k: nat, bookUrl: string)
    requires fetchGallery(s.subUrl).Some?
    requires FirstTagged(fetchGallery(s.subUrl).value.candidates, k)
    requires fetchGallery(s.subUrl).value.candidates[k].href == Some(bookUrl)
    requires fetchBook(bookUrl).Some? && fetchBook(bookUrl).value.title != Some(s.title)
    ensures var r := UpdateSubscription(s, now, fetchGallery, fetchBook);
      && r.requested == [s.subUrl, bookUrl]
      && r.outcome.Ok?
      && var u := r.outcome.subscription;
      && u.subUrl == s.subUrl && u.rank == s.rank
      && u.name == fetchBook(bookUrl).value.author.GetOr(ExtractionFailed)
      && u.title == fetchBook(bookUrl).value.title.GetOr(ExtractionFailed)
      && u.image == fetchGallery(s.subUrl).value.candidates[k].thumbnail.GetOr(MissingImage)
      && u.workUrl == bookUrl
      && u.hasNew
      && u.updatedAt == now && u.checkedAt == now
  {
    var cs := fetchGallery(s.subUrl).value.candidates;
    FirstTaggedUnique(cs, k, FindTagged(cs).value);
  }

  /** The pass fails exactly when the listing fetch fails, when the first
      tagged entry has no anchor child, or when the book fetch fails; a
      failure carries no record. */
  lemma FailureCases(s: Subscription, now: Timestamp,
                     fetchGallery: string -> Option<GalleryDoc>, fetchBook: string -> Option<BookDoc>)
    ensures var r := UpdateSubscription(s, now, fetchGallery, fetchBook);
      r.outcome.Unexpected? <==>
        || fetchGallery(s.subUrl).None?
        || exists k: nat :: FirstTagged(fetchGallery(s.subUrl).value.candidates, k)
             && !FetchesBook(fetchGallery(s.subUrl).value.candidates[k], fetchBook)
  {
    if fetchGallery(s.subUrl).Some? {
      var cs := fetchGallery(s.subUrl).value.candidates;
      ChoiceIsFound(cs);
    }
  }

  /** The entry has an anchor child whose page the book fetcher yields. */
  predicate FetchesBook(c: Candidate, fetchBook: string -> Option<BookDoc>) {
    c.href.Some? && fetchBook(c.href.value).Some?
  }

  /** Some entry is the first tagged one exactly when `FindTagged` finds
      one, and then it is the one found. */
  lemma ChoiceIsFound(cs: seq<Candidate>)
    ensures (exists k: nat :: FirstTagged(cs, k)) <==> FindTagged(cs).Some?
    ensures forall k: nat :: FirstTagged(cs, k) ==> FindTagged(cs) == Some(k)
  {
    match FindTagged(cs)
    case None =>
      forall m | 0 <= m < |cs| ensures !FirstTagged(cs, m) {
        assert !Tagged(cs[m]);
      }
    case Some(k) =>
      forall m | FirstTagged(cs, m) ensures m == k {
        FirstTaggedUnique(cs, k, m);
      }
  }

  /** The book page is requested exactly when the listing page yields a
      tagged entry with an anchor child, and it is that entry's URL. */
  lemma BookRequested(s: Subscription, now: Timestamp,
                      fetchGallery: string -> Option<GalleryDoc>, fetchBook: string -> Option<BookDoc>)
    ensures var r := UpdateSubscription(s, now, fetchGallery, fetchBook);
      |r.requested| == 2 <==>
        && fetchGallery(s.subUrl).Some?
        && exists k: nat :: FirstTagged(fetchGallery(s.subUrl).value.candidates, k)
             && fetchGallery(s.subUrl).value.candidates[k].href.Some?
    ensures var r := UpdateSubscription(s, now, fetchGallery, fetchBook);
      forall k: nat :: |r.requested| == 2 && FirstTagged(fetchGallery(s.subUrl).value.candidates, k) ==>
        Some(r.requested[1]) == fetchGallery(s.subUrl).value.candidates[k].href
  {
    if fetchGallery(s.subUrl).Some? {
      var cs := fetchGallery(s.subUrl).value.candidates;
      ChoiceIsFound(cs);
    }
  }

  /** A record never checked before it was last updated stays so: after a
      successful pass at a `now` not before its `updatedAt`, `updatedAt` is
      at most `checkedAt`. */
  lemma CheckedNotBeforeUpdated(s: Subscription, now: Timestamp,
                                fetchGallery: string -> Option<GalleryDoc>, fetchBook: string -> Option<BookDoc>)
    requires s.updatedAt <= now
    ensures var r := UpdateSubscription(s, now, fetchGallery, fetchBook);
      r.outcome.Ok? ==> r.outcome.subscription.updatedAt <= r.outcome.subscription.checkedAt
  {
  }

  /** Once a pass has stored a book whose page carries a title, a later pass
      over the same pages finds the same title and only advances
      `checkedAt`. */
  lemma UpdateSettles(s: Subscription, now: Timestamp, later: Timestamp,
                      fetchGallery: string -> Option<GalleryDoc>, fetchBook: string -> Option<BookDoc>,
                      k: nat, bookUrl: string)
    requires fetchGallery(s.subUrl).Some?
    requires FirstTagged(fetchGallery(s.subUrl).value.candidates, k)
    requires fetchGallery(s.subUrl).value.candidates[k].href == Some(bookUrl)
    requires fetchBook(bookUrl).Some? && fetchBook(bookUrl).value.title.Some?
    ensures var first := UpdateSubscription(s, now, fetchGallery, fetchBook);
      && first.outcome.Ok?
      && UpdateSubscription(first.outcome.subscription, later, fetchGallery, fetchBook)
         == Pass(Ok(first.outcome.subscription.(checkedAt := later)), [s.subUrl, bookUrl])
  {
    var first := UpdateSubscription(s, now, fetchGallery, fetchBook);
    if fetchBook(bookUrl).value.title == Some(s.title) {
      SameTitle(s, now, fetchGallery, fetchBook, k, bookUrl);
    } else {
      NewTitle(s, now, fetchGallery, fetchBook, k, bookUrl);
    }
    SameTitle(first.outcome.subscription, later, fetchGallery, fetchBook, k, bookUrl);
  }

  /** A book page without a title never settles: every pass over it stores
      the placeholder title again and marks the record new. */
  lemma MissingTitleReportedEveryPass(s: Subscription, now: Timestamp,
                                      fetchGallery: string -> Option<GalleryDoc>, fetchBook: string -> Option<BookDoc>,
                                      k: nat, bookUrl: string)
    requires fetchGallery(s.subUrl).Some?
    requires FirstTagged(fetchGallery(s.subUrl).value.candidates, k)
    requires fetchGallery(s.subUrl).value.candidates[k].href == Some(bookUrl)
    requires fetchBook(bookUrl).Some? && fetchBook(bookUrl).value.title.None?
    ensures var r := UpdateSubscription(s, now, fetchGallery, fetchBook);
      && r.outcome.Ok?
      && r.outcome.subscription.hasNew
      && r.outcome.subscription.title == ExtractionFailed
      && r.outcome.subscription.updatedAt == now
  {
    NewTitle(s, now, fetchGallery, fetchBook, k, bookUrl);
  }

  // ---------------------------------------------------------------------------
  // UnexpectedError.getErrorString, string cause
  // ---------------------------------------------------------------------------

  /** `cause.slice(0, lengthLimit)`: the whole string without a limit; a
      negative limit counts back from the end. */
  function ErrorString(cause: string, lengthLimit: Option<int>): (r: string)
    ensures r <= cause
    ensures lengthLimit.None? ==> r == cause
    ensures lengthLimit.Some? && 0 <= lengthLimit.value ==>
      |r| == if lengthLimit.value < |cause| then lengthLimit.value else |cause|
    ensures lengthLimit.Some? && lengthLimit.value < 0 ==>
      |r| == if |cause| + lengthLimit.value < 0 then 0 else |cause| + lengthLimit.value
  {
    match lengthLimit
    case None => cause
    case Some(n) =>
      var end := if n < 0 then |cause| + n else n;
      if end <= 0 then [] else if end < |cause| then cause[..end] else cause
  }
}
