# nh-bookmark core, modelled in Dafny

This project models the pure logic of nh-bookmark. nh-bookmark is a browser
extension with a small backend. It has three pieces of pure logic:

- **The tag transcoder** of the translation backend (`transcoder.dfy`).
  `Encode` turns the private emphasis notation into HTML-like tags. In that
  notation `§X` opens a region tagged `X` and `§!` closes the region opened
  last. The tags survive a translation service's HTML tag handling, and
  `Decode` maps them back.
- **The subscription refresh pass** `updateSubscription` (`sync.dfy`, over
  the record in `subscription.dfy`). It fetches a followed listing page and
  picks the first gallery entry tagged Japanese (`6346`). It then fetches
  that entry's book page and compares titles. The result is either a record
  touched only in `checked_at`, a record that reports a new book, or an
  `UnexpectedError`.
- **The client-side list bookkeeping**:
  - the refresh button of the favourites view, with its stalest-record
    pick, cache upsert and display sort (`favorites.dfy`);
  - the card's rank and NEW/READ controls, with the cache patch and delete
    (`card.dfy`);
  - the translation panel's mode and query decision (`translation.dfy`).

Every operation is a pure function over immutable values. Browser,
network and clock effects are parameters:

- The two page fetches are parameters `string -> Option<doc>`. `None` means
  the request or the parse failed. A parsed listing page is its gallery
  entries in document order; each entry has its `data-tags`, the `href` of
  its first child, and its image's `data-src`. A parsed book page is its
  title and author text, when present.
- The refresh pass returns the URLs it requested, so "the book page is
  never fetched" can be stated.
- `Date.now()` is the parameter `now`. The new-book branch stores the same
  value in `updated_at` and `checked_at`; see "Left out" for the source's
  two separate reads.
- The past-translation lookup and the translation service are parameters
  of `Translation.Query`.
- Whether a mutation is pending is a boolean input of the card's handlers.

Facts about the code that shape the model:

- Every failure is caught into the same `UnexpectedError`
  (front/src/util.ts:53-55), modelled as the one `Unexpected` outcome.
- The title is read with one selector (front/src/util.ts:36).
- The image's `data-src` is stored as found (front/src/util.ts:46-47).
- The source file shows the delimiter as the two characters `ยง`. That is
  the section sign `§` decoded in the wrong character set, and the tests use
  `§`. Taken literally, a two-character string never equals one character,
  and `encode` would be the identity. The model uses the single character
  `§` (`Transcoder.Delimiter`).

JavaScript behaviour at string ends is modelled exactly:

- A delimiter as the last character makes `encode` emit `<undefined>`.
- A `<` as the last character makes `decode` emit `§undefined`.
- A skip past the end just stops the scan.

## Model

| member | source | states |
|---|---|---|
| Transcoder.EncodeWith | api/src/utils.ts:3-27 | the scan with the identifiers still open as a stack, most recent last. It has no contract of its own; its properties are the `Encode…` lemmas below |
| Transcoder.Encode | api/src/utils.ts:3-11 | text with no delimiter is returned unchanged |
| Transcoder.EncodeScan | api/src/utils.ts:3-27 | the index/stack loop computes exactly the recursive encoding `Encode` |
| Transcoder.DecodeScan | api/src/utils.ts:34-53 | the index loop with its fixed-width skips computes exactly the recursive `Decode` |
| Transcoder.EncodePlain | api/src/utils.ts:8-11 | delimiter-free text is copied through whatever is open, so nothing is appended for regions still open at the end |
| Transcoder.EncodeAppend | api/src/utils.ts:6-25 | the encoding of an aligned prefix plus more text is the prefix's encoding followed by the rest's encoding, scanned from the stack the prefix left |
| Transcoder.EncodeRegion | api/src/utils.ts:14-24 | LIFO pairing: `§x` + balanced body + `§!` becomes `<x>` + body + `</x>`, and the stack is restored afterwards |
| Transcoder.EncodeIgnoresDangling | api/src/utils.ts:15-19 | a close with no open region emits nothing: encoding the text with such closes removed gives the same output |
| Transcoder.EncodeOpen | api/src/utils.ts:20-23 | an open instruction `§x` emits `<x>` and pushes `x` |
| Transcoder.EncodeClose | api/src/utils.ts:14-19 | a close instruction with a region open emits the closing tag of the region opened last and pops it |
| Transcoder.SurvivingClosesBounded | api/src/utils.ts:14-24 | for any text, the closes that find an open region are at most the regions open before the text plus the regions it opens |
| Transcoder.EncodeTagCounts | api/src/utils.ts:3-27 | for text without `<` that opens no region tagged `/`, the output's closing tags equal the closes that find an open region; its other tags equal the regions opened, plus one `<undefined>` for a lone trailing delimiter |
| Transcoder.EncodeClosesBounded | api/src/utils.ts:14-24 | for the same texts, including ones with dangling closes, the encoding has no more closing tags than opening tags, and no more than the regions the text opens |
| Transcoder.DropDanglingMatches | api/src/utils.ts:15-18 | after removing dangling closes, every close finds an open region, and the text is no longer |
| Transcoder.DropDanglingIdentity | api/src/utils.ts:15-18 | removing dangling closes changes the text exactly when some close has no open region |
| Transcoder.Decode | api/src/utils.ts:34-53 | text without `<` is returned unchanged; the fixed-width skips are stated by the `DecodeClosingTag` and `DecodeOpeningTag` rows |
| Transcoder.DecodeClosingTag | api/src/utils.ts:43-46 | `<` + `/` + any two characters becomes `§!`: the identifier and `>` are never checked |
| Transcoder.DecodeOpeningTag | api/src/utils.ts:47-50 | `<` + X (X not `/`) + any character becomes `§X`: the `>` is never checked |
| Transcoder.DecodeEncodeWith | api/src/utils.ts:3-53 | for text with no `<`, no lone trailing delimiter and no region tagged `/`, decoding the encoding gives the text minus its dangling closes |
| Transcoder.RoundTrip | api/src/index.spec.ts:12-26 | `Decode(Encode(t)) == t` when t has no `<`, no lone trailing delimiter, no region tagged `/`, and an open for every close |
| Transcoder.RoundTripDropsDangling | api/src/index.spec.ts:28-34 | under the same conditions except the matching one, the round trip drops exactly the dangling closes; it returns t exactly when every close had an open |
| Subscriptions.WithoutUrl | front/src/component/FavoritesModal.tsx:52 | the filter keeps exactly the entries whose `sub_url` differs, and never lengthens the list |
| Subscriptions.WithoutUrlAppend | front/src/component/SubscriptionCard.tsx:62 | the filter keeps relative order: it distributes over concatenation |
| Subscriptions.WithoutUrlAbsent | front/src/component/SubscriptionCard.tsx:62 | a list with no entry for the URL is left unchanged |
| Subscriptions.WithoutUrlIdempotent | front/src/component/SubscriptionCard.tsx:62 | filtering twice by the same URL is the same as filtering once |
| Sync.Split | front/src/util.ts:25 | `split(" ")` returns at least one part, no part holds a space, and joining the parts with spaces gives the input back |
| Sync.SplitJoin | front/src/util.ts:25 | splitting undoes joining space-free parts, so the tokens are exactly the space-separated runs |
| Sync.FindTagged | front/src/util.ts:22-26 | `find` returns the first entry in document order whose tokens include `6346`; it returns nothing exactly when no entry is tagged |
| Sync.UpdateCheckedAt | front/src/util.ts:11-14 | `checked_at` becomes `now` and every other field is unchanged |
| Sync.UpdateSubscription | front/src/util.ts:16-56 | the listing page is always requested first and at most two pages are requested; on success `checked_at == now` and `sub_url` and `rank` are unchanged; the result is either only-checked or has `updated_at == now` |
| Sync.NoCandidate | front/src/util.ts:22-27 | with no tagged entry, only `checked_at` changes and the book page is never requested |
| Sync.SameTitle | front/src/util.ts:33-38 | when the book title equals the stored title, only `checked_at` changes and `has_new` is kept |
| Sync.NewTitle | front/src/util.ts:40-52 | when the title differs or is missing: `name`/`title` take the author and title or the placeholder; `image` takes `data-src` or `"undefined"`; `work_url` takes the book URL; `has_new` becomes true; both timestamps become `now`; `sub_url` and `rank` are kept |
| Sync.FailureCases | front/src/util.ts:16-56 | the pass fails exactly when the listing fetch fails, the first tagged entry has no anchor, or the book fetch fails; a failure carries no record |
| Sync.BookRequested | front/src/util.ts:27-33 | the book page is requested exactly when there is a tagged entry with an anchor, and the URL requested is that entry's `href` |
| Sync.CheckedNotBeforeUpdated | front/src/util.ts:44-52 | if `updated_at <= now` before a successful pass, then `updated_at <= checked_at` after it |
| Sync.UpdateSettles | front/src/util.ts:36-38 | after a pass stores a book whose page has a title, a later pass over the same pages only advances `checked_at` |
| Sync.MissingTitleReportedEveryPass | front/src/util.ts:36-45 | a book page without a title never settles: every pass stores the placeholder and marks the record new |
| Sync.ErrorString | front/src/util.ts:64-68 | for a string cause, the result is a prefix of the cause: the whole cause with no limit, `min(limit, length)` characters for a non-negative limit, and counted from the end for a negative one |
| Favorites.StalestFrom | front/src/component/FavoritesModal.tsx:41-44 | the reduce from any scanned prefix ends on the first record with the least `checked_at` |
| Favorites.Stalest | front/src/component/FavoritesModal.tsx:41-44 | the refresh target is a member of the list with minimal `checked_at`; on ties the earliest record wins |
| Favorites.OnRefreshClick | front/src/component/FavoritesModal.tsx:39-46 | with no data, nothing happens; an empty list throws; for a non-empty list the click throws exactly when the pass on the stalest record fails, and otherwise saves exactly the pass's record, whose `checked_at` is `now` |
| Favorites.CacheAfterClick | front/src/component/FavoritesModal.tsx:46-56 | a click that throws leaves the cache unchanged; a saved record ends up in a loaded cache |
| Favorites.Upsert | front/src/component/FavoritesModal.tsx:47-56 | an unloaded cache stays unloaded; otherwise every entry with the record's `sub_url` is removed, the others are kept in order, and the record comes last |
| Favorites.UpsertKeepsUrlsUnique | front/src/component/FavoritesModal.tsx:47-56 | if every `sub_url` occurs at most once before the upsert, the same holds after it |
| Favorites.UniqueInFilter | front/src/component/FavoritesModal.tsx:52 | filtering a list with unique `sub_url`s keeps them unique |
| Favorites.UpsertIdempotent | front/src/component/FavoritesModal.tsx:47-56 | upserting the same record twice gives the same cache as upserting it once |
| Favorites.Insert | front/src/component/FavoritesModal.tsx:24 | insertion into a rank-sorted list keeps it sorted and adds exactly the entry, ahead of the entries with its rank |
| Favorites.SortByRank | front/src/component/FavoritesModal.tsx:24 | the result is sorted by rank, highest first (missing rank is 0); it is a permutation; it is stable, since the entries of each rank keep their input order |
| Favorites.Display | front/src/component/FavoritesModal.tsx:23-24 | an unloaded list shows nothing; otherwise the cards are the stable rank-descending permutation of the data |
| Card.InitialRank | front/src/component/SubscriptionCard.tsx:29 | the card starts at the record's rank, or at 3 when the rank is missing |
| Card.OnRatingChange | front/src/component/SubscriptionCard.tsx:107-111 | a change while a rank update is pending does nothing; otherwise the shown rank and the sent rank are the new value, or 3 when the rating is cleared |
| Card.OnToggleNew | front/src/component/SubscriptionCard.tsx:118-122 | the button sends `!has_new`, and sends nothing while pending |
| Card.NewLabel | front/src/component/SubscriptionCard.tsx:124 | the label is `NEW` exactly when `has_new` is true, and `READ` otherwise |
| Card.PatchList | front/src/component/SubscriptionCard.tsx:31-39 | the length is kept; entries with the URL take `has_new` and `rank` from the response and keep every other field; all other entries are unchanged |
| Card.Patch | front/src/component/SubscriptionCard.tsx:32 | patching an unloaded cache yields the empty list |
| Card.PatchKeepsUrls | front/src/component/SubscriptionCard.tsx:31-39 | patching never changes a `sub_url`, so unique URLs stay unique |
| Card.PatchIdempotent | front/src/component/SubscriptionCard.tsx:31-39 | patching with the same response twice is patching once |
| Card.PatchFrame | front/src/component/SubscriptionCard.tsx:31-39 | the entries for other URLs are exactly those of the original list |
| Card.Delete | front/src/component/SubscriptionCard.tsx:59-63 | an unloaded cache stays unloaded; otherwise exactly the entries with other URLs remain |
| Card.DeleteAfterUpsert | front/src/component/SubscriptionCard.tsx:59-63 | deleting a record just upserted gives the same cache as deleting it before the upsert |
| Translation.GetMode | front/src/main.tsx:89-93 | the mode is `definition` exactly for keys ending in `DEF:0`, `adjective` exactly for keys ending in `ADJ:0`, and `normal` otherwise |
| Translation.ModeIgnoresPrefix | front/src/main.tsx:89-93 | the mode depends only on the key's last five characters |
| Translation.Query | front/src/main.tsx:38-46 | empty text gives `""` with no lookup and no translation; a non-empty past translation is shown verbatim; otherwise the text is translated with the adjective flag set exactly in adjective mode, and `"the "` is prefixed exactly in definition mode |

## Left out

- Fetching and parsing (`getDocument`, axios, `DOMParser`, CSS selectors)
  are left out. They are replaced by the fetcher parameters described
  above. The `instanceof Error` tests after each fetch are dead code,
  because `getDocument` never returns an `Error`.
- Sync.UpdateSubscription: a first child of a gallery entry that exists but
  is not an anchor gives an `href` of `undefined`, and the source then asks
  axios for `undefined`. The model treats such an entry like one without a
  child: the pass fails without recording a book request.
- Sync.ErrorString: only the string-cause branch is modelled. The
  `JSON.stringify` branch for other causes is left out. `UnexpectedError`
  carries no message. The tests' "Failed to fetch the document" message has
  no counterpart in the code.
- Records are returned as new values. The source mutates the caller's
  record in place, and `Array.prototype.sort` sorts the cached array in
  place.
- Favorites.SortByRank: a comparator made inconsistent by non-numeric ranks
  (NaN) is not modelled. Ranks are integers or missing.
- The automatic refresh of every card in one test is left out. The code
  refreshes one record per click.
- `getPastTranslation` is left out. It polls the page with timers and
  compares a match rate with `parseFloat`. Its result is the `past`
  parameter of `Translation.Query`.
- The row-key and original-text polling (`getKey`, `trim`, the 100 ms
  interval) is left out.
- The translation service call itself is left out, as is the backend's
  routing. That includes the adjective `<span>` extraction, glossary
  synchronisation and first-letter upper-casing. Only the `encode`/`decode`
  the backend calls is modelled.
- Sync.UpdateSubscription: the source calls `Date.now()` twice, for
  `updated_at` (front/src/util.ts:48) and for `checked_at`
  (front/src/util.ts:51). The model passes one timestamp for both, so it
  does not model a clock tick between the two reads. The difference is at
  most the time the three assignments between them take.
- JavaScript strings are sequences of UTF-16 code units. The model uses
  `seq<char>`, so surrogate pairs are not modelled.
- Transcoder.EncodeScan: after a lone trailing delimiter, the source pushes
  `undefined` on the stack. Nothing reads the stack afterwards, so that push
  is not modelled.
- React/MUI rendering, snackbars, modals, mutation wiring and the
  add-subscription form are left out. So are the extension bootstrap, the
  DynamoDB item schema, and the build and test configuration.
