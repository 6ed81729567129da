# FlaggedRevs Access Control, modelled in Dafny

FlaggedRevs Access Control is a MediaWiki extension that lets readers who
lack the `read` right, but hold `readstable`, see the stable (flagged)
versions of pages in reviewed namespaces. Its logic lives in
`FlaggedRevsAccessControl.body.php`. This project models that file in two
parts.

- **Revision resolution** (`revision_resolution.dfy`). This part covers
  `fracf_getRequestOldId` and `fracf_getRequestDiffId`. They turn the
  request's `oldid`, `direction` and `diff` parameters into at most two
  revision IDs of a page. A page's history (`page_history.dfy`) is a
  strictly increasing sequence of positive revision IDs. The latest ID is
  its last element, or 0 when it is empty. The next and previous IDs of an
  ID are the nearest IDs of the history above and below it. For a
  revision of the page, lemmas prove that these are its neighbours by
  position. The by-reference `&$refId` of `fracf_getRequestDiffId` is
  modelled as an input plus a returned `DiffResult(diffId, refId)`.
- **Whitelist decision** (`access_control.dfy`). This part covers
  `fracfHooks_whitelistTitles`, `fracf_isUnrestrictedTitle`,
  `fracf_forceViewStableByDefault` and the guard of
  `fracfHooks_overrideEditPageVersion`. The request is a `WebRequest`
  object. Its parsed parameters are constant, and its `stable` parameter
  is a field that the forcing helper updates in place. The extension's
  globals are a `HookGlobals` object, holding `$fracgAllowViewHistory` and
  the `$fracgViewSourceRevision` override. The pure function `Decide`
  gives the hook's decision. The methods are proved to carry it out, and
  the lemmas state the per-action policy in terms of `Decide`.

The facts the hook looks up are plain inputs:

- whether the page is in a reviewed namespace;
- whether the user holds `readstable`;
- whether the page is `$wgTitle`;
- the request's action;
- the set of revision IDs with a flagged revision;
- the stable revision ID, if any;
- whether `FlaggablePageView::showingStable()` holds, as a function of the
  request's `stable` parameter.

A point where the code is followed and the extension's own comments are not:

- `fracf_getRequestDiffId` documents a non-zero result. If a `refId` of 0
  is passed and the page has no revisions, the anchor stays 0, and
  `diff=next` and `diff=prev` then return 0 (`ZeroRefIdOnEmptyPage`).
  Called as the hook calls it, with the result of `fracf_getRequestOldId`,
  it never yields 0 (`ChainedDiffIsNonZero`).

Points of the code worth noting:

- In the view branch, the hook tests `$oldId` after `fracf_getRequestDiffId`
  has possibly written it. So a `diff` parameter without `oldid` also counts
  as a request for specific revisions (`ViewOfRevisions`). This is the use
  that the comment of `fracf_getRequestDiffId` (lines 95-99) documents.
- The hook never sets `$result` to false. When it does not whitelist, it
  leaves `$result` as it received it.

## Model

| member | source | states |
|---|---|---|
| `PageHistory.LatestRevId` | FlaggedRevsAccessControl.body.php:59-63 | the latest ID is 0 exactly when the page has no revision, and is otherwise the largest revision ID of the page |
| `PageHistory.FirstRevision` | FlaggedRevsAccessControl.body.php:122-129 | there is a first revision exactly when the page has one; it is the smallest revision ID of the page |
| `PageHistory.NextRevisionId` | FlaggedRevsAccessControl.body.php:66-72 | the next ID is the smallest revision ID above the given one, and is absent only when no revision ID is above it |
| `PageHistory.PreviousRevisionId` | FlaggedRevsAccessControl.body.php:73-79 | the previous ID is the largest revision ID below the given one, and is absent only when no revision ID is below it |
| `PageHistory.NextOfPosition` | FlaggedRevsAccessControl.body.php:130-136 | for the revision at position i, the next revision is the one at i+1, or none for the latest |
| `PageHistory.PreviousOfPosition` | FlaggedRevsAccessControl.body.php:148-154 | for the revision at position i, the previous revision is the one at i-1, or none for the first |
| `RevisionResolution.Step` | FlaggedRevsAccessControl.body.php:65-80 | `next` moves the ID to the nearest revision ID above it and `prev` to the nearest below it whenever one exists, and otherwise keeps it; any other direction keeps it |
| `RevisionResolution.StepByPosition` | FlaggedRevsAccessControl.body.php:65-80 | a direction step from a revision of the page reaches its positional neighbour when one exists, and otherwise keeps the revision |
| `RevisionResolution.GetRequestOldId` | FlaggedRevsAccessControl.body.php:54-83 | null exactly when `oldid` is absent, or is 0 on a page without revisions; never 0; a result other than the requested ID is a revision of the page; without a direction a non-zero `oldid` is returned unchanged |
| `RevisionResolution.OldIdByPosition` | FlaggedRevsAccessControl.body.php:59-82 | an `oldid` naming the revision at position i, or 0 for the latest, resolves to its neighbour in the requested direction, or to itself at the edge of the history |
| `RevisionResolution.DiffAnchor` | FlaggedRevsAccessControl.body.php:111-118 | the contract is the definition: a non-null `refId` is itself the anchor, with 0 read as the latest revision ID; a null one defers to the request's `oldid` |
| `RevisionResolution.GetRequestDiffId` | FlaggedRevsAccessControl.body.php:106-178 | no `diff` gives null with `refId` untouched; `refId` changes only with a non-null result, which always comes with a non-null `refId`, equal to the anchor when one was established; a caller's non-zero `refId` is the ID the diff is taken against and comes back unchanged; null is returned exactly when `diff` is absent or the page is empty with `diff=0`, or the page is empty with `next`/`prev` and no anchor |
| `RevisionResolution.DiffWithoutAnchor` | FlaggedRevsAccessControl.body.php:119-147 | with no anchor, `diff=next` gives the first revision against itself and `diff=prev` the latest against itself; both give null on an empty page |
| `RevisionResolution.DiffNeighbourByPosition` | FlaggedRevsAccessControl.body.php:130-154 | with an anchor at position i, `diff=next`/`prev` gives the neighbouring revision, or the anchor itself at the edge, and `refId` becomes the anchor |
| `RevisionResolution.DiffNumberByPosition` | FlaggedRevsAccessControl.body.php:156-169 | without an anchor, a numeric `diff` naming the revision at position i (or 0 for the latest) is compared with the revision before it, or with itself when it is the first |
| `RevisionResolution.DiffNumberWithAnchor` | FlaggedRevsAccessControl.body.php:156-170 | with an anchor, a numeric `diff` is returned as given (0 read as the latest) with the anchor as `refId`; 0 on an empty page gives null and leaves `refId` alone |
| `RevisionResolution.ZeroRefIdOnEmptyPage` | FlaggedRevsAccessControl.body.php:113-155 | a `refId` of 0 on a page without revisions stays 0, and `diff=next`/`prev` then return 0 |
| `RevisionResolution.ChainedDiffIsNonZero` | FlaggedRevsAccessControl.body.php:95-104 | chained after `fracf_getRequestOldId` as documented, a non-null diff ID and the `refId` written with it are non-zero |
| `AccessControl.IsUnrestrictedTitle` | FlaggedRevsAccessControl.body.php:29-32 | the contract is the definition: a page is unrestricted exactly when it lies outside the reviewed namespaces |
| `AccessControl.ForcedStable` | FlaggedRevsAccessControl.body.php:201-206 | after forcing, `stable` is always set; an existing value is kept, and a missing one becomes 1 |
| `AccessControl.ForceViewStableByDefault` | FlaggedRevsAccessControl.body.php:201-206 | the request's `stable` parameter becomes the forced value, and nothing else of the request changes |
| `AccessControl.ForcedStableIdempotent` | FlaggedRevsAccessControl.body.php:201-206 | forcing twice is the same as forcing once |
| `AccessControl.Decide` | FlaggedRevsAccessControl.body.php:215-297 | unrestricted pages are whitelisted; an override is only ever the stable revision, only for edit, and always comes with whitelisting; `stable` changes only from unset to 1 and only in the view actions; whitelisting a restricted page needs `readstable`, a handled action on the current page, or a stable version for another page |
| `AccessControl.WhitelistTitles` | FlaggedRevsAccessControl.body.php:215-298 | always returns true; `$result` is only ever set to true, exactly when `Decide` whitelists; the request's `stable` and the override global change exactly as `Decide` says |
| `AccessControl.OverrideEditPageVersion` | FlaggedRevsAccessControl.body.php:312-322 | always returns true; leaves the edit page alone unless an override was recorded, and otherwise shows the override revision |
| `AccessControl.UnrestrictedTitleWhitelisted` | FlaggedRevsAccessControl.body.php:217-221 | a page outside the reviewed namespaces is whitelisted with no override and no change to the request |
| `AccessControl.NoReadStableNoWhitelist` | FlaggedRevsAccessControl.body.php:222-225 | on a restricted page, a user without `readstable` is not whitelisted and nothing changes |
| `AccessControl.OtherTitleWhitelistedIffStable` | FlaggedRevsAccessControl.body.php:290-296 | a restricted page that is not the current title is whitelisted iff it has a stable revision |
| `AccessControl.ViewOfRevisions` | FlaggedRevsAccessControl.body.php:234-255 | view, purge or render of specific revisions is whitelisted iff the `oldid` revision and any `diff` revision are flagged; `stable` is untouched |
| `AccessControl.PlainViewShowsStable` | FlaggedRevsAccessControl.body.php:256-263 | a plain view forces the stable version by default, and is whitelisted iff the stable version is then shown |
| `AccessControl.EditOfRevision` | FlaggedRevsAccessControl.body.php:265-281 | editing a specific revision is whitelisted iff it is flagged, with no override |
| `AccessControl.EditWithoutOldId` | FlaggedRevsAccessControl.body.php:270-280 | editing without `oldid` records the stable revision as override and is whitelisted exactly when a stable revision exists |
| `AccessControl.HistoryFollowsConfiguration` | FlaggedRevsAccessControl.body.php:282-288 | the history action is whitelisted iff `$fracgAllowViewHistory` is true |
| `AccessControl.ViewSourceOnlyFromEdit` | FlaggedRevsAccessControl.body.php:265-276 | an override is recorded iff the page is restricted, the user has `readstable`, the page is current, the action is edit, there is no `oldid`, and a stable revision exists |
| `AccessControl.DecideIdempotent` | FlaggedRevsAccessControl.body.php:256-263 | deciding again on the request as the first decision left it gives the same decision |

## Left out

- `fracf_getRequestAction` reads the `$mediaWiki` global and the web request. The action is an input of the model.
- Parameter parsing is left out: `getIntOrNull`, `getVal` and `intval` on strings. `oldid` and `stable` are already parsed into optional integers. `diff` is `next`, `prev` or the integer that `intval` gives for any other value. `direction` values other than `next`/`prev` are `Unset`.
- The `Title`, `FlaggedRevs`, `FlaggedRevision` and `FlaggablePageView` lookups (database queries) are not modelled. They are replaced by the history sequence, the flagged-ID set, the optional stable ID and the `showingStable` function.
- For an ID that is not a revision of the page, the next and previous revision IDs are taken to be the nearest IDs of the history above and below it. This assumption about the platform's lookup is not checked against its code.
- `OverrideEditPageVersion`: setting the edit page's title and constructing the `Article` object are left out. The model keeps only the guard and the revision ID the edit page then shows.
- The hook registrations and `FlaggedRevsAccessControl.php` are pure configuration and are left out. That file holds the extension guard, credits, messages and rights. Its only value used here is the default `$fracgAllowViewHistory = true`. The model takes as an input the boolean `$fracgAllowViewHistory === true`, so a truthy non-boolean value such as `1` counts as false.
- `GetRequestDiffId`: the by-reference `&$refId` is not modelled as a caller's variable. It is an input plus a returned value, and the caller assigns the returned value.
