# Contentful unused-content auditor: a Dafny model

This project models the decision logic of an app that audits a Contentful space for unused content and deletes what it finds. The modelled parts are:

- **the entry classifier** (`fetchUnusedEntries`). It builds the one-hop set of entry ids that some entry of the fetched batch links to, as a field value or as a direct element of an array value. It then keeps, in batch order, the entries that no entry links to and whose content-type id, lowercased, does not contain `page`.
- **the two existence-probe detectors**. `generateUnusedContentTypesReport` and `generateMediaReport` walk a list and issue one `limit=1` query per item, in order.
- **the entry deletion sequencer** (`deleteEntries`). For each entry it fetches, unpublishes when the entry is published, and deletes. One failure boundary wraps the whole batch. The refresh callback runs only when nothing failed.
- **the entry report run** (`generateReport`, in both of its copies), seen through the callbacks it is given.
- **the page's report state**: `resetReports`, the three report handlers, the asset selection, the delete callbacks, the disabled buttons and the "nothing unused" message.
- **the entry tables**: row selection, page-wide and list-wide select-all, the delete click, display names, search, page slicing, status badges.
- **the pager's page-size change.**

Remote calls are replaced by parameters:
- `Fetch` is the entry batch, or a failure.
- `Listing` is the asset or content-type list, a reply without `items`, or a failure.
- `probe` maps an id to its query reply.
- For deletion, `connects` says whether a client could be set up, `publishedVersion` gives each live entry's version, and `fails` says which call fails.

Each asynchronous handler is one `Transition`. Its `pending` state is the state while the remote work is awaited; `after` is the final state.

JavaScript values inside entry fields are the `JsValues.Value` datatype. `JsValues.Get` models `v?.[key]`, `JsValues.Members` the values a `for...in` loop visits, and `Seqs.Filter` and `Seqs.Map` model `Array.filter` and `Array.map`. `Null` stands for both `null` and `undefined`. An object is its property list in `for...in` order, so field order is kept.

Behaviour of the code worth knowing:
- Starting a report does not clear the asset selection. `resetReports` (Page.tsx:84-89) leaves `selectedAssets` alone.
- The refresh after deleting entries runs only when every call succeeded, not after an aborted batch.
- A failed media report publishes an empty list and raises the generated flag. The page then shows the "nothing unused" message.
- The display name also takes a field's truthy `en-US` value, not only string-valued fields. See Findings.
- `generateReport.ts` passes the selected content type to `fetchUnusedEntries`, which declares three parameters. The type therefore selects nothing: `ReportRun.GenerateReport` classifies the entries of every type.

## Model

| member | source | states |
|---|---|---|
| Text.Lower | src/lib/fetchUnusedEntries.ts:38 | lowercasing keeps the length, leaves no upper-case letter, keeps every other character in place, and each lowered letter upper-cases back to the original |
| Text.LowerIdempotent | src/components/Reports/GenerateEntryReport.tsx:92-93 | lowering an already lowered name or query changes nothing |
| Text.Contains | src/lib/fetchUnusedEntries.ts:38 | `includes` is true exactly when the needle occurs at some position of the haystack |
| Text.Capitalize | src/components/Reports/GenerateEntryReport.tsx:34-35 | the first character is the same letter, no longer in lower case, the rest is kept, and a string that does not start with a lower-case letter is returned unchanged |
| Text.CapitalizeRoundTrip | src/components/Reports/GenerateEntryReport.tsx:34-35 | lowering a capitalised lower-case word gives the word back |
| Text.EmptyNeedleEverywhere | src/components/Reports/GenerateEntryReport.tsx:93 | every string includes the empty query |
| JsValues.FindFirst | src/components/Reports/GenerateEntryReport.tsx:86 | `value?.["en-US"]` is `undefined` when no property has the key, and otherwise the value of the first property with it |
| Seqs.Dedup | src/components/Reports/GenerateEntryReport.tsx:76 | `[...new Set(xs)]` has no duplicates and has the same members as `xs` (its order is fixed by Seqs.DedupSnoc) |
| Seqs.DedupSnoc | src/components/Reports/GenerateEntryReport.tsx:76 | appending an item appends it to the result exactly when it is new, so the result is the first occurrences in input order |
| References.LocaleValueIdsMeaning | src/lib/fetchUnusedEntries.ts:22-30 | an id is collected from a locale value exactly when the value is an entry link to it, or an array with such a link as a direct element |
| References.EntryIdsMeaning | src/lib/fetchUnusedEntries.ts:14-32 | the ids collected from one entry are exactly those some locale value of some field links to |
| References.ReferenceSetMeaning | src/lib/fetchUnusedEntries.ts:11-33 | an id is in the reference set exactly when some entry of the batch links to it |
| References.UnusedEntries | src/lib/fetchUnusedEntries.ts:35-39 | the result is a subsequence of the batch, no longer than it, and an entry is in it exactly when it is in the batch, its id is outside the reference set and its type is not page-like |
| References.UnusedMeansUnreferenced | src/lib/fetchUnusedEntries.ts:11-39 | an entry passes the filter exactly when no entry of the batch links to it and its type is not page-like |
| References.ArrayLinkAnyPosition | src/lib/fetchUnusedEntries.ts:22-27 | an entry link at any index of an array value enters the reference set |
| References.OnlyDirectEntryLinksCount | src/lib/fetchUnusedEntries.ts:22-30 | asset links and links nested two arrays deep reference nothing; null, number and string elements beside a link are skipped and the link still counts |
| References.LinklessEntryAddsNothing | src/lib/fetchUnusedEntries.ts:13-33 | adding an entry without entry links leaves the reference set unchanged |
| References.SelfLinkedIsUsed | src/lib/fetchUnusedEntries.ts:11-39 | an entry linking to itself is never reported unused |
| References.OneHopExample | src/lib/fetchUnusedEntries.ts:11-39 | with B linking to A, the report is exactly `[B]`: one hop only, although A's only referrer is itself unused |
| References.PageTypeExample | src/lib/fetchUnusedEntries.ts:38 | an unreferenced entry of type `LandingPage` is excluded |
| Probes.ProbeScan | src/lib/generateUnusedContentTypesReport.ts:16-21 | at most one probe per item; a run that aborts ended on a throwing reply; a run that completes probed every item; the asset loop of `generateMediaReport.ts` lines 24-42 is the same loop |
| Probes.ProbeScanIds | src/lib/generateUnusedContentTypesReport.ts:16-17 | the probed ids are those of the list's first items, in list order |
| Probes.ProbeScanNoEarlyThrow | src/lib/generateUnusedContentTypesReport.ts:16-21 | every item probed before the last one got a reply that does not throw |
| Probes.ProbeScanAborts | src/lib/generateUnusedContentTypesReport.ts:16-21 | the loop is cut short exactly when some item's reply throws |
| Probes.ProbeScanOrder | src/lib/generateUnusedContentTypesReport.ts:14-21 | a loop that completes keeps a subsequence of the list, in list order |
| Probes.ProbeScanKept | src/lib/generateUnusedContentTypesReport.ts:14-21 | a loop that completes keeps exactly the items whose reply reads as unused |
| Probes.TypeScanAborts | src/lib/generateUnusedContentTypesReport.ts:16-18 | the content-type loop throws exactly when some probe fails or answers without `items` |
| Probes.UnusedContentTypes | src/lib/generateUnusedContentTypesReport.ts:3-24 | a failed listing or probe, or a reply without `items`, reaches the caller as an error; otherwise the result is an ordered subsequence of the types whose probe found zero entries |
| Probes.PublishedAssets | src/lib/generateMediaReport.ts:9-47 | the list handed to `setUnusedAssets` is `[]` when the listing or any probe fails; otherwise it is an ordered subsequence holding exactly the assets whose probe found no items or had no `items` field |
| Probes.MediaScanAborts | src/lib/generateMediaReport.ts:24-47 | the asset loop throws exactly when some probe request fails |
| Probes.MediaReport | src/lib/generateMediaReport.ts:2-50 | `setUnusedAssets` is called once, with the full result or `[]`, and then `setHasGenerated(true)` is called on every path |
| Probes.ContentTypeExample | src/lib/generateUnusedContentTypesReport.ts:16-21 | probes answering 0 and 1 entries for ct1 and ct2 give exactly `[ct1]` |
| Probes.MediaExample | src/lib/generateMediaReport.ts:24-49 | probes answering 0 and 1 linking entries for asset1 and asset2 publish exactly `[asset1]`, then the generated flag |
| Deletion.RunUntilFailure | src/lib/reportAndDelete.ts:33-56 | a single try block issues calls in order; the trace is a prefix of the calls; it aborts exactly when some call fails, and then ends at the first failing call |
| Deletion.RunUntilFailureConcat | src/lib/reportAndDelete.ts:33-56 | running two call lists under one try block runs the first, and runs the second only when the first did not fail |
| Deletion.DeleteLoopFollowsPlan | src/lib/reportAndDelete.ts:38-50 | the loop issues exactly get, unpublish if published, delete for each id in turn, cut at the first failure |
| Deletion.DeleteEntries | src/lib/reportAndDelete.ts:26-57 | without failures the trace is the full plan followed by one refresh; after a failure it is the plan up to the failing call, with no refresh; without a client nothing is issued |
| Deletion.NoRefreshInPlan | src/lib/reportAndDelete.ts:53 | the refresh appears only after the loop, never inside it |
| Deletion.PlanOrder | src/lib/reportAndDelete.ts:38-50 | each delete directly follows its entry's unpublish (if published) or its get (if not); each unpublish directly follows the get of a published entry |
| Deletion.SingleEntryExample | src/lib/reportAndDelete.ts:42-53 | `publishedVersion` 3 gives get, unpublish, delete, refresh; a missing version gives get, delete, refresh |
| ReportRun.RunReport | src/lib/reportAndDelete.ts:5-24 | correctly wired, it raises loading and generated before the fetch and ends with loading down and generated up; on success the entries become exactly the classifier's ordered result for the batch, on failure they stay as they were; a callback that is not a function throws and writes no entries |
| ReportRun.GenerateReport | src/lib/generateReport.ts:4-29 | for every selected content type, a correctly wired run is pending with loading and generated raised and ends with the unused entries of the whole batch (or the old entries after a failed fetch), loading down and generated up; a non-function callback throws and writes no entries |
| ReportRun.FailedFetchStillGenerated | src/lib/generateReport.ts:13-28 | a failed fetch leaves the entries, lowers loading and leaves generated raised |
| Selection.Remove | src/components/Reports/GenerateEntryReport.tsx:62 | every occurrence of the id is removed, and the others stay in order |
| Selection.Toggle | src/components/Reports/GenerateEntryReport.tsx:58-64 | a tick appends the id after the unchanged selection; an untick removes every occurrence; other ids keep their membership and order; the handler of `UnusedEntriesTable.tsx` lines 25-31 is the same |
| Selection.ToggleOnOff | src/components/Reports/GenerateEntryReport.tsx:58-64 | ticking then unticking an unselected id restores the selection |
| Selection.ClickDelete | src/components/Reports/GenerateEntryReport.tsx:66-71 | the callback gets the selection exactly when it is non-empty; afterwards the selection is empty; the handler of `UnusedEntriesTable.tsx` lines 33-38 is the same |
| Selection.ClickDeleteOnce | src/components/Reports/GenerateEntryReport.tsx:66-71 | a second click right after a delete click makes no callback, so a selection is handed over at most once |
| Selection.SelectPage | src/components/Reports/GenerateEntryReport.tsx:73-79 | a tick gives the duplicate-free union of the selection and the page ids; an untick removes exactly the page ids and keeps every other copy, in order |
| Selection.SelectPageKeepsSelection | src/components/Reports/GenerateEntryReport.tsx:76 | a duplicate-free selection survives a tick as a prefix, in its own order |
| Selection.HeaderFollowsSelectPage | src/components/Reports/GenerateEntryReport.tsx:132 | after a tick the header is checked; after an untick it is checked only if the page is empty |
| Selection.SelectAll | src/components/Reports/UnusedEntriesTable.tsx:40-47 | a tick selects every entry id of the whole list in order; an untick empties the selection |
| Selection.SelectAllHeader | src/components/Reports/UnusedEntriesTable.tsx:40-79 | for every list a tick selects each entry's id and checks the count-based header; an untick leaves the header checked only for an empty list |
| Selection.CountHeaderIgnoresMembership | src/components/Reports/UnusedEntriesTable.tsx:79 | select-all checks the header, and the `length === length` rule alone also checks it for A ticked twice with B unselected; the table cannot reach that selection, since a checked row never reports a second tick |
| Selection.ToggleAsset | src/locations/Page.tsx:143-149 | the asset's membership flips; other ids keep their membership and order |
| Selection.ToggleAssetTwice | src/locations/Page.tsx:143-149 | flipping an unselected asset twice restores the selection |
| Pagination.PageChange | src/locations/PaginationWithTotal.tsx:20 | the page becomes the requested one and the size is kept |
| Pagination.ViewPerPageChange | src/locations/PaginationWithTotal.tsx:10-14 | the size becomes `i`, and the new page is the floor of `(size*page+1)/i`, stated as bounds |
| Pagination.FirstItemVisibleIff | src/locations/PaginationWithTotal.tsx:12 | the old page's first item is on the new page exactly when `i` does not divide that index plus one |
| Pagination.FirstItemStaysVisible | src/locations/PaginationWithTotal.tsx:11-23 | between the offered sizes 20, 50 and 100, the old page's first item stays on the new page |
| Pagination.SameSizeKeepsPage | src/locations/PaginationWithTotal.tsx:12 | re-choosing the current size (at least 2) keeps the page |
| Pagination.InitialIsOffered | src/locations/PaginationWithTotal.tsx:7-23 | the pager starts on page 0 with an offered size, and a change to an offered size keeps an offered size |
| EntryReportView.DisplayName | src/components/Reports/GenerateEntryReport.tsx:81-89 | with falsy fields the name is the id; otherwise it is the name of the first field that is a string or has a non-empty string `en-US` value, and the id only when no field qualifies |
| EntryReportView.FirstName | src/components/Reports/GenerateEntryReport.tsx:83-88 | the loop returns the name of the first qualifying field value, and the id only when none qualifies |
| EntryReportView.FirstNameAgrees | src/components/Reports/GenerateEntryReport.tsx:83-88 | wherever the loop as written yields a string, the corrected loop yields the same string |
| EntryReportView.DisplayNameAgrees | src/components/Reports/GenerateEntryReport.tsx:81-89 | wherever `getDisplayName` as written yields a string, the corrected name is that string |
| EntryReportView.FilterEntries | src/components/Reports/GenerateEntryReport.tsx:91-94 | the filtered list is a subsequence, and an entry is in it exactly when its lowercased name contains the lowercased query |
| EntryReportView.EmptyQueryKeepsAll | src/components/Reports/GenerateEntryReport.tsx:91-94 | an empty query keeps every entry, in order |
| EntryReportView.FilterAsWritten | src/components/Reports/GenerateEntryReport.tsx:91-94 | as written, the filter throws exactly when some entry's name is not a string; otherwise it equals the corrected filter |
| EntryReportView.ReferenceFirstFieldBreaksSearch | src/components/Reports/GenerateEntryReport.tsx:81-94 | an entry whose first field is a reference gets a link object as its name and makes the search throw; corrected, it is named by its id and listed |
| EntryReportView.PageSlice | src/components/Reports/GenerateEntryReport.tsx:96-99 | the slice has at most `n` items, its length is clamped to the list, and row `j` is item `page*n + j` |
| EntryReportView.ItemOnItsPage | src/components/Reports/GenerateEntryReport.tsx:96-99 | item `j` appears on page `j / n`, at row `j % n` |
| EntryReportView.PageIds | src/components/Reports/GenerateEntryReport.tsx:101 | the page ids are, in order and one for one, the ids of the entries of the current page's slice |
| EntryReportView.PageIdsCoverEveryItem | src/components/Reports/GenerateEntryReport.tsx:73-101 | every entry's id is among the ids of the page that shows it, so ticking that page's header selects it |
| EntryReportView.ViewChangeKeepsFirstItem | src/components/Reports/GenerateEntryReport.tsx:192-195 | after a change between offered sizes, the item that headed the old page is in the new page's slice (the handler is never called; see Left out) |
| EntryReportView.SelectAcrossPages | src/components/Reports/GenerateEntryReport.tsx:73-101 | with page size 2 over B, C, D, E, selecting all on page 0 and then page 1 selects `[B, C, D, E]` |
| EntryReportView.StatusRaw | src/components/Reports/GenerateEntryReport.tsx:175-177 | a non-empty `archivedAt` gives "archived"; otherwise a non-empty `fieldStatus["*"]["en-US"]` gives that value; otherwise "draft" |
| EntryReportView.Status | src/components/Reports/GenerateEntryReport.tsx:174-181 | the badge text is the raw status with the same first letter, no longer in lower case, and the rest kept; published, changed, draft and archived get positive, primary, warning and secondary, and every other status the default colour |
| EntryReportView.StatusCaptionRoundTrip | src/components/Reports/GenerateEntryReport.tsx:174-181 | lowering the badge text of a lower-case raw status gives the status back |
| EntryReportView.StatusExamples | src/components/Reports/GenerateEntryReport.tsx:24-32 | an archived entry shows "Archived" in the secondary colour whatever its field status; an entry without status shows "Draft" in the warning colour |
| Page.ResetReports | src/locations/Page.tsx:84-89 | the three lists are emptied and generated is lowered; the selection, the loading state and the rest are kept |
| Page.HandleGenerateMedia | src/locations/Page.tsx:91-110 | without credentials nothing changes; otherwise it resets and marks media loading; at the end the media list is the published assets, generated is raised, nothing is loading, and the asset selection and chosen type are kept |
| Page.HandleGenerateTypes | src/locations/Page.tsx:112-127 | without credentials nothing changes; otherwise it resets and marks types loading; generated is raised exactly when the report returns, and then the list is the report's ordered result (exactly the types with zero entries); otherwise the list is empty; nothing is loading at the end, and the asset selection and chosen type are kept |
| Page.HandleEntryReportSelectAsWritten | src/locations/Page.tsx:151-173 | as written, whatever the fetch returns, the entry list ends empty with generated raised, so the "nothing unused" message shows |
| Page.HandleEntryReportSelect | src/locations/Page.tsx:151-173 | corrected, entries are loading while the fetch is pending; at the end the list is exactly `UnusedEntries` of the fetched batch, in order (empty after a failure), generated is raised and nothing is loading |
| Page.OpenEntryReport | src/locations/Page.tsx:188-191 | the entry report button empties the lists and hides the "nothing unused" message |
| Page.EntryDeleteRefresh | src/locations/Page.tsx:129-134 | the entry list is emptied and generated is lowered, all else kept |
| Page.AssetDeleteRefresh | src/locations/Page.tsx:136-141 | the asset selection is cleared and the media report re-runs |
| Page.ToggleAssetSelection | src/locations/Page.tsx:143-149 | only the selection changes: the given asset's membership flips and the other ids keep theirs |
| Page.ButtonsDisabledWhileRunning | src/locations/Page.tsx:192-208 | while any report runs the report buttons are disabled; afterwards they are enabled again (there is a token) |
| Page.MediaErrorShowsEmptyState | src/locations/Page.tsx:247-250 | a media report whose listing or a probe fails shows the "nothing unused" message |
| Page.TypesReportEmptyState | src/locations/Page.tsx:247-250 | a types report that fails (failed listing, failed probe or reply without `items`) shows no message; one in which every type is used shows the "nothing unused" message |
| Page.InitialButtonsDisabled | src/locations/Page.tsx:33-48 | before start-up supplies a token the report buttons are disabled and no message shows |

## Left out

- Remote calls are parameters of the model: the client setup, the space and environment lookups, the `fetch` URLs, headers and JSON decoding, and the management SDK calls.
- The `limit: 1000` of the entries query (src/lib/fetchUnusedEntries.ts:9) belongs to the remote query. The classifier works on whatever batch was returned.
- Concurrency is not modelled: overlapping report runs, React's batching of state updates, and stale results arriving late. Each handler is one atomic transition.
- The start-up effects (Page.tsx:53-82) are not modelled. They call `getSpaceDetails`, `getCmaToken` and `fetchContentTypes`, which are not part of this model; the session is given.
- `deleteAssets`, the `deleteEntries` of `lib/deleteEntries`, `NotFound` and the content-type selector are not part of this model. For deletions from the page only the refresh callbacks are modelled. The sequencer modelled is the `deleteEntries` of `reportAndDelete.ts`.
- UI-only state is not modelled: `isGeneratingEntryReport`, `showContentTypeDropdown`, `fetchingTypes`, the inert "Sort by" select and search box, the asset titles, and the hard-coded `totalItems={113}`.
- The entries table's selection is React component state. It is lost when the table unmounts because the list became empty; this lifetime is not modelled.
- The relative dates of GenerateEntryReport.tsx:159-171 depend on the clock and the locale.
- Logging (`console.log`, `console.error`) is not modelled.
- The entry report's pager is not wired to its page state. `PaginationControl` (GenerateEntryReport.tsx:187-195) is the component of PaginationWithTotal.tsx, which declares no props (line 6). It ignores the `page`, `itemsPerPage` and handlers it is given and keeps its own state, so the handler at lines 192-195 is never called. Pagination.ViewPerPageChange models the component's own handler; EntryReportView.ViewChangeKeepsFirstItem describes the unused handler. Which page the table shows is the parent's state, and the parent is not part of this model.
- JsValues.Find returns the first property with a key (JsValues.FindFirst), while `JSON.parse` keeps the last of duplicate keys. The model takes decoded objects to have distinct keys and does not enforce it.
- Case mapping covers ASCII letters only. Numbers in entry fields are integers.
- A link whose `sys.id` is not a string is dropped. It could never equal an entry id, so the classifier's result is the same.
- The refresh callback is synchronous state setting and is taken never to fail.
- Deletion.DeleteEntries: whether a call fails and each entry's `publishedVersion` are functions of the call and the id, not of server state that earlier calls change. With an id listed twice, the second `getEntry` of an entry already deleted succeeds in the model, while the API answers 404 and the run aborts. The tables' handlers keep a selection free of repeats, but the model does not require it.
- A key such as `constructor` would reach `statusColorMap`'s prototype. Such keys are not modelled; every other status falls back to the default colour.
- The classifier is deterministic because it is a function. No lemma restates this.
- Pagination.ViewPerPageChange: requires a positive size. The pager offers only 20, 50 and 100, so division by zero is not modelled.
- Probes.UnusedContentTypes: on a failed or malformed probe the contract states that the result is an error, but not which of `RemoteError` and `TypeError` it is.
- Probes.ProbeScanKept: the kept items are characterised only for a run that did not abort, since both callers discard them otherwise.

## Findings

| source | as written | input that shows it | evidently intended | confidence | as-written member | corrected member |
|---|---|---|---|---|---|---|
| src/locations/Page.tsx:158-165 | six arguments reach the seven-parameter `generateReport` (src/lib/generateReport.ts:4-12). `() => setHasGenerated(true)` lands in `setLoading`; the content-type id lands in `setHasGenerated` and is called at generateReport.ts:14, throwing a TypeError before the fetch. A type-checking build rejects this call (TS2554, one argument short), so the bug ships only from a build that transpiles without type checking | choosing any content type, e.g. `"article"`, in a space with unused entries: the list stays empty and "No unused entries, media, or content types found!" is shown | a loading setter in the `setLoading` slot, then `() => setHasGenerated(true)`, then the content-type id, so that the fetched unused entries are shown | not executed; high | Page.HandleEntryReportSelectAsWritten | Page.HandleEntryReportSelect |
| src/components/Reports/GenerateEntryReport.tsx:81-94 | `getDisplayName` returns a field's truthy `en-US` value whatever its type. `.toLowerCase()` on a non-string throws while the list renders | an entry whose first field is a reference: `fields = {author: {"en-US": {sys: {type: "Link", linkType: "Entry", id: "X"}}}}` (lemma `EntryReportView.ReferenceFirstFieldBreaksSearch`) | a string name as the declared `string` return type says: non-string values are skipped and the id is the fallback | not executed; medium | EntryReportView.FilterAsWritten | EntryReportView.FilterEntries |
