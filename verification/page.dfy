/** The orchestrating page (`Page.tsx`): the report state, the three report
    handlers, the asset selection, the delete callbacks, and the two
    predicates the page renders from (buttons disabled, "nothing unused"
    message). Each handler is one transition; its `pending` state is the
    state while its remote work is awaited. */
module Page {
  import opened Wrappers
  import opened JsValues
  import opened Seqs
  import opened Content
  import opened References
  import Probes
  import ReportRun
  import Selection

  /** `loadingState`: which report is running. */
  datatype Kind = EntriesReport | MediaReport | TypesReport

  /** The credentials the page obtains on start-up; empty until then. */
  datatype Session = Session(accessToken: string, spaceId: string, environmentId: string)

  datatype PageState = PageState(
    session: Session,
    selectedType: string,
    entries: seq<Entry>,
    media: seq<Asset>,
    types: seq<ContentType>,
    selectedAssets: seq<string>,
    loading: Option<Kind>,
    hasGenerated: bool)

  datatype Transition = Transition(pending: PageState, after: PageState)

  /** The `useState` initial values. */
  const Initial: PageState := PageState(Session("", "", ""), "", [], [], [], [], None, false)

  /** `resetReports`: the three result lists emptied and the generated flag
      lowered; the asset selection, among the rest, is left as it was. */
  function ResetReports(st: PageState): (r: PageState)
    ensures r.entries == [] && r.media == [] && r.types == [] && !r.hasGenerated
    ensures r.session == st.session && r.selectedType == st.selectedType
    ensures r.selectedAssets == st.selectedAssets && r.loading == st.loading
  {
    st.(entries := [], media := [], types := [], hasGenerated := false)
  }

  /** The guard of the media and types handlers: token, space and environment all non-empty. */
  predicate HasCredentials(s: Session)
  {
    s.accessToken != "" && s.spaceId != "" && s.environmentId != ""
  }

  /** `isDisabled={!accessToken || loadingState !== null}` of the three report buttons. */
  predicate ReportButtonsDisabled(st: PageState)
  {
    st.session.accessToken == "" || st.loading.Some?
  }

  /** The "No unused entries, media, or content types found!" message. */
  predicate EmptyStateShown(st: PageState)
  {
    st.loading.None? && st.hasGenerated && st.entries == [] && st.media == [] && st.types == []
  }

  /** Applies the callbacks `generateMediaReport` calls, in order. */
  function ApplyMediaEffects(st: PageState, effects: seq<Probes.MediaEffect>): PageState
    decreases |effects|
  {
    if |effects| == 0 then st
    else
      var next := match effects[0]
        case SetUnusedAssets(assets) => st.(media := assets)
        case SetHasGenerated(generated) => st.(hasGenerated := generated);
      ApplyMediaEffects(next, effects[1..])
  }

  /** `handleGenerateMediaReport`: without credentials, nothing; otherwise
      reset, mark media loading, run the media report (which catches its own
      errors and always raises the generated flag), and end not loading. */
  function HandleGenerateMedia(st: PageState, listing: Probes.Listing<Asset>,
                               probe: string -> Probes.ProbeReply): (t: Transition)
    ensures !HasCredentials(st.session) ==> t.pending == st && t.after == st
    ensures HasCredentials(st.session) ==>
      && t.pending == ResetReports(st).(loading := Some(MediaReport))
      && t.after.session == st.session
      && t.after.loading == None && t.after.hasGenerated
      && t.after.entries == [] && t.after.types == []
      && t.after.selectedAssets == st.selectedAssets && t.after.selectedType == st.selectedType
      && t.after.media == Probes.PublishedAssets(listing, probe)
  {
    if !HasCredentials(st.session) then Transition(st, st)
    else
      var pending := ResetReports(st).(loading := Some(MediaReport));
      var effects := Probes.MediaReport(listing, probe);
      var published := pending.(media := effects[0].assets);
      assert ApplyMediaEffects(pending, effects) == ApplyMediaEffects(published, effects[1..]);
      assert effects[1..][0] == Probes.SetHasGenerated(true) && effects[1..][1..] == [];
      assert ApplyMediaEffects(published, effects[1..]) == ApplyMediaEffects(published.(hasGenerated := true), []);
      var done := ApplyMediaEffects(pending, effects);
      Transition(pending, done.(loading := None))
  }

  /** `handleGenerateUnusedContentTypeReport`: without credentials, nothing;
      otherwise reset and mark types loading; a report that returns is stored
      and raises the generated flag, one that throws leaves the lists empty
      and the flag down; either way the run ends not loading. */
  function HandleGenerateTypes(st: PageState, listing: Probes.Listing<ContentType>,
                               probe: string -> Probes.ProbeReply): (t: Transition)
    ensures !HasCredentials(st.session) ==> t.pending == st && t.after == st
    ensures HasCredentials(st.session) ==>
      && t.pending == ResetReports(st).(loading := Some(TypesReport))
      && t.after.session == st.session
      && t.after.loading == None
      && t.after.entries == [] && t.after.media == []
      && t.after.selectedAssets == st.selectedAssets && t.after.selectedType == st.selectedType
      && (t.after.hasGenerated <==> listing.Listed? && forall ct :: ct in listing.items ==> probe(ct.id).Items?)
      && (t.after.hasGenerated ==> t.after.types == Probes.UnusedContentTypes(listing, probe).value)
      && (!t.after.hasGenerated ==> t.after.types == [])
      && (forall ct :: ct in t.after.types <==> t.after.hasGenerated && ct in listing.items && probe(ct.id) == Probes.Items(0))
  {
    if !HasCredentials(st.session) then Transition(st, st)
    else
      var pending := ResetReports(st).(loading := Some(TypesReport));
      match Probes.UnusedContentTypes(listing, probe)
      case Ok(found) => Transition(pending, pending.(types := found, hasGenerated := true, loading := None))
      case Err(_) => Transition(pending, pending.(loading := None))
  }

  /** The slots `generateReport` writes, read off the page state. */
  function ToSlots(st: PageState): ReportRun.Slots
  {
    ReportRun.Slots(st.entries, st.loading.Some?, st.hasGenerated)
  }

  /** Writes the slots back; a raised loading flag is the entries report's. */
  function FromSlots(st: PageState, s: ReportRun.Slots): PageState
  {
    st.(entries := s.entries, hasGenerated := s.hasGenerated,
        loading := if s.loading then Some(EntriesReport) else None)
  }

  /** The entry handler's common shape: select the type, mark entries
      loading, reset, run `generateReport` with the given callbacks, and end
      not loading whether or not it threw. */
  function EntryReportWith(st: PageState, contentTypeId: string, setLoading: ReportRun.FlagSink,
                           setHasGenerated: ReportRun.FlagSink, fetch: ReportRun.Fetch): Transition
  {
    var start := ResetReports(st.(selectedType := contentTypeId, loading := Some(EntriesReport)));
    var run := ReportRun.GenerateReport(setLoading, setHasGenerated, Null, fetch, ToSlots(start));
    Transition(FromSlots(start, run.pending), FromSlots(start, run.after).(loading := None))
  }

  /** `handleEntryReportSelect` as written (lines 151-173): six arguments
      reach the seven-parameter `generateReport`, so `() => setHasGenerated(true)`
      sits in the `setLoading` slot and the content-type id in the
      `setHasGenerated` slot. Calling the id throws before the fetch: whatever
      the platform holds, the entry list stays empty and the page announces
      that nothing unused was found. */
  function HandleEntryReportSelectAsWritten(st: PageState, contentTypeId: string, fetch: ReportRun.Fetch): (t: Transition)
    ensures t.after.selectedType == contentTypeId
    ensures t.after.entries == [] && t.after.hasGenerated && t.after.loading == None
    ensures EmptyStateShown(t.after)
  {
    EntryReportWith(st, contentTypeId, ReportRun.MarksGenerated, ReportRun.NotCallable, fetch)
  }

  /** `handleEntryReportSelect` with the missing `setLoading` argument
      supplied (a setter of the page's loading state), so that every callback
      reaches its own slot: entries loading and the generated flag raised
      while the fetch is pending; at the end the unused entries of the
      fetched batch, or an empty list when the fetch failed, and not loading. */
  function HandleEntryReportSelect(st: PageState, contentTypeId: string, fetch: ReportRun.Fetch): (t: Transition)
    ensures t.pending.loading == Some(EntriesReport) && t.pending.hasGenerated
    ensures t.pending.entries == [] && t.pending.media == [] && t.pending.types == []
    ensures t.after.selectedType == contentTypeId && t.after.hasGenerated && t.after.loading == None
    ensures t.after.session == st.session
    ensures t.after.media == [] && t.after.types == [] && t.after.selectedAssets == st.selectedAssets
    ensures fetch.FetchFailed? ==> t.after.entries == []
    ensures fetch.Fetched? ==> t.after.entries == UnusedEntries(fetch.batch)
    ensures fetch.Fetched? ==> forall e :: e in t.after.entries <==> e in fetch.batch && IsUnused(fetch.batch, e)
  {
    EntryReportWith(st, contentTypeId, ReportRun.SetsLoading, ReportRun.MarksGenerated, fetch)
  }

  /** The "Generate Entry Report" button (lines 188-191): reset the reports
      (and open the type dropdown, which is not modelled). */
  function OpenEntryReport(st: PageState): (r: PageState)
    ensures r.entries == [] && r.media == [] && r.types == [] && !r.hasGenerated
    ensures !EmptyStateShown(r)
  {
    ResetReports(st)
  }

  /** The refresh callback `handleDeleteEntries` hands to `deleteEntries`:
      the entry list emptied and the generated flag lowered. */
  function EntryDeleteRefresh(st: PageState): (r: PageState)
    ensures r.entries == [] && !r.hasGenerated
    ensures r.media == st.media && r.types == st.types && r.selectedAssets == st.selectedAssets
    ensures r.loading == st.loading && r.session == st.session && r.selectedType == st.selectedType
    ensures !EmptyStateShown(r)
  {
    st.(entries := [], hasGenerated := false)
  }

  /** The refresh callback `handleDeleteAssets` hands to `deleteAssets`: the
      asset selection cleared, then the media report re-run. */
  function AssetDeleteRefresh(st: PageState, listing: Probes.Listing<Asset>,
                              probe: string -> Probes.ProbeReply): (t: Transition)
    ensures t.pending.selectedAssets == [] && t.after.selectedAssets == []
    ensures HasCredentials(st.session) ==>
      t.after.media == Probes.PublishedAssets(listing, probe) && t.after.hasGenerated && t.after.loading == None
    ensures !HasCredentials(st.session) ==> t.after == st.(selectedAssets := [])
  {
    HandleGenerateMedia(st.(selectedAssets := []), listing, probe)
  }

  /** `toggleAssetSelection(assetId)` */
  function ToggleAssetSelection(st: PageState, assetId: string): (r: PageState)
    ensures assetId in r.selectedAssets <==> assetId !in st.selectedAssets
    ensures forall id :: id != assetId ==> (id in r.selectedAssets <==> id in st.selectedAssets)
    ensures r == st.(selectedAssets := r.selectedAssets)
  {
    st.(selectedAssets := Selection.ToggleAsset(st.selectedAssets, assetId))
  }

  /** While any report runs, all three report buttons are disabled; once it
      ends they are enabled again exactly when there is a token. */
  lemma ButtonsDisabledWhileRunning(st: PageState, assets: Probes.Listing<Asset>,
                                    types: Probes.Listing<ContentType>, probe: string -> Probes.ProbeReply,
                                    contentTypeId: string, fetch: ReportRun.Fetch)
    requires HasCredentials(st.session)
    ensures ReportButtonsDisabled(HandleGenerateMedia(st, assets, probe).pending)
    ensures !ReportButtonsDisabled(HandleGenerateMedia(st, assets, probe).after)
    ensures ReportButtonsDisabled(HandleGenerateTypes(st, types, probe).pending)
    ensures !ReportButtonsDisabled(HandleGenerateTypes(st, types, probe).after)
    ensures ReportButtonsDisabled(HandleEntryReportSelect(st, contentTypeId, fetch).pending)
    ensures !ReportButtonsDisabled(HandleEntryReportSelect(st, contentTypeId, fetch).after)
  {
  }

  /** A media report whose listing or any probe fails shows the
      "nothing unused" message, exactly as a clean space does. */
  lemma MediaErrorShowsEmptyState(st: PageState, listing: Probes.Listing<Asset>,
                                  probe: string -> Probes.ProbeReply)
    requires HasCredentials(st.session)
    requires !listing.Listed? || exists a :: a in listing.items && probe(a.id) == Probes.ProbeFailed
    ensures EmptyStateShown(HandleGenerateMedia(st, listing, probe).after)
  {
  }

  /** A types report that fails (a failed listing, a failed probe or a reply
      without `items`) shows no message at all; one that finds every type in
      use shows the "nothing unused" message. */
  lemma TypesReportEmptyState(st: PageState, listing: Probes.Listing<ContentType>,
                              probe: string -> Probes.ProbeReply)
    requires HasCredentials(st.session)
    ensures !(listing.Listed? && forall ct :: ct in listing.items ==> probe(ct.id).Items?) ==>
      !EmptyStateShown(HandleGenerateTypes(st, listing, probe).after)
    ensures listing.Listed? && (forall ct :: ct in listing.items ==> probe(ct.id).Items? && probe(ct.id) != Probes.Items(0)) ==>
      EmptyStateShown(HandleGenerateTypes(st, listing, probe).after)
  {
    var after := HandleGenerateTypes(st, listing, probe).after;
    EmptyIffNoMember(after.types);
  }

  /** Before start-up completes there is no token, so every report button is disabled. */
  lemma InitialButtonsDisabled()
    ensures ReportButtonsDisabled(Initial) && !EmptyStateShown(Initial)
  {
  }
}
