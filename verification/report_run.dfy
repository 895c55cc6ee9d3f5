/** `generateReport`, in both copies (`generateReport.ts` and
    `reportAndDelete.ts`), as the effects it has through the callbacks it is
    handed. The callbacks are described by what they do with a boolean
    argument, so that a call site that hands over the wrong value (a string,
    or a setter meant for another slot) can be modelled as written. */
module ReportRun {
  import opened Wrappers
  import opened JsValues
  import opened Content
  import opened References

  /** What the value passed in a boolean-setter slot does when called. */
  datatype FlagSink =
    | SetsLoading       // a `setLoading` state setter
    | SetsHasGenerated  // a `setHasGenerated` state setter
    | MarksGenerated    // `() => setHasGenerated(true)`: ignores its argument
    | NotCallable       // not a function: calling it throws a TypeError

  /** The state the callbacks write. */
  datatype Slots = Slots(entries: seq<Entry>, loading: bool, hasGenerated: bool)

  /** What `fetchUnusedEntries` got from the platform: the entry batch, or a
      rejection anywhere in client setup or the entries query. */
  datatype Fetch = Fetched(batch: seq<Entry>) | FetchFailed

  /** A run: the state while the fetch is pending (or, for a run that throws
      before it, the state at the throw), the state at the end, and whether
      the run ended by throwing. */
  datatype ReportRun = ReportRun(pending: Slots, after: Slots, threw: bool)

  /** Calling the callback in a boolean slot; `None` when the call throws. */
  function Call(sink: FlagSink, arg: bool, s: Slots): Option<Slots>
  {
    match sink
    case SetsLoading => Some(s.(loading := arg))
    case SetsHasGenerated => Some(s.(hasGenerated := arg))
    case MarksGenerated => Some(s.(hasGenerated := true))
    case NotCallable => None
  }

  /** The callbacks sit in the slots they were written for. */
  predicate Wired(setLoading: FlagSink, setHasGenerated: FlagSink)
  {
    setLoading == SetsLoading && (setHasGenerated == SetsHasGenerated || setHasGenerated == MarksGenerated)
  }

  /** `generateReport` of `reportAndDelete.ts` (lines 5-24): raise the loading
      flag and the generated flag, fetch, store the classifier's result when
      the fetch succeeds and swallow the error when it fails, then lower the
      loading flag. A callback that throws ends the run on the spot; the
      `try` covers only the fetch and the store. */
  function RunReport(setLoading: FlagSink, setHasGenerated: FlagSink, fetch: Fetch, s: Slots): (r: ReportRun)
    ensures r.threw <==> setLoading == NotCallable || setHasGenerated == NotCallable
    ensures r.pending.entries == s.entries
    ensures r.threw ==> r.after.entries == s.entries
    ensures !r.threw && fetch.FetchFailed? ==> r.after.entries == s.entries
    ensures !r.threw && fetch.Fetched? ==> r.after.entries == UnusedEntries(fetch.batch)
    ensures !r.threw && fetch.Fetched? ==>
      forall e :: e in r.after.entries <==> e in fetch.batch && IsUnused(fetch.batch, e)
    ensures Wired(setLoading, setHasGenerated) ==>
      && !r.threw
      && r.pending.loading && r.pending.hasGenerated
      && !r.after.loading && r.after.hasGenerated
  {
    match Call(setLoading, true, s)
    case None => ReportRun(s, s, true)
    case Some(s1) =>
      match Call(setHasGenerated, true, s1)
      case None => ReportRun(s1, s1, true)
      case Some(s2) =>
        var s3 := if fetch.Fetched? then s2.(entries := UnusedEntries(fetch.batch)) else s2;
        match Call(setLoading, false, s3)
        case None => ReportRun(s2, s3, true)
        case Some(s4) => ReportRun(s2, s4, false)
  }

  /** `generateReport` of `generateReport.ts` (lines 4-29): the same run. Its
      extra `selectedContentType` is passed on to `fetchUnusedEntries`, which
      declares three parameters, so it selects nothing: whatever type is
      chosen, a correctly wired run stores the unused entries of the whole
      batch. */
  function GenerateReport(setLoading: FlagSink, setHasGenerated: FlagSink, selectedContentType: Value,
                          fetch: Fetch, s: Slots): (r: ReportRun)
    ensures r.threw <==> setLoading == NotCallable || setHasGenerated == NotCallable
    ensures r.threw ==> r.after.entries == s.entries
    ensures Wired(setLoading, setHasGenerated) ==>
      && !r.threw
      && r.pending == s.(loading := true, hasGenerated := true)
      && r.after == s.(entries := if fetch.Fetched? then UnusedEntries(fetch.batch) else s.entries,
                       loading := false, hasGenerated := true)
  {
    RunReport(setLoading, setHasGenerated, fetch, s)
  }

  /** A correctly wired run raises the generated flag even when the fetch
      fails, keeps the old entries then, and in every case ends not loading. */
  lemma FailedFetchStillGenerated(s: Slots)
    ensures var r := RunReport(SetsLoading, SetsHasGenerated, FetchFailed, s);
      r.after == s.(loading := false, hasGenerated := true)
  {
  }
}
