/** `deleteEntries` from `reportAndDelete.ts`: for each id in order, fetch the
    live entry, unpublish it when it has a published version, delete it; then
    call the refresh callback. One try block wraps everything, so the first
    failure skips all that remains, refresh included. The platform's behaviour
    is given: whether the client can be set up, each live entry's
    `publishedVersion`, and which operations fail. */
module Deletion {
  import opened Wrappers
  import opened Seqs

  /** One remote call, or the call of the refresh callback. */
  datatype Op = Get(id: string) | Unpublish(id: string) | Delete(id: string) | Refresh

  /** What happened: the calls issued in order (a failing call included) and
      whether a failure ended the run. */
  datatype Run = Run(trace: seq<Op>, aborted: bool)

  /** `if (entry.sys.publishedVersion)`: present and not 0. */
  predicate IsPublished(version: Option<int>)
  {
    version.Some? && version.value != 0
  }

  /** The calls one loop iteration makes for `id` when none fails. */
  function Steps(id: string, version: Option<int>): seq<Op>
  {
    [Get(id)] + (if IsPublished(version) then [Unpublish(id)] else []) + [Delete(id)]
  }

  /** The calls of a loop over `ids` in which nothing fails: each id's steps,
      one id after another, never interleaved. */
  function Plan(ids: seq<string>, publishedVersion: string -> Option<int>): seq<Op>
  {
    if |ids| == 0 then []
    else Steps(ids[0], publishedVersion(ids[0])) + Plan(ids[1..], publishedVersion)
  }

  /** Reference semantics of one failure boundary around a sequence of calls:
      issue them in order; the first that fails is issued and ends the run. */
  function RunUntilFailure(ops: seq<Op>, fails: Op -> bool): (r: Run)
    ensures r.trace <= ops
    ensures r.aborted <==> exists k :: 0 <= k < |ops| && fails(ops[k])
    ensures r.aborted ==> |r.trace| > 0 && fails(r.trace[|r.trace| - 1])
    ensures forall k :: 0 <= k < |r.trace| - 1 ==> !fails(r.trace[k])
    ensures !r.aborted ==> r.trace == ops
  {
    if |ops| == 0 then Run([], false)
    else if fails(ops[0]) then Run([ops[0]], true)
    else
      var rest := RunUntilFailure(ops[1..], fails);
      assert forall k :: 1 <= k < |ops| ==> ops[k] == ops[1..][k - 1];
      assert ops == [ops[0]] + ops[1..];
      Run([ops[0]] + rest.trace, rest.aborted)
  }

  lemma {:induction false} RunUntilFailureConcat(a: seq<Op>, b: seq<Op>, fails: Op -> bool)
    ensures RunUntilFailure(a + b, fails) ==
      var ra := RunUntilFailure(a, fails);
      var rb := RunUntilFailure(b, fails);
      if ra.aborted then ra else Run(a + rb.trace, rb.aborted)
  {
    if |a| > 0 {
      HeadTailOfConcat(a, b);
      RunUntilFailureConcat(a[1..], b, fails);
      if !fails(a[0]) {
        var tail := RunUntilFailure(a[1..] + b, fails);
        assert RunUntilFailure(a + b, fails) == Run([a[0]] + tail.trace, tail.aborted);
        if !RunUntilFailure(a[1..], fails).aborted {
          var rb := RunUntilFailure(b, fails);
          assert tail == Run(a[1..] + rb.trace, rb.aborted);
          ConsTail(a, rb.trace);
        }
      }
    } else {
      assert a + b == b;
    }
  }

  /** The loop of lines 38-50, written as the source writes it. */
  function DeleteLoop(ids: seq<string>, publishedVersion: string -> Option<int>, fails: Op -> bool): Run
  {
    if |ids| == 0 then Run([], false)
    else
      var id := ids[0];
      if fails(Get(id)) then Run([Get(id)], true)
      else if IsPublished(publishedVersion(id)) && fails(Unpublish(id)) then Run([Get(id), Unpublish(id)], true)
      else
        var done := [Get(id)] + (if IsPublished(publishedVersion(id)) then [Unpublish(id)] else []) + [Delete(id)];
        if fails(Delete(id)) then Run(done, true)
        else
          var rest := DeleteLoop(ids[1..], publishedVersion, fails);
          Run(done + rest.trace, rest.aborted)
  }

  /** The loop issues exactly the plan, cut at the first failing call. */
  lemma {:induction false} DeleteLoopFollowsPlan(ids: seq<string>, publishedVersion: string -> Option<int>, fails: Op -> bool)
    ensures DeleteLoop(ids, publishedVersion, fails) == RunUntilFailure(Plan(ids, publishedVersion), fails)
  {
    if |ids| > 0 {
      var id := ids[0];
      var steps := Steps(id, publishedVersion(id));
      var rest := Plan(ids[1..], publishedVersion);
      assert Plan(ids, publishedVersion) == steps + rest;
      DeleteLoopFollowsPlan(ids[1..], publishedVersion, fails);
      RunUntilFailureConcat(steps, rest, fails);
      StepsRun(id, publishedVersion(id), fails);
    }
  }

  /** One iteration under the failure boundary. */
  lemma StepsRun(id: string, version: Option<int>, fails: Op -> bool)
    ensures RunUntilFailure(Steps(id, version), fails) ==
      if fails(Get(id)) then Run([Get(id)], true)
      else if IsPublished(version) && fails(Unpublish(id)) then Run([Get(id), Unpublish(id)], true)
      else Run(Steps(id, version), fails(Delete(id)))
  {
    var steps := Steps(id, version);
    if IsPublished(version) {
      assert steps == [Get(id), Unpublish(id), Delete(id)];
      assert steps[1..] == [Unpublish(id), Delete(id)] && steps[1..][1..] == [Delete(id)];
      assert steps[1..][1..][1..] == [];
    } else {
      assert steps == [Get(id), Delete(id)];
      assert steps[1..] == [Delete(id)] && steps[1..][1..] == [];
    }
  }

  /** `deleteEntries(entryIds, ..., generateReport)`: with a client (`connects`),
      the calls are the plan for `entryIds` up to and including the first
      failing one; refresh is called once, last, exactly when nothing failed,
      which includes an empty id list. Without a client nothing is issued. */
  function DeleteEntries(ids: seq<string>, connects: bool, publishedVersion: string -> Option<int>,
                         fails: Op -> bool): (r: Run)
    ensures !connects ==> r == Run([], true)
    ensures connects && !(exists k :: 0 <= k < |Plan(ids, publishedVersion)| && fails(Plan(ids, publishedVersion)[k])) ==>
      r == Run(Plan(ids, publishedVersion) + [Refresh], false)
    ensures connects && (exists k :: 0 <= k < |Plan(ids, publishedVersion)| && fails(Plan(ids, publishedVersion)[k])) ==>
      && r.aborted
      && r.trace <= Plan(ids, publishedVersion)
      && |r.trace| > 0 && fails(r.trace[|r.trace| - 1])
      && (forall k :: 0 <= k < |r.trace| - 1 ==> !fails(r.trace[k]))
    ensures Refresh in r.trace <==> !r.aborted
  {
    if !connects then Run([], true)
    else
      var loop := DeleteLoop(ids, publishedVersion, fails);
      DeleteLoopFollowsPlan(ids, publishedVersion, fails);
      NoRefreshInPlan(ids, publishedVersion);
      if loop.aborted then loop else Run(loop.trace + [Refresh], false)
  }

  lemma {:induction false} NoRefreshInPlan(ids: seq<string>, publishedVersion: string -> Option<int>)
    ensures Refresh !in Plan(ids, publishedVersion)
  {
    if |ids| > 0 {
      NoRefreshInPlan(ids[1..], publishedVersion);
    }
  }

  /** Within the plan, a delete is preceded by its entry's unpublish when the
      live entry is published and by its fetch otherwise, and an unpublish is
      preceded by the fetch of a published entry. */
  lemma {:induction false} PlanOrder(ids: seq<string>, publishedVersion: string -> Option<int>, k: nat)
    requires k < |Plan(ids, publishedVersion)|
    ensures var plan := Plan(ids, publishedVersion);
      plan[k].Delete? ==>
        var id := plan[k].id;
        k > 0 && plan[k - 1] == (if IsPublished(publishedVersion(id)) then Unpublish(id) else Get(id))
    ensures var plan := Plan(ids, publishedVersion);
      plan[k].Unpublish? ==> k > 0 && plan[k - 1] == Get(plan[k].id) && IsPublished(publishedVersion(plan[k].id))
  {
    var steps := Steps(ids[0], publishedVersion(ids[0]));
    var rest := Plan(ids[1..], publishedVersion);
    assert Plan(ids, publishedVersion) == steps + rest;
    if k >= |steps| {
      PlanOrder(ids[1..], publishedVersion, k - |steps|);
      assert (steps + rest)[k] == rest[k - |steps|];
      if k - |steps| > 0 {
        assert (steps + rest)[k - 1] == rest[k - |steps| - 1];
      } else {
        assert !rest[0].Delete? && !rest[0].Unpublish? by {
          assert rest == Steps(ids[1], publishedVersion(ids[1])) + Plan(ids[2..], publishedVersion);
        }
      }
    }
  }

  /** An entry with `publishedVersion = 3` is unpublished before deletion;
      one without a published version is only fetched and deleted. */
  lemma SingleEntryExample(fails: Op -> bool)
    requires forall op :: !fails(op)
    ensures DeleteEntries(["e"], true, _ => Some(3), fails).trace == [Get("e"), Unpublish("e"), Delete("e"), Refresh]
    ensures DeleteEntries(["e"], true, _ => None, fails).trace == [Get("e"), Delete("e"), Refresh]
  {
    var published := (_: string) => Some(3);
    var draft := (_: string) => None;
    assert Plan(["e"], published) == [Get("e"), Unpublish("e"), Delete("e")] by {
      assert ["e"][1..] == [];
    }
    assert Plan(["e"], draft) == [Get("e"), Delete("e")] by {
      assert ["e"][1..] == [];
    }
  }
}
