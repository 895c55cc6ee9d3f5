/** Row selection in the two entry tables (`GenerateEntryReport` and
    `UnusedEntriesTable`) and the asset checkboxes of the page. A selection is
    a list of ids; it may hold an id twice, exactly as the React state can. */
module Selection {
  import opened Wrappers
  import opened Seqs
  import opened Content

  /** The test `id => id !== target` the removals pass to `filter`. */
  function Other(target: string): string -> bool
  {
    id => id != target
  }

  /** `selected.filter((id) => id !== target)`: every occurrence of `target`
      goes, every other id stays, in order. */
  function Remove(selected: seq<string>, target: string): (r: seq<string>)
    ensures target !in r
    ensures forall id :: id != target ==> (id in r <==> id in selected)
    ensures IsSubseq(r, selected)
    ensures Filter(r, Other(target)) == Filter(selected, Other(target))
  {
    FilterIsSubseq(selected, Other(target));
    FilterIdempotent(selected, Other(target));
    Filter(selected, Other(target))
  }

  /** `toggleSelect(checked, id)`: a tick appends `id` (a second tick appends
      it again), an untick removes all of its occurrences. The other ids keep
      their membership and their order either way. */
  function Toggle(selected: seq<string>, checked: bool, target: string): (r: seq<string>)
    ensures checked ==> |r| == |selected| + 1 && r[..|selected|] == selected && r[|selected|] == target
    ensures !checked ==> target !in r
    ensures forall id :: id != target ==> (id in r <==> id in selected)
    ensures Filter(r, Other(target)) == Filter(selected, Other(target))
  {
    if checked then
      FilterConcat(selected, [target], Other(target));
      assert Filter([target], Other(target)) == [] by {
        assert [target][1..] == [];
      }
      selected + [target]
    else
      FilterIdempotent(selected, Other(target));
      Remove(selected, target)
  }

  /** Ticking an id that was not selected and then unticking it restores the selection. */
  lemma {:induction false} ToggleOnOff(selected: seq<string>, target: string)
    requires target !in selected
    ensures Toggle(Toggle(selected, true, target), false, target) == selected
  {
    FilterConcat(selected, [target], Other(target));
    assert Filter([target], Other(target)) == [] by {
      assert [target][1..] == [];
    }
    assert forall i :: 0 <= i < |selected| ==> Other(target)(selected[i]) by {
      forall i | 0 <= i < |selected|
        ensures Other(target)(selected[i])
      {
        assert selected[i] in selected;
      }
    }
    FilterKeepsAll(selected, Other(target));
  }

  /** What `handleDeleteClick` does: the callback it makes, if any, and the selection after. */
  datatype DeleteClick = DeleteClick(callback: Option<seq<string>>, selection: seq<string>)

  /** `handleDeleteClick`: with a non-empty selection, hand it to
      `onDeleteSelected` and clear it; with an empty one, do nothing. */
  function ClickDelete(selected: seq<string>): (r: DeleteClick)
    ensures r.callback.Some? <==> |selected| > 0
    ensures r.callback.Some? ==> r.callback.value == selected
    ensures r.selection == []
  {
    if |selected| > 0 then DeleteClick(Some(selected), []) else DeleteClick(None, selected)
  }

  /** A second click right after a delete click hands nothing over: the
      callback runs at most once per selection. */
  lemma ClickDeleteOnce(selected: seq<string>)
    ensures ClickDelete(ClickDelete(selected).selection) == DeleteClick(None, [])
  {
  }

  /** The test `id => !pageIds.includes(id)`. */
  function NotOnPage(pageIds: seq<string>): string -> bool
  {
    id => id !in pageIds
  }

  /** `handleSelectAll(checked, paginatedIds)` of `GenerateEntryReport`: a
      tick makes the selection the duplicate-free union of what was selected
      and the page's ids (`[...new Set([...selected, ...pageIds])]`); an
      untick removes the page's ids and nothing else. */
  function SelectPage(selected: seq<string>, checked: bool, pageIds: seq<string>): (r: seq<string>)
    ensures checked ==> NoDup(r) && forall id :: id in r <==> id in selected || id in pageIds
    ensures !checked ==> forall id :: id in r <==> id in selected && id !in pageIds
    ensures !checked ==> IsSubseq(r, selected)
    ensures !checked ==> Filter(r, NotOnPage(pageIds)) == Filter(selected, NotOnPage(pageIds))
  {
    if checked then Dedup(selected + pageIds)
    else
      FilterIsSubseq(selected, NotOnPage(pageIds));
      FilterIdempotent(selected, NotOnPage(pageIds));
      Filter(selected, NotOnPage(pageIds))
  }

  /** A tick on the header keeps a duplicate-free selection as it was, in its
      own order, and appends the page's new ids after it. */
  lemma SelectPageKeepsSelection(selected: seq<string>, pageIds: seq<string>)
    requires NoDup(selected)
    ensures |SelectPage(selected, true, pageIds)| >= |selected|
    ensures SelectPage(selected, true, pageIds)[..|selected|] == selected
  {
    DedupKeepsDistinctPrefix(selected, pageIds, {});
    var rest := DedupFrom(pageIds, {} + Elems(selected));
    assert SelectPage(selected, true, pageIds) == selected + rest;
    assert (selected + rest)[..|selected|] == selected;
  }

  /** The header checkbox of `GenerateEntryReport`:
      `paginatedIds.every((id) => selectedIds.includes(id))`. */
  predicate PageHeaderChecked(pageIds: seq<string>, selected: seq<string>)
  {
    forall i :: 0 <= i < |pageIds| ==> pageIds[i] in selected
  }

  /** Ticking the header checks it; unticking it unchecks it unless the page
      is empty, whose header is always checked. */
  lemma {:induction false} HeaderFollowsSelectPage(selected: seq<string>, pageIds: seq<string>)
    ensures PageHeaderChecked(pageIds, SelectPage(selected, true, pageIds))
    ensures PageHeaderChecked(pageIds, SelectPage(selected, false, pageIds)) <==> |pageIds| == 0
  {
    var on := SelectPage(selected, true, pageIds);
    assert forall i :: 0 <= i < |pageIds| ==> pageIds[i] in on by {
      forall i | 0 <= i < |pageIds|
        ensures pageIds[i] in on
      {
        assert pageIds[i] in pageIds;
      }
    }
    if |pageIds| > 0 {
      var off := SelectPage(selected, false, pageIds);
      assert pageIds[0] in pageIds;
      assert pageIds[0] !in off;
    }
  }

  /** `handleSelectAll(checked)` of `UnusedEntriesTable`: a tick selects the
      id of every entry of the whole list, in list order; an untick clears
      the selection. */
  function SelectAll(entries: seq<Entry>, checked: bool): (r: seq<string>)
    ensures checked ==> |r| == |entries| && forall i :: 0 <= i < |r| ==> r[i] == entries[i].sys.id
    ensures !checked ==> r == []
  {
    if checked then Map(entries, EntryId) else []
  }

  /** The header checkbox of `UnusedEntriesTable`: `selectedIds.length === entries.length`. */
  predicate CountHeaderChecked(selected: seq<string>, entries: seq<Entry>)
  {
    |selected| == |entries|
  }

  /** For every list, ticking the header selects each entry's id and checks
      the header; unticking it clears the selection, which leaves the header
      checked only for an empty list. */
  lemma SelectAllHeader(entries: seq<Entry>)
    ensures CountHeaderChecked(SelectAll(entries, true), entries)
    ensures forall e :: e in entries ==> e.sys.id in SelectAll(entries, true)
    ensures CountHeaderChecked(SelectAll(entries, false), entries) <==> |entries| == 0
  {
    var all := SelectAll(entries, true);
    forall e | e in entries
      ensures e.sys.id in all
    {
      var k :| 0 <= k < |entries| && entries[k] == e;
      assert all[k] == e.sys.id;
    }
  }

  /** The count-only header rule: ticking it checks it, and the rule also
      holds for a list in which one entry is ticked twice and another not at
      all. The table cannot reach that list, since its row checkbox is
      checked exactly when the id is selected and so never reports a second
      tick; the lemma is about the `length === length` rule alone. */
  lemma CountHeaderIgnoresMembership(a: Entry, b: Entry)
    requires a.sys.id == "A" && b.sys.id == "B"
    ensures CountHeaderChecked(SelectAll([a, b], true), [a, b])
    ensures var twice := Toggle(Toggle([], true, "A"), true, "A");
      CountHeaderChecked(twice, [a, b]) && "B" !in twice
  {
    var once := Toggle([], true, "A");
    assert once == ["A"];
    assert Toggle(once, true, "A") == ["A", "A"];
  }

  /** `toggleAssetSelection(id)` of the page: flips whether `id` is selected. */
  function ToggleAsset(selected: seq<string>, target: string): (r: seq<string>)
    ensures target in r <==> target !in selected
    ensures forall id :: id != target ==> (id in r <==> id in selected)
    ensures Filter(r, Other(target)) == Filter(selected, Other(target))
  {
    Toggle(selected, target !in selected, target)
  }

  /** Flipping an asset twice from unselected restores the selection. */
  lemma ToggleAssetTwice(selected: seq<string>, target: string)
    requires target !in selected
    ensures ToggleAsset(ToggleAsset(selected, target), target) == selected
  {
    ToggleOnOff(selected, target);
  }
}
