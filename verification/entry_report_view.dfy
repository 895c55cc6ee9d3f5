/** What `GenerateEntryReport` derives from its entry list before rendering:
    the display name of each entry, the search filter, the current page's
    slice and ids, and the status badge. */
module EntryReportView {
  import opened Wrappers
  import opened JsValues
  import opened Seqs
  import opened Text
  import opened Content
  import Pagination
  import Selection

  /** `getDisplayName` as written: with falsy `fields`, the id; otherwise the
      first field value that is a string, or whose `en-US` property is
      truthy, in which case that property is returned whatever its type;
      failing both, the id. */
  function DisplayNameAsWritten(e: Entry): Value
  {
    if !Truthy(e.fields) then Str(e.sys.id) else FirstNameAsWritten(Members(e.fields), e.sys.id)
  }

  function FirstNameAsWritten(values: seq<Value>, id: string): Value
  {
    if |values| == 0 then Str(id)
    else if values[0].Str? then values[0]
    else if Truthy(Get(values[0], "en-US")) then Get(values[0], "en-US")
    else FirstNameAsWritten(values[1..], id)
  }

  /** The `en-US` value of a field that can serve as a name: a non-empty string. */
  predicate NamesEntry(v: Value)
  {
    v.Str? && v.s != ""
  }

  /** A field value the corrected `getDisplayName` accepts: a string, or an
      object whose `en-US` property is a non-empty string. */
  predicate Qualifies(v: Value)
  {
    v.Str? || NamesEntry(Get(v, "en-US"))
  }

  /** The name a qualifying field value gives. */
  function NameOf(v: Value): string
    requires Qualifies(v)
  {
    if v.Str? then v.s else Get(v, "en-US").s
  }

  /** `getDisplayName` as its declared `string` result type intends: the
      first field value that is a string, or whose `en-US` property is a
      non-empty string; failing both, the id. */
  function DisplayName(e: Entry): (name: string)
    ensures !Truthy(e.fields) ==> name == e.sys.id
    ensures Truthy(e.fields) && (forall k :: 0 <= k < |Members(e.fields)| ==> !Qualifies(Members(e.fields)[k])) ==>
      name == e.sys.id
    ensures Truthy(e.fields) ==>
      forall k :: 0 <= k < |Members(e.fields)| && Qualifies(Members(e.fields)[k]) &&
                  (forall j :: 0 <= j < k ==> !Qualifies(Members(e.fields)[j])) ==>
        name == NameOf(Members(e.fields)[k])
  {
    if !Truthy(e.fields) then e.sys.id else FirstName(Members(e.fields), e.sys.id)
  }

  /** The loop of lines 83-88: the first qualifying field names the entry,
      and the id is used only when no field qualifies. */
  function FirstName(values: seq<Value>, id: string): (name: string)
    ensures (forall k :: 0 <= k < |values| ==> !Qualifies(values[k])) ==> name == id
    ensures forall k :: 0 <= k < |values| && Qualifies(values[k]) && (forall j :: 0 <= j < k ==> !Qualifies(values[j])) ==>
      name == NameOf(values[k])
  {
    if |values| == 0 then id
    else if values[0].Str? then values[0].s
    else if NamesEntry(Get(values[0], "en-US")) then Get(values[0], "en-US").s
    else
      var name := FirstName(values[1..], id);
      assert forall k :: 1 <= k < |values| ==> values[k] == values[1..][k - 1];
      name
  }

  /** Wherever the name as written is a string, the corrected name is that string. */
  lemma {:induction false} FirstNameAgrees(values: seq<Value>, id: string)
    requires FirstNameAsWritten(values, id).Str?
    ensures FirstName(values, id) == FirstNameAsWritten(values, id).s
  {
    if |values| > 0 && !values[0].Str? && !Truthy(Get(values[0], "en-US")) {
      FirstNameAgrees(values[1..], id);
    }
  }

  lemma DisplayNameAgrees(e: Entry)
    requires DisplayNameAsWritten(e).Str?
    ensures DisplayName(e) == DisplayNameAsWritten(e).s
  {
    if Truthy(e.fields) {
      FirstNameAgrees(Members(e.fields), e.sys.id);
    }
  }

  /** The search test of lines 91-94: the lowercased name contains the lowercased query. */
  function Matches(query: string): Entry -> bool
  {
    e => Contains(Lower(DisplayName(e)), Lower(query))
  }

  /** `filteredEntries`, with the corrected display name: the entries whose
      lowercased name contains the lowercased query, in list order. */
  function FilterEntries(entries: seq<Entry>, query: string): (r: seq<Entry>)
    ensures IsSubseq(r, entries)
    ensures forall e :: e in r <==> e in entries && Contains(Lower(DisplayName(e)), Lower(query))
  {
    FilterIsSubseq(entries, Matches(query));
    Filter(entries, Matches(query))
  }

  /** An empty search keeps every entry. */
  lemma EmptyQueryKeepsAll(entries: seq<Entry>)
    ensures FilterEntries(entries, "") == entries
  {
    assert Lower("") == "";
    forall i | 0 <= i < |entries|
      ensures Matches("")(entries[i])
    {
      EmptyNeedleEverywhere(Lower(DisplayName(entries[i])));
    }
    FilterKeepsAll(entries, Matches(""));
  }

  /** `filteredEntries` as written: `getDisplayName(entry).toLowerCase()`
      throws a TypeError for the first entry whose name is not a string, and
      the render fails. */
  function FilterAsWritten(entries: seq<Entry>, query: string): (r: Result<seq<Entry>>)
    ensures r.Err? <==> exists i :: 0 <= i < |entries| && !DisplayNameAsWritten(entries[i]).Str?
    ensures r.Ok? ==> r.value == FilterEntries(entries, query)
  {
    if exists i :: 0 <= i < |entries| && !DisplayNameAsWritten(entries[i]).Str? then Err(TypeError)
    else
      forall i | 0 <= i < |entries|
        ensures Matches(query)(entries[i]) == Contains(Lower(DisplayNameAsWritten(entries[i]).s), Lower(query))
      {
        DisplayNameAgrees(entries[i]);
      }
      var keep := (e: Entry) => DisplayNameAsWritten(e).Str? && Contains(Lower(DisplayNameAsWritten(e).s), Lower(query));
      FilterExt(entries, keep, Matches(query));
      Ok(Filter(entries, keep))
  }

  /** An entry whose first field is a reference has a Link object as its
      `en-US` value: as written that object is the display name and the
      search throws, while the corrected name falls back to the entry id and
      the entry is listed. */
  lemma ReferenceFirstFieldBreaksSearch()
    ensures var e := Entry(EntrySys("E1", "article", None, map[]),
                           Obj([Prop("author", Obj([Prop("en-US", LinkValue("Entry", "X"))]))]));
      && DisplayNameAsWritten(e) == LinkValue("Entry", "X")
      && FilterAsWritten([e], "") == Err(TypeError)
      && DisplayName(e) == "E1"
      && FilterEntries([e], "") == [e]
  {
    var link := LinkValue("Entry", "X");
    var field := Obj([Prop("en-US", link)]);
    var e := Entry(EntrySys("E1", "article", None, map[]), Obj([Prop("author", field)]));
    assert Members(e.fields) == [field];
    assert Get(field, "en-US") == link;
    assert [field][1..] == [];
    assert DisplayNameAsWritten(e) == link;
    assert !DisplayNameAsWritten([e][0]).Str?;
    EmptyQueryKeepsAll([e]);
  }

  /** `filteredEntries.slice(page * n, (page + 1) * n)`, both ends clamped to the list. */
  function PageSlice<T>(xs: seq<T>, page: nat, n: nat): (r: seq<T>)
    ensures |r| <= n
    ensures |r| == if page * n >= |xs| then 0 else Min(n, |xs| - page * n)
    ensures forall j :: 0 <= j < |r| ==> r[j] == xs[page * n + j]
  {
    var lo := Min(page * n, |xs|);
    var hi := Min((page + 1) * n, |xs|);
    assert (page + 1) * n == page * n + n;
    xs[lo..hi]
  }

  function Min(a: int, b: int): int
  {
    if a <= b then a else b
  }

  /** Every item of the list is shown on page `j / n`, at row `j % n`. */
  lemma ItemOnItsPage<T>(xs: seq<T>, n: nat, j: nat)
    requires n > 0 && j < |xs|
    ensures j % n < |PageSlice(xs, j / n, n)|
    ensures PageSlice(xs, j / n, n)[j % n] == xs[j]
  {
    assert (j / n) * n + j % n == j;
  }

  /** After a change between offered page sizes by the handler of lines
      192-195, the item that headed the old page is on the new page. The
      pager rendered there ignores that handler, so this describes the
      handler, not a transition the rendered page can make. */
  lemma ViewChangeKeepsFirstItem<T>(xs: seq<T>, p: Pagination.Pager, i: nat)
    requires p.itemsPerPage in Pagination.PerPageOptions && i in Pagination.PerPageOptions
    requires p.itemsPerPage * p.page < |xs|
    ensures xs[p.itemsPerPage * p.page] in PageSlice(xs, Pagination.ViewPerPageChange(p, i).page, i)
  {
    var first := p.itemsPerPage * p.page;
    var r := Pagination.ViewPerPageChange(p, i);
    Pagination.FirstItemStaysVisible(p, i);
    var slice := PageSlice(xs, r.page, i);
    assert first - r.page * i < |slice|;
    assert slice[first - r.page * i] == xs[first];
  }

  /** `paginatedIds`: the ids of the current page's entries, in order. */
  function PageIds(entries: seq<Entry>, page: nat, n: nat): (ids: seq<string>)
    ensures |ids| == |PageSlice(entries, page, n)| <= n
    ensures forall k :: 0 <= k < |ids| ==> ids[k] == PageSlice(entries, page, n)[k].sys.id
    ensures |ids| == 0 || page * n + |ids| <= |entries|
    ensures forall k :: 0 <= k < |ids| ==> ids[k] == entries[page * n + k].sys.id
  {
    Map(PageSlice(entries, page, n), EntryId)
  }

  /** Every entry's id is among the page ids of the page that shows it, so
      ticking that page's header selects it. */
  lemma PageIdsCoverEveryItem(entries: seq<Entry>, n: nat, j: nat)
    requires n > 0 && j < |entries|
    ensures entries[j].sys.id in PageIds(entries, j / n, n)
    ensures entries[j].sys.id in Selection.SelectPage([], true, PageIds(entries, j / n, n))
  {
    DivBounds(j, n);
    ItemOnPage(entries, n, j, j / n);
  }

  /** The entry at `j` is on any page that starts at or before it and ends
      after it. */
  lemma ItemOnPage(entries: seq<Entry>, n: nat, j: nat, page: nat)
    requires j < |entries| && page * n <= j < page * n + n
    ensures entries[j].sys.id in PageIds(entries, page, n)
    ensures entries[j].sys.id in Selection.SelectPage([], true, PageIds(entries, page, n))
  {
    var ids := PageIds(entries, page, n);
    var k := j - page * n;
    assert ids[k] == entries[j].sys.id;
  }

  lemma DivBounds(j: nat, n: nat)
    requires n > 0
    ensures (j / n) * n <= j < (j / n) * n + n
  {
    assert (j / n) * n + j % n == j;
  }

  /** Page size 2 over entries B, C, D, E: ticking the header on page 0 and
      then on page 1 selects all four, the first page's ids first. */
  lemma SelectAcrossPages(b: Entry, c: Entry, d: Entry, e: Entry)
    requires b.sys.id == "B" && c.sys.id == "C" && d.sys.id == "D" && e.sys.id == "E"
    ensures var entries := [b, c, d, e];
      var first := Selection.SelectPage([], true, PageIds(entries, 0, 2));
      Selection.SelectPage(first, true, PageIds(entries, 1, 2)) == ["B", "C", "D", "E"]
  {
    FourEntriesTwoPages(b, c, d, e);
    var page0: seq<string> := ["B", "C"];
    var page1: seq<string> := ["D", "E"];
    var all: seq<string> := ["B", "C", "D", "E"];
    assert [] + page0 == page0;
    TwoDistinct("B", "C");
    DedupOfDistinct(page0);
    assert Selection.SelectPage([], true, page0) == page0;
    assert page0 + page1 == all;
    FourDistinct(all);
    DedupOfDistinct(all);
    assert Selection.SelectPage(page0, true, page1) == all;
  }

  lemma TwoDistinct(x: string, y: string)
    requires x != y
    ensures NoDup([x, y])
  {
  }

  lemma FourDistinct(xs: seq<string>)
    requires xs == ["B", "C", "D", "E"]
    ensures NoDup(xs)
  {
  }

  lemma FourEntriesTwoPages(b: Entry, c: Entry, d: Entry, e: Entry)
    requires b.sys.id == "B" && c.sys.id == "C" && d.sys.id == "D" && e.sys.id == "E"
    ensures PageIds([b, c, d, e], 0, 2) == ["B", "C"]
    ensures PageIds([b, c, d, e], 1, 2) == ["D", "E"]
  {
    var entries := [b, c, d, e];
    var p0 := PageIds(entries, 0, 2);
    var p1 := PageIds(entries, 1, 2);
    assert |PageSlice(entries, 0, 2)| == 2 && |PageSlice(entries, 1, 2)| == 2;
    assert p0[0] == "B" && p0[1] == "C";
    assert p1[0] == "D" && p1[1] == "E";
  }

  /** The badge colours of `statusColorMap`, plus the fallback `"default"`. */
  datatype Variant = Positive | Primary | Warning | Secondary | Default

  /** `statusColorMap[statusRaw] ?? "default"` */
  function VariantOf(status: string): Variant
  {
    if status == "published" then Positive
    else if status == "changed" then Primary
    else if status == "draft" then Warning
    else if status == "archived" then Secondary
    else Default
  }

  /** `statusRaw`: "archived" when `archivedAt` is set (non-empty), otherwise
      the non-empty `fieldStatus["*"]["en-US"]`, otherwise "draft". */
  function StatusRaw(sys: EntrySys): (status: string)
    ensures sys.archivedAt.Some? && sys.archivedAt.value != "" ==> status == "archived"
    ensures !(sys.archivedAt.Some? && sys.archivedAt.value != "") && FieldStatus(sys) != "" ==>
      status == FieldStatus(sys)
    ensures !(sys.archivedAt.Some? && sys.archivedAt.value != "") && FieldStatus(sys) == "" ==>
      status == "draft"
  {
    if sys.archivedAt.Some? && sys.archivedAt.value != "" then "archived"
    else if FieldStatus(sys) != "" then FieldStatus(sys)
    else "draft"
  }

  /** `sys.fieldStatus?.["*"]?.["en-US"]`, with a missing value read as "". */
  function FieldStatus(sys: EntrySys): string
  {
    if "*" in sys.fieldStatus && "en-US" in sys.fieldStatus["*"] then sys.fieldStatus["*"]["en-US"] else ""
  }

  datatype Badge = Badge(caption: string, variant: Variant)

  /** The status cell: the raw status capitalised, coloured by the map. */
  function Status(sys: EntrySys): (b: Badge)
    ensures |b.caption| == |StatusRaw(sys)| && b.caption[1..] == StatusRaw(sys)[1..]
    ensures !('a' <= b.caption[0] <= 'z')
    ensures LowerChar(b.caption[0]) == LowerChar(StatusRaw(sys)[0])
    ensures StatusRaw(sys) == "published" ==> b.variant == Positive
    ensures StatusRaw(sys) == "changed" ==> b.variant == Primary
    ensures StatusRaw(sys) == "draft" ==> b.variant == Warning
    ensures StatusRaw(sys) == "archived" ==> b.variant == Secondary
    ensures StatusRaw(sys) !in {"published", "changed", "draft", "archived"} ==> b.variant == Default
  {
    var raw := StatusRaw(sys);
    Badge(Capitalize(raw), VariantOf(raw))
  }

  /** The badge text loses nothing of a lower-case raw status: lowering it
      gives the status back, so the caption and the colour name the same status. */
  lemma StatusCaptionRoundTrip(sys: EntrySys)
    requires Lower(StatusRaw(sys)) == StatusRaw(sys)
    ensures Lower(Status(sys).caption) == StatusRaw(sys)
  {
    CapitalizeRoundTrip(StatusRaw(sys));
  }

  /** An archived entry shows "Archived" whatever its field status; an entry
      with no field status shows "Draft". */
  lemma StatusExamples(id: string, ct: string, statuses: map<string, map<string, string>>)
    ensures Status(EntrySys(id, ct, Some("2024-01-01"), statuses)) == Badge("Archived", Secondary)
    ensures Status(EntrySys(id, ct, None, map[])) == Badge("Draft", Warning)
  {
    assert Capitalize("archived") == "Archived";
    assert Capitalize("draft") == "Draft";
  }
}
