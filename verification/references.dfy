/** `fetchUnusedEntries` once the entry batch has been fetched: the one-hop
    reference set of a batch of entries and the unused-entry classifier. */
module References {
  import opened Wrappers
  import opened JsValues
  import opened Seqs
  import opened Text
  import opened Content

  /** The id `v` points at when `v?.sys?.type === 'Link'` and
      `v.sys.linkType === 'Entry'`. A link whose `sys.id` is not a string is
      dropped: such a value could never equal a (string) entry id. */
  function EntryLinkTarget(v: Value): Option<string>
  {
    var sys := Get(v, "sys");
    var id := Get(sys, "id");
    if Get(sys, "type") == Str("Link") && Get(sys, "linkType") == Str("Entry") && id.Str?
    then Some(id.s)
    else None
  }

  /** `v` is a locale value that references entry `id`: an entry link itself,
      or an array with an entry link as a direct element. */
  ghost predicate LinksTo(v: Value, id: string)
  {
    if v.Arr? then exists x :: x in v.elems && EntryLinkTarget(x) == Some(id)
    else EntryLinkTarget(v) == Some(id)
  }

  /** Some locale value of some field of `e` references `id`. */
  ghost predicate EntryReferences(e: Entry, id: string)
  {
    exists field, value :: field in Members(e.fields) && value in Members(field) && LinksTo(value, id)
  }

  ghost predicate Referenced(batch: seq<Entry>, id: string)
  {
    exists e :: e in batch && EntryReferences(e, id)
  }

  function LinkIds(v: Value): set<string>
  {
    match EntryLinkTarget(v)
    case Some(id) => {id}
    case None => {}
  }

  /** The ids one locale value adds: lines 22-30. */
  function LocaleValueIds(v: Value): set<string>
  {
    if v.Arr? then UnionOver(v.elems, LinkIds) else LinkIds(v)
  }

  function FieldIds(field: Value): set<string>
  {
    UnionOver(Members(field), LocaleValueIds)
  }

  function EntryIds(e: Entry): set<string>
  {
    UnionOver(Members(e.fields), FieldIds)
  }

  /** `referencedIds` after the scan of lines 13-33: every entry id that some
      entry of the batch links to, directly or as an array element. */
  function ReferenceSet(batch: seq<Entry>): set<string>
  {
    UnionOver(batch, EntryIds)
  }

  /** A locale value adds `id` exactly when it is an entry link to `id` or an
      array holding one as a direct element. */
  lemma LocaleValueIdsMeaning(v: Value, id: string)
    ensures id in LocaleValueIds(v) <==> LinksTo(v, id)
  {
    if v.Arr? {
      UnionOverMeaning(v.elems, LinkIds, id);
      if LinksTo(v, id) {
        var x :| x in v.elems && EntryLinkTarget(x) == Some(id);
        assert id in LinkIds(x);
      }
    }
  }

  /** An entry adds `id` exactly when some locale value of some field links to it. */
  lemma EntryIdsMeaning(e: Entry, id: string)
    ensures id in EntryIds(e) <==> EntryReferences(e, id)
  {
    UnionOverMeaning(Members(e.fields), FieldIds, id);
    forall field | field in Members(e.fields)
      ensures id in FieldIds(field) <==> exists value :: value in Members(field) && LinksTo(value, id)
    {
      UnionOverMeaning(Members(field), LocaleValueIds, id);
      forall value | value in Members(field)
        ensures id in LocaleValueIds(value) <==> LinksTo(value, id)
      {
        LocaleValueIdsMeaning(value, id);
      }
    }
  }

  /** An id is in the reference set exactly when some entry of the batch links to it. */
  lemma ReferenceSetMeaning(batch: seq<Entry>, id: string)
    ensures id in ReferenceSet(batch) <==> Referenced(batch, id)
  {
    UnionOverMeaning(batch, EntryIds, id);
    forall e | e in batch
      ensures id in EntryIds(e) <==> EntryReferences(e, id)
    {
      EntryIdsMeaning(e, id);
    }
  }

  /** The content-type guard: `contentTypeId.toLowerCase().includes('page')`. */
  predicate ExcludedType(contentTypeId: string)
  {
    Contains(Lower(contentTypeId), "page")
  }

  /** The filter test of lines 35-39: the id is not in the reference set and
      the content type is not page-like. */
  predicate IsUnused(batch: seq<Entry>, e: Entry)
  {
    e.sys.id !in ReferenceSet(batch) && !ExcludedType(e.sys.contentType)
  }

  /** Unused means that no entry of the batch links to it and its type is not page-like. */
  lemma UnusedMeansUnreferenced(batch: seq<Entry>, e: Entry)
    ensures IsUnused(batch, e) <==> !Referenced(batch, e.sys.id) && !ExcludedType(e.sys.contentType)
  {
    ReferenceSetMeaning(batch, e.sys.id);
  }

  /** The entries of the batch no entry of the batch links to and whose
      content type is not page-like, in the order they were fetched. */
  function UnusedEntries(batch: seq<Entry>): (r: seq<Entry>)
    ensures |r| <= |batch|
    ensures IsSubseq(r, batch)
    ensures forall e :: e in r <==> e in batch && IsUnused(batch, e)
  {
    var refs := ReferenceSet(batch);
    var keep := (e: Entry) => e.sys.id !in refs && !ExcludedType(e.sys.contentType);
    FilterIsSubseq(batch, keep);
    Filter(batch, keep)
  }

  lemma LinkValueShape(linkType: string, id: string)
    ensures EntryLinkTarget(LinkValue(linkType, id)) == if linkType == "Entry" then Some(id) else None
  {
    var sys := Get(LinkValue(linkType, id), "sys");
    assert sys == Obj([Prop("type", Str("Link")), Prop("linkType", Str(linkType)), Prop("id", Str(id))]);
    assert Get(sys, "type") == Str("Link");
    assert Find(sys.props, "linkType") == Find(sys.props[1..], "linkType") == Str(linkType);
    assert Find(sys.props, "id") == Find(sys.props[1..], "id") == Find(sys.props[2..], "id") == Str(id);
  }

  /** An entry link counts wherever it sits in an array value. */
  lemma ArrayLinkAnyPosition(batch: seq<Entry>, e: Entry, field: Value, value: Value, k: nat, id: string)
    requires e in batch && field in Members(e.fields) && value in Members(field)
    requires value.Arr? && k < |value.elems| && EntryLinkTarget(value.elems[k]) == Some(id)
    ensures id in ReferenceSet(batch)
  {
    assert value.elems[k] in value.elems;
    assert LinksTo(value, id);
    ReferenceSetMeaning(batch, id);
  }

  /** Only direct entry links count: an asset link, and an entry link nested
      one array deeper, reference nothing; null, numbers and strings inside
      an array are skipped without disturbing the links beside them. */
  lemma OnlyDirectEntryLinksCount(id: string)
    ensures LinksTo(LinkValue("Entry", id), id)
    ensures forall x :: !LinksTo(LinkValue("Asset", id), x)
    ensures forall x :: !LinksTo(Arr([Arr([LinkValue("Entry", id)])]), x)
    ensures LinksTo(Arr([Null, Num(7), Str("x"), LinkValue("Entry", id)]), id)
  {
    var link := LinkValue("Entry", id);
    LinkValueShape("Entry", id);
    LinkValueShape("Asset", id);
    assert EntryLinkTarget(Arr([LinkValue("Entry", id)])) == None;
    assert link in [Null, Num(7), Str("x"), link];
  }

  /** An entry without entry links leaves the reference set unchanged. */
  lemma LinklessEntryAddsNothing(batch: seq<Entry>, e: Entry)
    requires forall id :: !EntryReferences(e, id)
    ensures ReferenceSet(batch + [e]) == ReferenceSet(batch)
  {
    UnionOverAppend(batch, e, EntryIds);
    forall id
      ensures id !in EntryIds(e)
    {
      EntryIdsMeaning(e, id);
    }
  }

  /** An entry that links to itself is referenced, so never reported unused. */
  lemma SelfLinkedIsUsed(batch: seq<Entry>, e: Entry)
    requires e in batch && EntryReferences(e, e.sys.id)
    ensures e !in UnusedEntries(batch)
  {
    ReferenceSetMeaning(batch, e.sys.id);
  }

  /** B links to A, nothing links to B: A is used and B is the one unused
      entry, although the only entry referencing A is itself unused. */
  lemma OneHopExample(a: Entry, b: Entry)
    requires a == Entry(EntrySys("A", "article", None, map[]), Obj([]))
    requires b == Entry(EntrySys("B", "article", None, map[]),
                        Obj([Prop("link", Obj([Prop("en-US", LinkValue("Entry", "A"))]))]))
    ensures UnusedEntries([a, b]) == [b]
  {
    NoFieldsNoIds(a);
    OneLinkIds(b, "link", "A");
    PairReferences(a, b, "A");
    NotPageLike("article");
    OnlySecondUnused(a, b);
  }

  /** Of two entries of ordinary types, when only the first is referenced,
      the report is the second alone. */
  lemma OnlySecondUnused(a: Entry, b: Entry)
    requires a.sys.id in ReferenceSet([a, b]) && b.sys.id !in ReferenceSet([a, b])
    requires !ExcludedType(a.sys.contentType) && !ExcludedType(b.sys.contentType)
    ensures UnusedEntries([a, b]) == [b]
  {
    var r := UnusedEntries([a, b]);
    assert a !in r && b in r;
    OnlySecondSurvives(r, a, b);
  }

  lemma OnlySecondSurvives<T>(r: seq<T>, x: T, y: T)
    requires IsSubseq(r, [x, y]) && x !in r && y in r
    ensures r == [y]
  {
    assert [x, y][1..] == [y] && [y][1..] == [];
    assert |r| > 0 && r[0] in r;
    assert r[0] != x;
    assert IsSubseq(r, [y]);
    assert !IsSubseq(r, []);
    assert r[0] == y && IsSubseq(r[1..], []);
    assert |r[1..]| == 0;
  }

  /** The reference set of two entries is the union of their ids. */
  lemma PairReferences(a: Entry, b: Entry, id: string)
    requires EntryIds(a) == {} && EntryIds(b) == {id}
    ensures ReferenceSet([a, b]) == {id}
  {
    UnionOverAppend([a], b, EntryIds);
    UnionOverAppend([], a, EntryIds);
    assert [] + [a] == [a];
    assert [a] + [b] == [a, b];
  }

  lemma NoFieldsNoIds(e: Entry)
    requires e.fields == Obj([])
    ensures EntryIds(e) == {}
  {
    assert Members(e.fields) == [];
  }

  lemma OneLinkIds(e: Entry, name: string, id: string)
    requires e.fields == Obj([Prop(name, Obj([Prop("en-US", LinkValue("Entry", id))]))])
    ensures EntryIds(e) == {id}
  {
    var link := LinkValue("Entry", id);
    var field := Obj([Prop("en-US", link)]);
    LinkValueShape("Entry", id);
    assert Members(e.fields) == [field];
    assert Members(field) == [link];
    UnionOverSingle(link, LocaleValueIds);
    UnionOverSingle(field, FieldIds);
  }

  /** An unreferenced entry of a page-like type ("LandingPage") is not reported. */
  lemma PageTypeExample()
    ensures UnusedEntries([Entry(EntrySys("C", "LandingPage", None, map[]), Obj([]))]) == []
  {
    var c := Entry(EntrySys("C", "LandingPage", None, map[]), Obj([]));
    assert Lower("LandingPage") == "landingpage";
    assert OccursAt("landingpage", "page", 7) by {
      assert "landingpage"[7..11] == "page";
    }
    assert ExcludedType("LandingPage");
    assert c !in UnusedEntries([c]);
  }

  lemma NotPageLike(s: string)
    requires s == "article"
    ensures !ExcludedType(s)
  {
    assert Lower(s) == "article";
    forall i
      ensures !OccursAt("article", "page", i)
    {
      if 0 <= i && i + 4 <= 7 {
        assert "article"[i..i + 4][0] == "article"[i];
        assert i == 0 || i == 1 || i == 2 || i == 3;
      }
    }
  }
}
