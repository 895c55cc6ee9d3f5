/** The two existence-probe detectors: unused content types
    (`generateUnusedContentTypesReport`) and unused assets
    (`generateMediaReport`). Each walks a fetched list in order and issues one
    `limit=1` entries query per item, awaiting each before the next. The
    platform's answers are parameters: a listing and a `probe` from item id
    to reply. */
module Probes {
  import opened Wrappers
  import opened Seqs
  import opened Content

  /** What one `limit=1` entries query answered: a response whose `items` has
      `count` elements, a response without `items`, or a rejected request. */
  datatype ProbeReply = Items(count: nat) | NoItemsField | ProbeFailed

  /** What a listing request answered, in the same three shapes. */
  datatype Listing<T> = Listed(items: seq<T>) | NoItems | ListFailed

  /** How a detector reads one probe reply. `Aborts` means the reply makes the
      loop throw, so no later item is probed. */
  datatype Verdict = Unused | Used | Aborts

  /** The outcome of a probe loop: the items kept as unused, the ids probed in
      order, and whether the loop was cut short by a throw. */
  datatype Scan<T> = Scan(kept: seq<T>, probed: seq<string>, aborted: bool)

  /** The shared probe loop: probe each item in list order, keep those whose
      reply reads as unused, stop at the first reply that throws. */
  function ProbeScan<T>(items: seq<T>, idOf: T -> string, probe: string -> ProbeReply,
                        verdict: ProbeReply -> Verdict): (s: Scan<T>)
    ensures |s.probed| <= |items|
    ensures s.aborted ==> |s.probed| > 0 && verdict(probe(s.probed[|s.probed| - 1])) == Aborts
    ensures !s.aborted ==> |s.probed| == |items|
  {
    if |items| == 0 then Scan([], [], false)
    else
      var id := idOf(items[0]);
      var v := verdict(probe(id));
      if v == Aborts then Scan([], [id], true)
      else
        var rest := ProbeScan(items[1..], idOf, probe, verdict);
        var kept := if v == Unused then [items[0]] + rest.kept else rest.kept;
        Scan(kept, [id] + rest.probed, rest.aborted)
  }

  /** The ids probed are those of a prefix of the list, in list order. */
  lemma {:induction false} ProbeScanIds<T>(items: seq<T>, idOf: T -> string, probe: string -> ProbeReply,
                                           verdict: ProbeReply -> Verdict)
    ensures var s := ProbeScan(items, idOf, probe, verdict);
      forall k :: 0 <= k < |s.probed| ==> s.probed[k] == idOf(items[k])
  {
    if |items| > 0 && verdict(probe(idOf(items[0]))) != Aborts {
      ProbeScanIds(items[1..], idOf, probe, verdict);
      var rest := ProbeScan(items[1..], idOf, probe, verdict).probed;
      var probed := ProbeScan(items, idOf, probe, verdict).probed;
      assert probed == [idOf(items[0])] + rest;
      forall k | 1 <= k < |probed|
        ensures probed[k] == idOf(items[k])
      {
        assert probed[k] == rest[k - 1] && items[k] == items[1..][k - 1];
      }
    }
  }

  /** Every item probed before the last one got a reply that does not throw. */
  lemma {:induction false} ProbeScanNoEarlyThrow<T>(items: seq<T>, idOf: T -> string, probe: string -> ProbeReply,
                                                    verdict: ProbeReply -> Verdict)
    ensures forall k :: 0 <= k < |ProbeScan(items, idOf, probe, verdict).probed| - 1 ==>
      verdict(probe(idOf(items[k]))) != Aborts
  {
    if |items| > 0 && verdict(probe(idOf(items[0]))) != Aborts {
      ProbeScanNoEarlyThrow(items[1..], idOf, probe, verdict);
      var n := |ProbeScan(items[1..], idOf, probe, verdict).probed|;
      assert |ProbeScan(items, idOf, probe, verdict).probed| == n + 1;
      forall k | 1 <= k < n
        ensures verdict(probe(idOf(items[k]))) != Aborts
      {
        assert items[k] == items[1..][k - 1];
      }
    }
  }

  /** The scan is cut short exactly when some item's reply throws. */
  lemma {:induction false} ProbeScanAborts<T>(items: seq<T>, idOf: T -> string, probe: string -> ProbeReply,
                                              verdict: ProbeReply -> Verdict)
    ensures ProbeScan(items, idOf, probe, verdict).aborted <==>
      exists k :: 0 <= k < |items| && verdict(probe(idOf(items[k]))) == Aborts
  {
    if |items| > 0 && verdict(probe(idOf(items[0]))) != Aborts {
      ProbeScanAborts(items[1..], idOf, probe, verdict);
      if exists k :: 0 <= k < |items| && verdict(probe(idOf(items[k]))) == Aborts {
        var k :| 0 <= k < |items| && verdict(probe(idOf(items[k]))) == Aborts;
        assert k > 0 && items[k] == items[1..][k - 1];
      }
      if ProbeScan(items[1..], idOf, probe, verdict).aborted {
        var j :| 0 <= j < |items[1..]| && verdict(probe(idOf(items[1..][j]))) == Aborts;
        assert items[1..][j] == items[j + 1];
      }
    }
  }

  /** A scan that completes keeps a subsequence of the list. */
  lemma {:induction false} ProbeScanOrder<T>(items: seq<T>, idOf: T -> string, probe: string -> ProbeReply,
                                             verdict: ProbeReply -> Verdict)
    ensures var s := ProbeScan(items, idOf, probe, verdict);
      !s.aborted ==> IsSubseq(s.kept, items)
  {
    if |items| > 0 && verdict(probe(idOf(items[0]))) != Aborts {
      ProbeScanOrder(items[1..], idOf, probe, verdict);
      var rest := ProbeScan(items[1..], idOf, probe, verdict);
      var s := ProbeScan(items, idOf, probe, verdict);
      if verdict(probe(idOf(items[0]))) == Unused && !rest.aborted {
        assert s.kept[1..] == rest.kept;
      }
    }
  }

  /** A scan that completes keeps exactly the items whose reply reads as unused. */
  lemma {:induction false} ProbeScanKept<T(!new)>(items: seq<T>, idOf: T -> string, probe: string -> ProbeReply,
                                                  verdict: ProbeReply -> Verdict)
    ensures var s := ProbeScan(items, idOf, probe, verdict);
      !s.aborted ==> forall x :: x in s.kept <==> x in items && verdict(probe(idOf(x))) == Unused
  {
    if |items| > 0 && verdict(probe(idOf(items[0]))) != Aborts {
      ProbeScanKept(items[1..], idOf, probe, verdict);
      assert items == [items[0]] + items[1..];
    }
  }

  /** `entries.items.length === 0` decides "unused"; a reply without `items`
      throws a TypeError, as does a rejected request. */
  function TypeVerdict(reply: ProbeReply): Verdict
  {
    match reply
    case Items(n) => if n == 0 then Unused else Used
    case NoItemsField => Aborts
    case ProbeFailed => Aborts
  }

  /** `usageData.items?.length > 0` decides "used": a reply without `items`
      reads as unused; only a rejected request throws. */
  function MediaVerdict(reply: ProbeReply): Verdict
  {
    match reply
    case Items(n) => if n == 0 then Unused else Used
    case NoItemsField => Unused
    case ProbeFailed => Aborts
  }

  function ThrownBy(reply: ProbeReply): Thrown
  {
    if reply.ProbeFailed? then RemoteError else TypeError
  }

  /** `generateUnusedContentTypesReport`: the content types whose scoped probe
      finds no entry, in listing order. Nothing is caught here: a failed
      listing, a failed probe or a malformed reply reaches the caller. */
  function UnusedContentTypes(listing: Listing<ContentType>, probe: string -> ProbeReply): (r: Result<seq<ContentType>>)
    ensures listing.ListFailed? ==> r == Err(RemoteError)
    ensures listing.NoItems? ==> r == Err(TypeError)
    ensures listing.Listed? ==>
      (r.Ok? <==> forall ct :: ct in listing.items ==> probe(ct.id).Items?)
    ensures r.Ok? ==> listing.Listed? && IsSubseq(r.value, listing.items) && |r.value| <= |listing.items|
    ensures r.Ok? ==> forall ct :: ct in r.value <==> ct in listing.items && probe(ct.id) == Items(0)
  {
    match listing
    case ListFailed => Err(RemoteError)
    case NoItems => Err(TypeError)
    case Listed(types) =>
      var s := ProbeScan(types, ContentTypeId, probe, TypeVerdict);
      ProbeScanOrder(types, ContentTypeId, probe, TypeVerdict);
      ProbeScanKept(types, ContentTypeId, probe, TypeVerdict);
      TypeScanAborts(types, probe);
      if s.aborted then Err(ThrownBy(probe(s.probed[|s.probed| - 1])))
      else
        SubseqLength(s.kept, types);
        Ok(s.kept)
  }

  lemma TypeScanAborts(types: seq<ContentType>, probe: string -> ProbeReply)
    ensures ProbeScan(types, ContentTypeId, probe, TypeVerdict).aborted <==>
            exists ct :: ct in types && !probe(ct.id).Items?
  {
    ProbeScanAborts(types, ContentTypeId, probe, TypeVerdict);
    if ProbeScan(types, ContentTypeId, probe, TypeVerdict).aborted {
      var k :| 0 <= k < |types| && TypeVerdict(probe(ContentTypeId(types[k]))) == Aborts;
      assert types[k] in types;
    }
    if exists ct :: ct in types && !probe(ct.id).Items? {
      var ct :| ct in types && !probe(ct.id).Items?;
      var k :| 0 <= k < |types| && types[k] == ct;
      assert TypeVerdict(probe(ContentTypeId(types[k]))) == Aborts;
    }
  }

  /** The calls `generateMediaReport` makes on its two callbacks, in order. */
  datatype MediaEffect = SetUnusedAssets(assets: seq<Asset>) | SetHasGenerated(generated: bool)

  /** The probe reply reads as "no entry links to this asset". */
  predicate UnlinkedReply(reply: ProbeReply)
  {
    reply == Items(0) || reply == NoItemsField
  }

  /** The list `generateMediaReport` hands to `setUnusedAssets`: the unused
      assets when the try block completes, `[]` when anything in it throws. */
  function PublishedAssets(listing: Listing<Asset>, probe: string -> ProbeReply): (published: seq<Asset>)
    ensures !listing.Listed? ==> published == []
    ensures listing.Listed? && (exists a :: a in listing.items && probe(a.id) == ProbeFailed) ==>
      published == []
    ensures listing.Listed? && (forall a :: a in listing.items ==> probe(a.id) != ProbeFailed) ==>
      && IsSubseq(published, listing.items)
      && forall a :: a in published <==> a in listing.items && UnlinkedReply(probe(a.id))
  {
    match listing
    case Listed(assets) =>
      var s := ProbeScan(assets, AssetId, probe, MediaVerdict);
      MediaScanAborts(assets, probe);
      ProbeScanOrder(assets, AssetId, probe, MediaVerdict);
      ProbeScanKept(assets, AssetId, probe, MediaVerdict);
      if s.aborted then [] else s.kept
    case _ => []
  }

  lemma MediaScanAborts(assets: seq<Asset>, probe: string -> ProbeReply)
    ensures ProbeScan(assets, AssetId, probe, MediaVerdict).aborted <==>
            exists a :: a in assets && probe(a.id) == ProbeFailed
  {
    ProbeScanAborts(assets, AssetId, probe, MediaVerdict);
    if ProbeScan(assets, AssetId, probe, MediaVerdict).aborted {
      var k :| 0 <= k < |assets| && MediaVerdict(probe(AssetId(assets[k]))) == Aborts;
      assert assets[k] in assets;
    }
    if exists a :: a in assets && probe(a.id) == ProbeFailed {
      var a :| a in assets && probe(a.id) == ProbeFailed;
      var k :| 0 <= k < |assets| && assets[k] == a;
      assert MediaVerdict(probe(AssetId(assets[k]))) == Aborts;
    }
  }

  /** `generateMediaReport`: `setUnusedAssets` is called exactly once, with
      the full result or with `[]`, so a partial result is never published;
      `setHasGenerated(true)` follows on every path. */
  function MediaReport(listing: Listing<Asset>, probe: string -> ProbeReply): (effects: seq<MediaEffect>)
    ensures |effects| == 2 && effects[0].SetUnusedAssets? && effects[1] == SetHasGenerated(true)
    ensures !listing.Listed? ==> effects[0].assets == []
    ensures listing.Listed? && (exists a :: a in listing.items && probe(a.id) == ProbeFailed) ==>
      effects[0].assets == []
    ensures listing.Listed? && (forall a :: a in listing.items ==> probe(a.id) != ProbeFailed) ==>
      && IsSubseq(effects[0].assets, listing.items)
      && forall a :: a in effects[0].assets <==> a in listing.items && UnlinkedReply(probe(a.id))
  {
    [SetUnusedAssets(PublishedAssets(listing, probe)), SetHasGenerated(true)]
  }

  /** Scenario: of two content types, only the one whose probe finds nothing is reported. */
  lemma ContentTypeExample(probe: string -> ProbeReply)
    requires probe("ct1") == Items(0) && probe("ct2") == Items(1)
    ensures UnusedContentTypes(Listed([ContentType("ct1"), ContentType("ct2")]), probe) == Ok([ContentType("ct1")])
  {
    var types := [ContentType("ct1"), ContentType("ct2")];
    var r := UnusedContentTypes(Listed(types), probe);
    assert forall ct :: ct in types ==> probe(ct.id).Items?;
    assert ContentType("ct1") in r.value && ContentType("ct2") !in r.value;
    OnlyFirstOfPair(r.value, ContentType("ct1"), ContentType("ct2"));
  }

  /** Scenario: of two assets, only the one no entry links to is reported. */
  lemma MediaExample(probe: string -> ProbeReply)
    requires probe("asset1") == Items(0) && probe("asset2") == Items(1)
    ensures MediaReport(Listed([Asset("asset1"), Asset("asset2")]), probe) ==
      [SetUnusedAssets([Asset("asset1")]), SetHasGenerated(true)]
  {
    var assets := [Asset("asset1"), Asset("asset2")];
    var published := PublishedAssets(Listed(assets), probe);
    assert forall a :: a in assets ==> probe(a.id) != ProbeFailed;
    assert Asset("asset1") in published && Asset("asset2") !in published;
    OnlyFirstOfPair(published, Asset("asset1"), Asset("asset2"));
  }
}
