/**
 * Building a book's highlights from its tagged items: the Highlight record
 * (export.py:22-25) and get_highlights (export.py:62-98).
 */
module Extraction {
  import opened Wrappers
  import opened Seqs
  import opened Store

  /**
   * A highlight: its quoted text, or an image snapshot. `Null` in `snapshot`
   * stands for Python's `None`, which is also what an SQL NULL cell reads as.
   */
  datatype Highlight = Highlight(text: Option<string>, snapshot: Value)

  /**
   * What `json.loads(val)['text']` yields on a quotation value: `Malformed`
   * when the call raises (invalid JSON, not an object, no `text` key), else
   * the `text` field, a JSON string or `null`.
   */
  datatype Quotation = Malformed | Quoted(text: Option<string>)

  /** The JSON decoder the exporter calls; it is a parameter of the model. */
  type Decoder = Value -> Quotation

  /** What aborts the export run. */
  datatype Error =
    | MalformedQuotation(itemId: int)    // json.loads or the `text` lookup raised
    | UnrenderableSnapshot(snapshot: Value)  // base64 of something that is not bytes

  /** The quotation text that marks an image highlight. */
  const SnapshotMarker := "Snapshot"

  /**
   * What one selected item contributes: no highlight, one highlight, or the
   * error that aborts the run. Only the first row of each tag is read.
   */
  function HighlightOf(db: Db, itemId: int, decode: Decoder): Result<Option<Highlight>, Error>
  {
    var quotation := FirstTagValue(db, itemId, QuotationTag);
    if quotation.None? then Success(None)
    else
      var o := decode(quotation.value);
      if o.Malformed? then Failure(MalformedQuotation(itemId))
      else if o.text == Some(SnapshotMarker) then
        var image := FirstTagValue(db, itemId, ImageTag);
        if image.None? then Success(None)
        else Success(Some(Highlight(None, image.value)))
      else
        Success(Some(Highlight(o.text, Null)))
  }

  /**
   * What an item contributes, by the full result of each tag query: no
   * quotation row gives nothing; a malformed first quotation aborts; a first
   * quotation whose text is not exactly "Snapshot" gives a text highlight
   * without image; "Snapshot" gives an image highlight holding the first
   * `bm.image` value, or nothing when the item has no image.
   */
  lemma ItemContribution(db: Db, itemId: int, decode: Decoder)
    ensures TagValues(db, itemId, QuotationTag) == [] ==> HighlightOf(db, itemId, decode) == Success(None)
    ensures TagValues(db, itemId, QuotationTag) != [] ==>
      var q := decode(TagValues(db, itemId, QuotationTag)[0]);
      var r := HighlightOf(db, itemId, decode);
      && (q.Malformed? <==> r.Failure?)
      && (q.Quoted? && q.text != Some(SnapshotMarker) ==> r == Success(Some(Highlight(q.text, Null))))
      && (q == Quoted(Some(SnapshotMarker)) ==>
            r == if TagValues(db, itemId, ImageTag) == [] then Success(None)
                 else Success(Some(Highlight(None, TagValues(db, itemId, ImageTag)[0]))))
  {
  }

  /** The highlights one item appends, branch by branch as `HighlightOf` takes them. */
  lemma KeptOfItem(db: Db, itemId: int, decode: Decoder)
    ensures var quotation := FirstTagValue(db, itemId, QuotationTag);
      var r := HighlightOf(db, itemId, decode);
      && (r.Failure? <==> quotation.Some? && decode(quotation.value).Malformed?)
      && (quotation.None? ==> r == Success(None))
      && (quotation.Some? && decode(quotation.value).Quoted? ==>
            var o := decode(quotation.value);
            var image := FirstTagValue(db, itemId, ImageTag);
            Kept(r.value) == if o.text != Some(SnapshotMarker) then [Highlight(o.text, Null)]
                             else if image.None? then [] else [Highlight(None, image.value)])
  {
  }

  /** At most one highlight: the one an item yields, as a sequence. */
  function Kept(h: Option<Highlight>): (r: seq<Highlight>)
    ensures |r| <= 1
  {
    if h.Some? then [h.value] else []
  }

  /** The outcome of every item, in item order. */
  function Outcomes(db: Db, ids: seq<int>, decode: Decoder): (r: seq<Result<Option<Highlight>, Error>>)
    ensures |r| == |ids|
    ensures forall k :: 0 <= k < |ids| ==> r[k] == HighlightOf(db, ids[k], decode)
  {
    if ids == [] then [] else [HighlightOf(db, ids[0], decode)] + Outcomes(db, ids[1..], decode)
  }

  /** Gathers the outcomes in order, appending what each yields; the first error aborts. */
  function Gather(outs: seq<Result<Option<Highlight>, Error>>): (r: Result<seq<Highlight>, Error>)
    ensures r.Success? ==> |r.value| <= |outs|
  {
    if outs == [] then Success([])
    else if outs[0].Failure? then Failure(outs[0].error)
    else
      var rest := Gather(outs[1..]);
      if rest.Failure? then rest else Success(Kept(outs[0].value) + rest.value)
  }

  /** The highlights of a list of item ids, in id order; the first error aborts. */
  function HighlightsOf(db: Db, ids: seq<int>, decode: Decoder): Result<seq<Highlight>, Error>
  {
    Gather(Outcomes(db, ids, decode))
  }

  /** An error in the earlier run is the error of the whole. */
  lemma {:induction false} GatherAppendLeftError(a: seq<Result<Option<Highlight>, Error>>, b: seq<Result<Option<Highlight>, Error>>)
    requires Gather(a).Failure?
    ensures Gather(a + b) == Gather(a)
  {
    assert (a + b)[0] == a[0];
    if a[0].Success? {
      assert (a + b)[1..] == a[1..] + b;
      GatherAppendLeftError(a[1..], b);
    }
  }

  /** After a successful earlier run, an error in the later run is the error of the whole. */
  lemma {:induction false} GatherAppendRightError(a: seq<Result<Option<Highlight>, Error>>, b: seq<Result<Option<Highlight>, Error>>)
    requires Gather(a).Success? && Gather(b).Failure?
    ensures Gather(a + b) == Gather(b)
  {
    if a == [] {
      assert a + b == b;
    } else {
      assert (a + b)[0] == a[0];
      assert (a + b)[1..] == a[1..] + b;
      GatherAppendRightError(a[1..], b);
    }
  }

  /** Two successful runs gather to the concatenation of their highlights. */
  lemma {:induction false} GatherAppendBoth(a: seq<Result<Option<Highlight>, Error>>, b: seq<Result<Option<Highlight>, Error>>)
    requires Gather(a).Success? && Gather(b).Success?
    ensures Gather(a + b) == Success(Gather(a).value + Gather(b).value)
  {
    if a == [] {
      assert a + b == b;
      assert Gather(a).value + Gather(b).value == Gather(b).value;
    } else {
      var x, rest := a[0], a[1..];
      assert a == [x] + rest;
      assert x.Success? && Gather(rest).Success?;
      GatherAppendBoth(rest, b);
      GatherConsAppend(x, rest, b);
      assert a + b == [x] + rest + b;
    }
  }

  /** The step of `GatherAppendBoth`: a successful outcome goes in front of both runs. */
  lemma GatherConsAppend(x: Result<Option<Highlight>, Error>, rest: seq<Result<Option<Highlight>, Error>>, b: seq<Result<Option<Highlight>, Error>>)
    requires x.Success? && Gather(rest).Success? && Gather(b).Success?
    requires Gather(rest + b) == Success(Gather(rest).value + Gather(b).value)
    ensures Gather([x] + rest).Success?
    ensures Gather([x] + rest + b) == Success(Gather([x] + rest).value + Gather(b).value)
  {
    var kept, ra, rb := Kept(x.value), Gather(rest).value, Gather(b).value;
    assert Gather([x] + rest) == Success(kept + ra) by {
      GatherCons(x, rest);
    }
    assert Gather([x] + rest + b) == Success(kept + (ra + rb)) by {
      GatherCons(x, rest + b);
      ConcatAssoc([x], rest, b);
    }
    ConcatAssoc(kept, ra, rb);
  }

  /** A successful outcome in front of a successful run puts what it yields in front. */
  lemma GatherCons(x: Result<Option<Highlight>, Error>, rest: seq<Result<Option<Highlight>, Error>>)
    requires x.Success?
    ensures Gather([x] + rest) == if Gather(rest).Failure? then Gather(rest) else Success(Kept(x.value) + Gather(rest).value)
  {
    assert ([x] + rest)[0] == x;
    assert ([x] + rest)[1..] == rest;
  }

  /**
   * Gathering consecutive runs concatenates: every outcome contributes in
   * place, and an error in the earlier run wins.
   */
  lemma GatherAppend(a: seq<Result<Option<Highlight>, Error>>, b: seq<Result<Option<Highlight>, Error>>)
    ensures Gather(a + b).Success? <==> Gather(a).Success? && Gather(b).Success?
    ensures Gather(a).Failure? ==> Gather(a + b) == Gather(a)
    ensures Gather(a).Success? && Gather(b).Failure? ==> Gather(a + b) == Gather(b)
    ensures Gather(a).Success? && Gather(b).Success? ==>
      Gather(a + b).value == Gather(a).value + Gather(b).value
  {
    if Gather(a).Failure? {
      GatherAppendLeftError(a, b);
    } else if Gather(b).Failure? {
      GatherAppendRightError(a, b);
    } else {
      GatherAppendBoth(a, b);
    }
  }

  /** Gathering succeeds exactly when no outcome is an error. */
  lemma {:induction false} GatherSucceeds(outs: seq<Result<Option<Highlight>, Error>>)
    ensures Gather(outs).Success? <==> forall k :: 0 <= k < |outs| ==> outs[k].Success?
  {
    if outs != [] {
      GatherSucceeds(outs[1..]);
      assert forall k :: 0 < k < |outs| ==> outs[k] == outs[1..][k - 1];
    }
  }

  /** The error reported is the one of the first failing outcome. */
  lemma {:induction false} GatherFirstError(outs: seq<Result<Option<Highlight>, Error>>, k: nat)
    requires k < |outs| && outs[k].Failure?
    requires forall j :: 0 <= j < k ==> outs[j].Success?
    ensures Gather(outs) == Failure(outs[k].error)
  {
    if k > 0 {
      assert forall j :: 0 <= j < k - 1 ==> outs[1..][j] == outs[j + 1];
      GatherFirstError(outs[1..], k - 1);
    }
  }

  /** Every gathered highlight was yielded by some outcome, and every yielded one is gathered. */
  lemma {:induction false} GatherProvenance(outs: seq<Result<Option<Highlight>, Error>>, h: Highlight)
    requires Gather(outs).Success?
    ensures h in Gather(outs).value <==> Success(Some(h)) in outs
  {
    if outs != [] {
      GatherProvenance(outs[1..], h);
      assert outs == [outs[0]] + outs[1..];
    }
  }

  /** One more successful outcome appends what it yields. */
  lemma GatherStep(outs: seq<Result<Option<Highlight>, Error>>, i: nat)
    requires i < |outs| && Gather(outs[..i]).Success? && outs[i].Success?
    ensures Gather(outs[..i + 1]) == Success(Gather(outs[..i]).value + Kept(outs[i].value))
  {
    assert outs[..i + 1] == outs[..i] + [outs[i]];
    GatherAppend(outs[..i], [outs[i]]);
    assert [outs[i]][1..] == [];
    assert Kept(outs[i].value) + [] == Kept(outs[i].value);
  }

  /** A failing outcome after a successful prefix is the error of the whole run. */
  lemma GatherStop(outs: seq<Result<Option<Highlight>, Error>>, i: nat)
    requires i < |outs| && Gather(outs[..i]).Success? && outs[i].Failure?
    ensures Gather(outs) == Failure(outs[i].error)
  {
    assert outs == outs[..i] + outs[i..];
    assert outs[i..][0] == outs[i];
    GatherAppend(outs[..i], outs[i..]);
  }

  lemma {:induction false} OutcomesAppend(db: Db, a: seq<int>, b: seq<int>, decode: Decoder)
    ensures Outcomes(db, a + b, decode) == Outcomes(db, a, decode) + Outcomes(db, b, decode)
  {
    var l, r := Outcomes(db, a + b, decode), Outcomes(db, a, decode) + Outcomes(db, b, decode);
    assert |l| == |r|;
    forall k | 0 <= k < |l| ensures l[k] == r[k] {
      if k >= |a| {
        assert (a + b)[k] == b[k - |a|];
      }
    }
  }

  /**
   * get_highlights keeps item order and yields at most one highlight per
   * item: the highlights of two consecutive runs of items are those of the
   * first run followed by those of the second.
   */
  lemma HighlightsAppend(db: Db, a: seq<int>, b: seq<int>, decode: Decoder)
    ensures HighlightsOf(db, a + b, decode).Success? <==>
      HighlightsOf(db, a, decode).Success? && HighlightsOf(db, b, decode).Success?
    ensures HighlightsOf(db, a, decode).Failure? ==>
      HighlightsOf(db, a + b, decode) == HighlightsOf(db, a, decode)
    ensures HighlightsOf(db, a, decode).Success? && HighlightsOf(db, b, decode).Success? ==>
      HighlightsOf(db, a + b, decode).value == HighlightsOf(db, a, decode).value + HighlightsOf(db, b, decode).value
  {
    OutcomesAppend(db, a, b, decode);
    GatherAppend(Outcomes(db, a, decode), Outcomes(db, b, decode));
  }

  /**
   * Each item contributes in place: in a successful run, the highlights are
   * those of the items before it, then the at most one highlight of the item
   * itself, then those of the items after it.
   */
  lemma HighlightsOneItem(db: Db, a: seq<int>, x: int, b: seq<int>, decode: Decoder)
    requires HighlightsOf(db, a + [x] + b, decode).Success?
    ensures HighlightsOf(db, a, decode).Success? && HighlightOf(db, x, decode).Success? && HighlightsOf(db, b, decode).Success?
    ensures HighlightsOf(db, a + [x] + b, decode).value ==
      HighlightsOf(db, a, decode).value + Kept(HighlightOf(db, x, decode).value) + HighlightsOf(db, b, decode).value
  {
    HighlightsAppend(db, a + [x], b, decode);
    HighlightsAppend(db, a, [x], decode);
    var o := HighlightOf(db, x, decode);
    assert Outcomes(db, [x], decode) == [o] + [];
    GatherCons(o, []);
    assert Kept(o.value) + [] == Kept(o.value);
  }

  /** The run fails exactly when some item's first quotation is malformed. */
  lemma HighlightsSucceed(db: Db, ids: seq<int>, decode: Decoder)
    ensures HighlightsOf(db, ids, decode).Success? <==>
      forall k :: 0 <= k < |ids| ==> HighlightOf(db, ids[k], decode).Success?
  {
    GatherSucceeds(Outcomes(db, ids, decode));
  }

  /** A failing run reports the first item whose quotation is malformed. */
  lemma HighlightsFirstError(db: Db, ids: seq<int>, decode: Decoder, k: nat)
    requires k < |ids| && HighlightOf(db, ids[k], decode).Failure?
    requires forall j :: 0 <= j < k ==> HighlightOf(db, ids[j], decode).Success?
    ensures HighlightsOf(db, ids, decode) == Failure(MalformedQuotation(ids[k]))
  {
    GatherFirstError(Outcomes(db, ids, decode), k);
  }

  /**
   * Every highlight of the result was yielded by one of the items, and every
   * highlight an item yields is in the result.
   */
  lemma HighlightsProvenance(db: Db, ids: seq<int>, decode: Decoder, h: Highlight)
    requires HighlightsOf(db, ids, decode).Success?
    ensures h in HighlightsOf(db, ids, decode).value <==>
      exists k :: 0 <= k < |ids| && HighlightOf(db, ids[k], decode) == Success(Some(h))
  {
    var outs := Outcomes(db, ids, decode);
    GatherProvenance(outs, h);
    if Success(Some(h)) in outs {
      var k :| 0 <= k < |outs| && outs[k] == Success(Some(h));
      assert HighlightOf(db, ids[k], decode) == Success(Some(h));
    }
  }

  /**
   * get_highlights: walk the book's item ids and append what each item
   * yields; a malformed quotation raises out of the whole call.
   */
  method GetHighlights(db: Db, bookOid: int, decode: Decoder) returns (r: Result<seq<Highlight>, Error>)
    ensures r == HighlightsOf(db, ItemIds(db, bookOid), decode)
  {
    var highlights: seq<Highlight> := [];
    var itemIds := ItemIds(db, bookOid);
    ghost var outs := Outcomes(db, itemIds, decode);
    var i := 0;
    while i < |itemIds|
      invariant 0 <= i <= |itemIds|
      invariant Gather(outs[..i]) == Success(highlights)
    {
      var itemId := itemIds[i];
      assert outs[i] == HighlightOf(db, itemId, decode);
      KeptOfItem(db, itemId, decode);
      var found: seq<Highlight> := [];
      var quotation := FirstTagValue(db, itemId, QuotationTag);
      if quotation.Some? {
        var o := decode(quotation.value);
        if o.Malformed? {
          GatherStop(outs, i);
          return Failure(MalformedQuotation(itemId));
        }
        if o.text == Some(SnapshotMarker) {
          var image := FirstTagValue(db, itemId, ImageTag);
          if image.Some? {
            found := [Highlight(None, image.value)];
          }
        } else {
          found := [Highlight(o.text, Null)];
        }
      }
      assert found == Kept(outs[i].value);
      highlights := highlights + found;
      GatherStep(outs, i);
      i := i + 1;
    }
    assert outs[..i] == outs;
    r := Success(highlights);
  }
}
