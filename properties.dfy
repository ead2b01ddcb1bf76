/**
 * What the whole run promises about the report, from the database down to
 * the list items (export.py:62-134).
 */
module ReportProperties {
  import opened Wrappers
  import opened Store
  import opened Extraction
  import opened Aggregation
  import opened Rendering

  /** The highlights get_highlights yields for the book in row `i`. */
  function BookHighlights(db: Db, i: nat, decode: Decoder): Result<seq<Highlight>, Error>
    requires i < |db.books|
  {
    HighlightsOf(db, ItemIds(db, db.books[i].oid), decode)
  }

  /**
   * A finished report has one section per book row, in row order, titled by
   * the book, with one list item per highlight of that book alone; a book
   * without highlights still gets its (empty) section.
   */
  lemma ReportSections(db: Db, decode: Decoder)
    ensures Report(db, decode).Success? ==>
      var sections := Report(db, decode).value;
      && |sections| == |db.books|
      && forall i :: 0 <= i < |db.books| ==>
           && BookHighlights(db, i, decode).Success?
           && sections[i].title == db.books[i].title
           && |sections[i].items| == |BookHighlights(db, i, decode).value|
           && forall k :: 0 <= k < |sections[i].items| ==>
                RenderItem(BookHighlights(db, i, decode).value[k]) == Success(sections[i].items[k])
  {
    AggregatedBooks(db, decode);
    if Report(db, decode).Success? {
      var books := Aggregated(db, decode).value;
      RenderBooksShape(books);
      forall i | 0 <= i < |db.books|
        ensures RenderItems(books[i].highlights).Success?
        ensures |RenderItems(books[i].highlights).value| == |books[i].highlights|
        ensures forall k :: 0 <= k < |books[i].highlights| ==>
          RenderItem(books[i].highlights[k]) == Success(RenderItems(books[i].highlights).value[k])
      {
        RenderItemsShape(books[i].highlights);
      }
    }
  }

  /**
   * A highlight whose first quotation text is exactly "Snapshot" and whose
   * first image is the bytes X renders as the image of X, never as text.
   */
  lemma SnapshotRendersAsImage(db: Db, itemId: int, decode: Decoder, bytes: seq<Byte>)
    requires TagValues(db, itemId, QuotationTag) != []
    requires decode(TagValues(db, itemId, QuotationTag)[0]) == Quoted(Some(SnapshotMarker))
    requires TagValues(db, itemId, ImageTag) != [] && TagValues(db, itemId, ImageTag)[0] == Blob(bytes)
    ensures HighlightOf(db, itemId, decode) == Success(Some(Highlight(None, Blob(bytes))))
    ensures RenderItem(Highlight(None, Blob(bytes))) == Success(ImageItem(bytes))
  {
    ItemContribution(db, itemId, decode);
  }

  /** A highlight whose first quotation text is any other string renders as that text. */
  lemma QuotedTextRendersAsText(db: Db, itemId: int, decode: Decoder, text: string)
    requires TagValues(db, itemId, QuotationTag) != []
    requires decode(TagValues(db, itemId, QuotationTag)[0]) == Quoted(Some(text))
    requires text != SnapshotMarker
    ensures HighlightOf(db, itemId, decode) == Success(Some(Highlight(Some(text), Null)))
    ensures RenderItem(Highlight(Some(text), Null)) == Success(TextItem(text))
  {
    ItemContribution(db, itemId, decode);
  }

  /**
   * The report is all or nothing: a highlight that cannot be rendered, from
   * any item selected for any book, makes the whole run fail.
   */
  lemma UnrenderableAbortsReport(db: Db, i: nat, itemId: int, decode: Decoder, h: Highlight)
    requires i < |db.books| && itemId in ItemIds(db, db.books[i].oid)
    requires HighlightOf(db, itemId, decode) == Success(Some(h)) && RenderItem(h).Failure?
    ensures Report(db, decode).Failure?
  {
    if Aggregated(db, decode).Success? {
      var books := Aggregated(db, decode).value;
      var ids := ItemIds(db, db.books[i].oid);
      AggregatedBooks(db, decode);
      assert books[i].highlights == HighlightsOf(db, ids, decode).value;
      var k :| 0 <= k < |ids| && ids[k] == itemId;
      HighlightsProvenance(db, ids, decode, h);
      RenderBooksFailsOn(books, i, h);
    }
  }

  /**
   * A quotation whose `text` is JSON null yields a highlight with neither
   * text nor snapshot; rendering it raises, so once such an item is selected
   * for any book the whole run fails.
   */
  lemma NullTextAbortsExport(db: Db, i: nat, itemId: int, decode: Decoder)
    requires i < |db.books| && itemId in ItemIds(db, db.books[i].oid)
    requires TagValues(db, itemId, QuotationTag) != []
    requires decode(TagValues(db, itemId, QuotationTag)[0]) == Quoted(None)
    ensures HighlightOf(db, itemId, decode) == Success(Some(Highlight(None, Null)))
    ensures RenderItem(Highlight(None, Null)).Failure?
    ensures Report(db, decode).Failure?
  {
    ItemContribution(db, itemId, decode);
    UnrenderableAbortsReport(db, i, itemId, decode, Highlight(None, Null));
  }

  /** The JSON text of a quotation reading "Hello world". */
  const HelloQuotation := Text("{\"text\": \"Hello world\"}")

  /** One book with one highlight item quoting "Hello world" and nothing else. */
  function HelloDb(): Db
  {
    Db(
      [BookRow(1, "A Book", None)],
      [FileRow(1, Some("book.epub"))],
      [ItemRow(10, 1, 0)],
      [TagRow(10, 100, Text(HighlightKind)), TagRow(10, 101, HelloQuotation)],
      [TagNameRow(100, TypeTag), TagNameRow(101, QuotationTag)])
  }

  /** Its report is the book's section holding the single list item "Hello world". */
  lemma HelloWorldReport(decode: Decoder)
    requires decode(HelloQuotation) == Quoted(Some("Hello world"))
    ensures Report(HelloDb(), decode) == Success([Section("A Book", [TextItem("Hello world")])])
  {
    var db := HelloDb();
    var nts := NamedTags(db.tags, db.tagNames);
    assert nts == [NamedTag(10, TypeTag, Text(HighlightKind)), NamedTag(10, QuotationTag, HelloQuotation)];
    assert ItemIds(db, 1) == [10];
    assert FirstTagValue(db, 10, QuotationTag) == Some(HelloQuotation);
    assert HighlightOf(db, 10, decode) == Success(Some(Highlight(Some("Hello world"), Null)));
    var outs := Outcomes(db, [10], decode);
    assert outs == [Success(Some(Highlight(Some("Hello world"), Null)))];
    assert outs[1..] == [];
    var h := Highlight(Some("Hello world"), Null);
    assert Gather(outs[1..]) == Success([]);
    assert Kept(Some(h)) + [] == [h];
    assert Gather(outs) == Success([h]);
    var view := BookView(1, "A Book", None, Some("book.epub"), [h]);
    assert Filled(db, db.books[0], decode) == Success(view);
    assert db.books[1..] == [];
    assert FilledAll(db, db.books[1..], decode) == Success([]);
    assert [view] + [] == [view];
    assert Aggregated(db, decode) == Success([view]);
    assert [h][1..] == [];
    assert RenderItems([h][1..]) == Success([]);
    assert [TextItem("Hello world")] + [] == [TextItem("Hello world")];
    assert RenderItems([h]) == Success([TextItem("Hello world")]);
    assert [view][1..] == [];
    assert RenderBooks([view][1..]) == Success([]);
    assert [Section("A Book", [TextItem("Hello world")])] + [] == [Section("A Book", [TextItem("Hello world")])];
  }
}
