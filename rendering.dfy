/**
 * The report that export writes (export.py:101-119) and the whole run of
 * main (export.py:124-134): one section per book with its title and one list
 * item per highlight, the text when there is one, otherwise the image.
 */
module Rendering {
  import opened Wrappers
  import opened Store
  import opened Extraction
  import opened Aggregation

  /** A list item: the quoted text, or an inline JPEG image of these bytes. */
  datatype ListItem = TextItem(text: string) | ImageItem(jpeg: seq<Byte>)

  /** A book's part of the report: its title and its ordered list. */
  datatype Section = Section(title: string, items: seq<ListItem>)

  /**
   * The list item of one highlight. Base64-encoding a snapshot that is not
   * bytes raises, which ends the export before anything is written.
   */
  function RenderItem(h: Highlight): Result<ListItem, Error>
  {
    if h.text.Some? then Success(TextItem(h.text.value))
    else if h.snapshot.Blob? then Success(ImageItem(h.snapshot.bytes))
    else Failure(UnrenderableSnapshot(h.snapshot))
  }

  /**
   * Exactly one rendering per highlight: its text whenever it has one (an
   * image is then ignored), otherwise the image of its snapshot bytes;
   * without either, the export fails.
   */
  lemma RenderChoice(h: Highlight)
    ensures RenderItem(h).Success? <==> h.text.Some? || h.snapshot.Blob?
    ensures RenderItem(h).Success? ==> (RenderItem(h).value.TextItem? <==> h.text.Some?)
    ensures h.text.Some? ==> RenderItem(h) == Success(TextItem(h.text.value))
    ensures h.text.None? && h.snapshot.Blob? ==> RenderItem(h) == Success(ImageItem(h.snapshot.bytes))
  {
  }

  /** The ordered list of a book's highlights; the first error aborts. */
  function RenderItems(hs: seq<Highlight>): Result<seq<ListItem>, Error>
  {
    if hs == [] then Success([])
    else
      var first := RenderItem(hs[0]);
      if first.Failure? then Failure(first.error)
      else
        var rest := RenderItems(hs[1..]);
        if rest.Failure? then rest else Success([first.value] + rest.value)
  }

  /** One section per book, in book order; the first error aborts. */
  function RenderBooks(books: seq<BookView>): Result<seq<Section>, Error>
  {
    if books == [] then Success([])
    else
      var items := RenderItems(books[0].highlights);
      if items.Failure? then Failure(items.error)
      else
        var rest := RenderBooks(books[1..]);
        if rest.Failure? then rest else Success([Section(books[0].title, items.value)] + rest.value)
  }

  /**
   * One list item per highlight, at the highlight's position; the list is
   * rendered exactly when every highlight is.
   */
  lemma {:induction false} RenderItemsShape(hs: seq<Highlight>)
    ensures RenderItems(hs).Success? <==> forall k :: 0 <= k < |hs| ==> RenderItem(hs[k]).Success?
    ensures RenderItems(hs).Success? ==>
      |RenderItems(hs).value| == |hs| &&
      forall k :: 0 <= k < |hs| ==> RenderItems(hs).value[k] == RenderItem(hs[k]).value
  {
    if hs != [] {
      RenderItemsShape(hs[1..]);
      assert forall k :: 0 < k < |hs| ==> hs[k] == hs[1..][k - 1];
    }
  }

  /**
   * One section per book, at the book's position, with the book's title,
   * whether or not the book has highlights.
   */
  lemma {:induction false} RenderBooksShape(books: seq<BookView>)
    ensures RenderBooks(books).Success? <==>
      forall i :: 0 <= i < |books| ==> RenderItems(books[i].highlights).Success?
    ensures RenderBooks(books).Success? ==>
      |RenderBooks(books).value| == |books| &&
      forall i :: 0 <= i < |books| ==>
        RenderBooks(books).value[i] == Section(books[i].title, RenderItems(books[i].highlights).value)
  {
    if books != [] {
      RenderBooksShape(books[1..]);
      assert forall i :: 0 < i < |books| ==> books[i] == books[1..][i - 1];
    }
  }

  /** One more rendered highlight appends its item to the list so far. */
  lemma RenderItemsSnoc(hs: seq<Highlight>, k: nat)
    requires k < |hs| && RenderItems(hs[..k]).Success? && RenderItem(hs[k]).Success?
    ensures RenderItems(hs[..k + 1]) == Success(RenderItems(hs[..k]).value + [RenderItem(hs[k]).value])
  {
    RenderItemsShape(hs[..k]);
    RenderItemsShape(hs[..k + 1]);
    assert forall j :: 0 <= j < k ==> hs[..k + 1][j] == hs[..k][j];
    assert RenderItems(hs[..k + 1]).value == RenderItems(hs[..k]).value + [RenderItem(hs[k]).value];
  }

  /** An unrenderable highlight after a rendered prefix is the error of the whole list. */
  lemma RenderItemsStop(hs: seq<Highlight>, k: nat)
    requires k < |hs| && RenderItems(hs[..k]).Success? && RenderItem(hs[k]).Failure?
    ensures RenderItems(hs) == Failure(RenderItem(hs[k]).error)
  {
    RenderItemsShape(hs[..k]);
    assert forall j :: 0 <= j < k ==> hs[..k][j] == hs[j];
    RenderItemsFirstError(hs, k);
  }

  lemma {:induction false} RenderItemsFirstError(hs: seq<Highlight>, k: nat)
    requires k < |hs| && RenderItem(hs[k]).Failure?
    requires forall j :: 0 <= j < k ==> RenderItem(hs[j]).Success?
    ensures RenderItems(hs) == Failure(RenderItem(hs[k]).error)
  {
    if k > 0 {
      assert forall j :: 0 <= j < k - 1 ==> hs[1..][j] == hs[j + 1];
      RenderItemsFirstError(hs[1..], k - 1);
    }
  }

  lemma {:induction false} RenderBooksFirstError(books: seq<BookView>, k: nat)
    requires k < |books| && RenderItems(books[k].highlights).Failure?
    requires forall j :: 0 <= j < k ==> RenderItems(books[j].highlights).Success?
    ensures RenderBooks(books) == Failure(RenderItems(books[k].highlights).error)
  {
    if k > 0 {
      assert forall j :: 0 <= j < k - 1 ==> books[1..][j] == books[j + 1];
      RenderBooksFirstError(books[1..], k - 1);
    }
  }

  /** A single unrenderable highlight in any book makes the whole report fail. */
  lemma RenderBooksFailsOn(books: seq<BookView>, i: nat, h: Highlight)
    requires i < |books| && h in books[i].highlights && RenderItem(h).Failure?
    ensures RenderBooks(books).Failure?
  {
    RenderItemsShape(books[i].highlights);
    RenderBooksShape(books);
  }

  /** One more rendered book appends its section to the sections so far. */
  lemma RenderBooksSnoc(books: seq<BookView>, i: nat)
    requires i < |books| && RenderBooks(books[..i]).Success? && RenderItems(books[i].highlights).Success?
    ensures RenderBooks(books[..i + 1]) ==
      Success(RenderBooks(books[..i]).value + [Section(books[i].title, RenderItems(books[i].highlights).value)])
  {
    RenderBooksShape(books[..i]);
    RenderBooksShape(books[..i + 1]);
    assert forall j :: 0 <= j < i ==> books[..i + 1][j] == books[..i][j];
    assert RenderBooks(books[..i + 1]).value ==
      RenderBooks(books[..i]).value + [Section(books[i].title, RenderItems(books[i].highlights).value)];
  }

  /** A book whose list fails after rendered books is the error of the whole report. */
  lemma RenderBooksStop(books: seq<BookView>, i: nat)
    requires i < |books| && RenderBooks(books[..i]).Success? && RenderItems(books[i].highlights).Failure?
    ensures RenderBooks(books) == Failure(RenderItems(books[i].highlights).error)
  {
    RenderBooksShape(books[..i]);
    assert forall j :: 0 <= j < i ==> books[..i][j] == books[j];
    RenderBooksFirstError(books, i);
  }

  /**
   * export: for each book its title and its ordered list, one item per
   * highlight; the whole document or nothing.
   */
  method Export(books: seq<Book>) returns (r: Result<seq<Section>, Error>)
    ensures r == RenderBooks(Views(books))
  {
    ghost var views := Views(books);
    var sections: seq<Section> := [];
    var i := 0;
    while i < |books|
      invariant 0 <= i <= |books|
      invariant RenderBooks(views[..i]) == Success(sections)
    {
      var book := books[i];
      var highlights := book.highlights;
      assert views[i].highlights == highlights && views[i].title == book.title;
      var items: seq<ListItem> := [];
      var k := 0;
      while k < |highlights|
        invariant 0 <= k <= |highlights|
        invariant RenderItems(highlights[..k]) == Success(items)
      {
        var highlight := highlights[k];
        var item: ListItem;
        if highlight.text.Some? {
          item := TextItem(highlight.text.value);
        } else if highlight.snapshot.Blob? {
          item := ImageItem(highlight.snapshot.bytes);
        } else {
          RenderItemsStop(highlights, k);
          RenderBooksStop(views, i);
          return Failure(UnrenderableSnapshot(highlight.snapshot));
        }
        RenderItemsSnoc(highlights, k);
        items := items + [item];
        k := k + 1;
      }
      assert highlights[..k] == highlights;
      RenderBooksSnoc(views, i);
      sections := sections + [Section(book.title, items)];
      i := i + 1;
    }
    assert views[..i] == views;
    r := Success(sections);
  }

  /** The whole run: the report of the aggregated books, or the error that ends it. */
  function Report(db: Db, decode: Decoder): Result<seq<Section>, Error>
  {
    var books := Aggregated(db, decode);
    if books.Failure? then Failure(books.error) else RenderBooks(books.value)
  }

  /** main: read the books, fill them in, render them. */
  method Run(db: Db, decode: Decoder) returns (r: Result<seq<Section>, Error>)
    ensures r == Report(db, decode)
  {
    var books := Collect(db, decode);
    if books.Failure? {
      return Failure(books.error);
    }
    r := Export(books.value);
  }
}
