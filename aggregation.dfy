/**
 * The books of the report and how main fills them in: the Book record
 * (export.py:12-20), get_books (export.py:28-35) and the loop of main that
 * attaches each book's file name and highlights (export.py:126-130).
 */
module Aggregation {
  import opened Wrappers
  import opened Seqs
  import opened Store
  import opened Extraction

  /** The fields of a Book at one moment. */
  datatype BookView = BookView(
    oid: int,
    title: string,
    authors: Option<string>,
    fileName: Option<string>,
    highlights: seq<Highlight>)

  /** A book; main sets its file name and highlights after construction. */
  class Book {
    const oid: int
    const title: string
    const authors: Option<string>
    var fileName: Option<string>
    var highlights: seq<Highlight>

    constructor (oid: int, title: string, authors: Option<string>)
      ensures this.oid == oid && this.title == title && this.authors == authors
      ensures fileName == None && highlights == []
    {
      this.oid := oid;
      this.title := title;
      this.authors := authors;
      fileName := None;
      highlights := [];
    }

    function View(): BookView
      reads this
    {
      BookView(oid, title, authors, fileName, highlights)
    }
  }

  /** The views of a sequence of books, position by position. */
  function Views(books: seq<Book>): (r: seq<BookView>)
    reads books
    ensures |r| == |books|
    ensures forall i :: 0 <= i < |books| ==> r[i] == books[i].View()
  {
    if books == [] then [] else [books[0].View()] + Views(books[1..])
  }

  /** A book as get_books constructs it from its row: no file name, no highlights. */
  function Unfilled(row: BookRow): BookView
  {
    BookView(row.oid, row.title, row.authors, None, [])
  }

  /** get_books: one new Book per row of `Books`, in row order. */
  method GetBooks(db: Db) returns (books: seq<Book>)
    ensures |books| == |db.books|
    ensures forall i :: 0 <= i < |books| ==> fresh(books[i]) && books[i].View() == Unfilled(db.books[i])
    ensures forall i, j :: 0 <= i < j < |books| ==> books[i] != books[j]
  {
    books := [];
    var k := 0;
    while k < |db.books|
      invariant 0 <= k <= |db.books| && |books| == k
      invariant forall i :: 0 <= i < k ==> fresh(books[i]) && books[i].View() == Unfilled(db.books[i])
      invariant forall i, j :: 0 <= i < j < k ==> books[i] != books[j]
    {
      var row := db.books[k];
      var book := new Book(row.oid, row.title, row.authors);
      books := books + [book];
      k := k + 1;
    }
  }

  /**
   * A book once main has attached its file name and highlights, both looked
   * up by the book's own oid; the error of get_highlights aborts.
   */
  function Filled(db: Db, row: BookRow, decode: Decoder): Result<BookView, Error>
  {
    var highlights := HighlightsOf(db, ItemIds(db, row.oid), decode);
    if highlights.Failure? then Failure(highlights.error)
    else Success(BookView(row.oid, row.title, row.authors, FileName(db, row.oid), highlights.value))
  }

  /** A row whose highlights succeed fills in to its own fields, file name and highlights. */
  lemma FilledFrom(db: Db, row: BookRow, decode: Decoder, highlights: seq<Highlight>)
    requires HighlightsOf(db, ItemIds(db, row.oid), decode) == Success(highlights)
    ensures Filled(db, row, decode) == Success(BookView(row.oid, row.title, row.authors, FileName(db, row.oid), highlights))
  {
  }

  /** Every row filled in, in row order; the first error aborts. */
  function FilledAll(db: Db, rows: seq<BookRow>, decode: Decoder): Result<seq<BookView>, Error>
  {
    if rows == [] then Success([])
    else
      var first := Filled(db, rows[0], decode);
      if first.Failure? then Failure(first.error)
      else
        var rest := FilledAll(db, rows[1..], decode);
        if rest.Failure? then rest else Success([first.value] + rest.value)
  }

  /** The books of the database as main leaves them before rendering. */
  function Aggregated(db: Db, decode: Decoder): Result<seq<BookView>, Error>
  {
    FilledAll(db, db.books, decode)
  }

  /**
   * Filling succeeds exactly when every book's highlights do, and then every
   * book keeps its position and is filled from its own row alone.
   */
  lemma {:induction false} FilledAllPositions(db: Db, rows: seq<BookRow>, decode: Decoder)
    ensures FilledAll(db, rows, decode).Success? <==>
      forall i :: 0 <= i < |rows| ==> Filled(db, rows[i], decode).Success?
    ensures FilledAll(db, rows, decode).Success? ==>
      |FilledAll(db, rows, decode).value| == |rows| &&
      forall i :: 0 <= i < |rows| ==> FilledAll(db, rows, decode).value[i] == Filled(db, rows[i], decode).value
  {
    if rows != [] {
      FilledAllPositions(db, rows[1..], decode);
      assert forall i :: 0 < i < |rows| ==> rows[i] == rows[1..][i - 1];
    }
  }

  /** Rows that all fill in give exactly the sequence of their filled books. */
  lemma {:induction false} FilledAllOf(db: Db, rows: seq<BookRow>, views: seq<BookView>, decode: Decoder)
    requires |views| == |rows|
    requires forall j :: 0 <= j < |rows| ==> Filled(db, rows[j], decode) == Success(views[j])
    ensures FilledAll(db, rows, decode) == Success(views)
  {
    if rows != [] {
      assert forall j :: 0 <= j < |rows| - 1 ==> rows[1..][j] == rows[j + 1] && views[1..][j] == views[j + 1];
      FilledAllOf(db, rows[1..], views[1..], decode);
      ConsTail(views);
    }
  }


  /** A failing run reports the first book whose highlights fail. */
  lemma {:induction false} FilledAllFirstError(db: Db, rows: seq<BookRow>, decode: Decoder, k: nat)
    requires k < |rows| && Filled(db, rows[k], decode).Failure?
    requires forall j :: 0 <= j < k ==> Filled(db, rows[j], decode).Success?
    ensures FilledAll(db, rows, decode) == Failure(Filled(db, rows[k], decode).error)
  {
    if k > 0 {
      assert forall j :: 0 <= j < k - 1 ==> rows[1..][j] == rows[j + 1];
      FilledAllFirstError(db, rows[1..], decode, k - 1);
    }
  }

  /**
   * Main's aggregation: every book of the database, at its own position, with
   * the file name and the highlights of its own oid. The run fails exactly
   * when some book's highlights fail, and then with the first such error.
   */
  lemma AggregatedBooks(db: Db, decode: Decoder)
    ensures Aggregated(db, decode).Success? <==>
      forall i :: 0 <= i < |db.books| ==> HighlightsOf(db, ItemIds(db, db.books[i].oid), decode).Success?
    ensures Aggregated(db, decode).Success? ==>
      var books := Aggregated(db, decode).value;
      && |books| == |db.books|
      && forall i :: 0 <= i < |db.books| ==>
           && books[i].oid == db.books[i].oid
           && books[i].title == db.books[i].title
           && books[i].authors == db.books[i].authors
           && books[i].fileName == FileName(db, db.books[i].oid)
           && books[i].highlights == HighlightsOf(db, ItemIds(db, db.books[i].oid), decode).value
  {
    FilledAllPositions(db, db.books, decode);
  }

  /** Books whose views are, one by one, the given ones have exactly those views. */
  lemma ViewsAre(books: seq<Book>, views: seq<BookView>)
    requires |views| == |books| && forall j :: 0 <= j < |books| ==> books[j].View() == views[j]
    ensures Views(books) == views
  {
  }

  /**
   * The body of main's loop: attach the book's file name, then its
   * highlights; the error of get_highlights leaves the highlights unassigned.
   */
  method FillBook(db: Db, book: Book, decode: Decoder) returns (highlights: Result<seq<Highlight>, Error>)
    modifies book
    ensures highlights == HighlightsOf(db, ItemIds(db, book.oid), decode)
    ensures book.fileName == FileName(db, book.oid)
    ensures book.highlights == if highlights.Success? then highlights.value else old(book.highlights)
  {
    book.fileName := FileName(db, book.oid);
    highlights := GetHighlights(db, book.oid, decode);
    if highlights.Success? {
      book.highlights := highlights.value;
    }
  }

  /**
   * The loop of main: attach to each book its file name and its highlights;
   * an error raised by get_highlights ends the run.
   */
  method Collect(db: Db, decode: Decoder) returns (r: Result<seq<Book>, Error>)
    ensures r.Success? <==> Aggregated(db, decode).Success?
    ensures r.Failure? ==> r.error == Aggregated(db, decode).error
    ensures r.Success? ==> Views(r.value) == Aggregated(db, decode).value
  {
    var books := GetBooks(db);
    ghost var filled: seq<BookView> := [];
    var i := 0;
    while i < |books|
      invariant 0 <= i <= |books| && |filled| == i
      invariant forall j :: 0 <= j < i ==> Filled(db, db.books[j], decode) == Success(filled[j])
      invariant forall j :: 0 <= j < i ==> books[j].View() == filled[j]
      invariant forall j :: i <= j < |books| ==> books[j].View() == Unfilled(db.books[j])
    {
      var book := books[i];
      var highlights := FillBook(db, book, decode);
      if highlights.Failure? {
        FilledAllFirstError(db, db.books, decode, i);
        return Failure(highlights.error);
      }
      FilledFrom(db, db.books[i], decode, highlights.value);
      filled := filled + [book.View()];
      i := i + 1;
    }
    FilledAllOf(db, db.books, filled, decode);
    ViewsAre(books, filled);
    r := Success(books);
  }
}
