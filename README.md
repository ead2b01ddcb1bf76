# pb740-export, modelled in Dafny

A model of the extraction layer of the PocketBook 740 highlight exporter
(`export.py`). The exporter reads the reader's annotation database, a generic
entity-attribute-value store (`Items`, `Tags`, `TagNames`, plus `Books` and
`Files`), picks each book's highlight items, turns every item into a typed
`Highlight` (quoted text, or an image snapshot when the quotation reads
`"Snapshot"`), attaches file name and highlights to each `Book`, and renders
one HTML section per book with one list item per highlight.

Files and modules:

- `wrappers.dfy` (`Wrappers`): `Option` and `Result`.
- `seqs.dfy` (`Seqs`): two sequence identities the larger proofs call.
- `store.dfy` (`Store`): the tables as sequences of rows, and the three
  queries: the file-name lookup, the value of a named tag on an item (all rows,
  and the first row that `fetchone` returns), and the selection of a book's
  highlight items. Joins are read as nested loops in the order the query names
  the tables.
- `extraction.dfy` (`Extraction`): `Highlight`, the per-item decision
  (`HighlightOf`), the specification of a book's highlights (`HighlightsOf`)
  and the imperative `GetHighlights` proved against it.
- `aggregation.dfy` (`Aggregation`): the `Book` class whose `fileName` and
  `highlights` fields main assigns, `GetBooks`, and main's loop (`Collect`)
  proved against the pure `Aggregated`.
- `rendering.dfy` (`Rendering`): the per-highlight text-or-image choice, the
  report as a sequence of sections, `Export` (nested loops) and `Run` (all of
  main) proved against the pure `Report`.
- `properties.dfy` (`ReportProperties`): end-to-end properties of the run.

Things the model makes explicit:

- `json.loads(val)['text']` is a parameter `decode: Value -> Quotation`. It
  yields `Malformed` when the call raises, or the `text` field (a string or
  JSON null). A malformed quotation aborts the whole run (`Failure`): the code
  has no per-item recovery.
- A cell of `Tags.Val` is `Null`, `Text` or `Blob`. `Null` in a highlight's
  snapshot also stands for Python's `None`.
- Base64-encoding a snapshot that is not bytes raises. The export then fails
  before the file is written (`UnrenderableSnapshot`). The extraction produces
  such a highlight in two ways: a quotation whose `text` is JSON null
  (`NullTextAbortsExport`), or a `bm.image` cell that is not a blob.

Behaviour the code does not have:

- No deleted-state filter: `get_item_ids` never reads `Items.state`
  (export.py:53-55, `ItemIdsIgnoreState`).
- No per-item recovery: a malformed quotation aborts the run instead of
  dropping the item (export.py:79-80).
- No notes or bookmarks: only highlights are extracted, and `Book.notes` and
  `Book.bookmarks` stay empty (export.py:18-19).
- No highlight with both text and image: the image is read only when the
  quotation text is exactly `"Snapshot"` (export.py:81-96).
- No skipping of empty books, and no authors or file name in the report: every
  book gets a section with only its title and its list (export.py:106-108).

## Model

| member | source | states |
|---|---|---|
| `Store.FirstFileName` | export.py:38-44 | none when no `Files` row has the book's id; a name that is not none is the name of a row with that id |
| `Store.FileNameIsFirstMatch` | export.py:38-44 | the first row with a matching `BookID` decides the file name, none when that row's `Name` is NULL; later rows are ignored |
| `Store.NamedTagsMembers` | export.py:70-71 | a row of `Tags JOIN TagNames` exists exactly for a tag row and a tag-name row that agree on the tag id |
| `Store.FirstValueOf` | export.py:75-76 | `fetchone` on a tag query is none exactly when the query has no rows, else its first row's value |
| `Store.TagValuesEmpty` | export.py:68-77 | an item has no value for a tag exactly when none of its tag rows joins a tag name of that name |
| `Store.ItemIdsMembers` | export.py:47-59 | an id is selected exactly when an item with that id under the book has a tag named `bm.type` with text value `highlight`, the item's state playing no part |
| `Store.ItemIdsCount` | export.py:48-58 | duplicates are kept: an id is selected once per pairing of an item row with that id under the book and a `bm.type = 'highlight'` row of its joined tags |
| `Store.ItemIdsIgnoreState` | export.py:48-56 | changing the `state` of items never changes which ids are selected |
| `Extraction.ItemContribution` | export.py:75-96 | no quotation row gives no highlight; a malformed first quotation aborts; a first quotation text other than exactly `"Snapshot"` gives one highlight with that text and no snapshot; `"Snapshot"` gives one highlight without text holding the first `bm.image` value, or nothing when there is none |
| `Extraction.Gather` | export.py:64-98 | gathering per-item outcomes yields at most one highlight per item |
| `Extraction.HighlightsAppend` | export.py:64-98 | the highlights of consecutive runs of items are those of the first run followed by those of the second, so item order is kept and each item contributes in place; an error in the first run wins |
| `Extraction.HighlightsOneItem` | export.py:67-96 | in a successful run, each item's at most one highlight sits between those of the items before it and those of the items after it |
| `Extraction.HighlightsSucceed` | export.py:77-80 | building succeeds exactly when no item's first quotation is malformed |
| `Extraction.HighlightsFirstError` | export.py:67-80 | a failing build reports the first item whose quotation is malformed |
| `Extraction.HighlightsProvenance` | export.py:67-96 | every highlight of a book was yielded by one of its items, and every highlight an item yields is in the result |
| `Extraction.GetHighlights` | export.py:62-98 | the loop over the item ids returns exactly the specified highlights, or the error of the first malformed quotation |
| `Aggregation.Book.constructor` | export.py:12-20 | a new book has its row's id, title and authors, no file name and no highlights |
| `Aggregation.GetBooks` | export.py:28-35 | one new, distinct book per `Books` row, in row order, unfilled |
| `Aggregation.FilledAllPositions` | export.py:128-130 | filling succeeds exactly when every book's highlights do, and each book keeps its position and is filled from its own row |
| `Aggregation.FilledAllFirstError` | export.py:128-130 | a failing aggregation reports the first failing book's error |
| `Aggregation.AggregatedBooks` | export.py:126-130 | after main's loop every book is at its row's position with the file name and highlights of its own oid; the run fails exactly when some book's highlights fail |
| `Aggregation.FillBook` | export.py:129-130 | one pass of main's loop body sets the book's file name to that of its own oid and, when get_highlights succeeds, its highlights to exactly that result |
| `Aggregation.Collect` | export.py:126-130 | the loop that assigns each book's fields leaves them exactly as the aggregation specifies, or fails with its error |
| `Rendering.RenderChoice` | export.py:110-116 | each highlight renders as exactly one item: its text when present, otherwise the image of its snapshot bytes; without either the export fails |
| `Rendering.RenderItemsShape` | export.py:109-116 | a book's list has one item per highlight, at the highlight's position |
| `Rendering.RenderBooksShape` | export.py:106-116 | the report has one section per book, in order, with the book's title, even when the book has no highlights |
| `Rendering.Export` | export.py:101-116 | the nested loops of export produce exactly the specified sections, or the error of the first unrenderable snapshot |
| `Rendering.Run` | export.py:124-134 | main produces exactly the report of the aggregated books |
| `ReportProperties.ReportSections` | export.py:101-134 | a finished report has one section per book row, titled by it, with one item per highlight of that book's own items |
| `ReportProperties.SnapshotRendersAsImage` | export.py:81-93 | a quotation `"Snapshot"` with first image bytes X renders as the image of X, not as the text `"Snapshot"` |
| `ReportProperties.QuotedTextRendersAsText` | export.py:94-96 | any other quotation text renders as that text |
| `Rendering.RenderBooksFailsOn` | export.py:106-116 | one unrenderable highlight in any book makes the whole report fail |
| `ReportProperties.UnrenderableAbortsReport` | export.py:124-134 | an unrenderable highlight from any item selected for any book makes the whole run fail |
| `ReportProperties.NullTextAbortsExport` | export.py:94-134 | a quotation whose text is JSON null yields a highlight with neither text nor snapshot; rendering it fails, and once such an item is selected for a book the whole run fails |
| `ReportProperties.HelloWorldReport` | export.py:62-134 | one book with one highlight quoting "Hello world" yields that book's section with the single item "Hello world" |

## Left out

- The SQLite connection and query execution: the tables are sequences in storage order, and each join is read as a nested loop in the order the query names its tables. SQLite's planner may return joined rows in another order.
- SQLite's integer and real storage classes for `Tags.Val`, and NULL keys: values are `Null`, `Text` or `Blob`, keys are integers.
- `json.loads`: a parameter of the model. A `text` field that is neither a string nor null (a number, a list) is outside the model.
- Base64 encoding, the `dominate` HTML document, the `h1` heading and writing `export.html`: the report is the sequence of sections with their list items.
- The `click` command line and its path check.
- `Book.notes` and `Book.bookmarks`: the code creates them empty and never fills or renders them.
- Aggregation.GetBooks: `Books.title` is taken to be text. A NULL title would reach `h2` as `None`, and what `dominate` makes of it is outside the model.
