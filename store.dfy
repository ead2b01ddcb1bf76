/**
 * The e-reader's annotation database, held in memory, and the three queries
 * the exporter issues against it (export.py:38-59, 68-90).
 *
 * Each table is a sequence of rows in storage order. A join is read as the
 * nested loop over its tables in the order the query names them, which is the
 * row order the model assigns to every query result.
 */
module Store {
  import opened Wrappers

  type Byte = x: int | 0 <= x < 256

  /** A cell of `Tags.Val`, by SQLite storage class. */
  datatype Value = Null | Text(s: string) | Blob(bytes: seq<Byte>)

  datatype BookRow = BookRow(oid: int, title: string, authors: Option<string>)
  /** `Files.Name` may be NULL, which the query hands back as `None`. */
  datatype FileRow = FileRow(bookId: int, name: Option<string>)
  /** `state` is part of the table but no query of the exporter reads it. */
  datatype ItemRow = ItemRow(oid: int, parentId: int, state: int)
  datatype TagRow = TagRow(itemId: int, tagId: int, val: Value)
  datatype TagNameRow = TagNameRow(oid: int, tagName: string)

  datatype Db = Db(
    books: seq<BookRow>,
    files: seq<FileRow>,
    items: seq<ItemRow>,
    tags: seq<TagRow>,
    tagNames: seq<TagNameRow>)

  const TypeTag := "bm.type"
  const QuotationTag := "bm.quotation"
  const ImageTag := "bm.image"
  const HighlightKind := "highlight"

  // ---------------------------------------------------------------------------
  // Files: the first-or-none lookup of get_file_name
  // ---------------------------------------------------------------------------

  /**
   * `SELECT Name FROM Files WHERE BookID = ?`, first row or none: none when
   * no row has the book's id, otherwise the name of a row with that id, which
   * is itself none when that row's `Name` is NULL.
   */
  function FirstFileName(files: seq<FileRow>, bookOid: int): (r: Option<string>)
    ensures (forall f :: f in files ==> f.bookId != bookOid) ==> r.None?
    ensures r.Some? ==> FileRow(bookOid, r) in files
  {
    if files == [] then None
    else if files[0].bookId == bookOid then files[0].name
    else FirstFileName(files[1..], bookOid)
  }

  /** get_file_name: the book's file name, or none when no Files row matches or its name is NULL. */
  function FileName(db: Db, bookOid: int): Option<string>
  {
    FirstFileName(db.files, bookOid)
  }

  /**
   * Only the first matching row decides the file name, NULL included; the
   * later ones are ignored.
   */
  lemma {:induction false} FileNameIsFirstMatch(files: seq<FileRow>, bookOid: int, k: nat)
    requires k < |files| && files[k].bookId == bookOid
    requires forall j :: 0 <= j < k ==> files[j].bookId != bookOid
    ensures FirstFileName(files, bookOid) == files[k].name
  {
    if k > 0 {
      FileNameIsFirstMatch(files[1..], bookOid, k - 1);
    }
  }

  // ---------------------------------------------------------------------------
  // Tags JOIN TagNames
  // ---------------------------------------------------------------------------

  /** A row of `Tags t JOIN TagNames tn ON tn.OID = t.TagID`. */
  datatype NamedTag = NamedTag(itemId: int, name: string, val: Value)

  ghost predicate Joins(t: TagRow, tn: TagNameRow, nt: NamedTag)
  {
    tn.oid == t.tagId && nt == NamedTag(t.itemId, tn.tagName, t.val)
  }

  /** The joined rows contributed by one tag row, in TagNames order. */
  function NamesOf(t: TagRow, names: seq<TagNameRow>): seq<NamedTag>
  {
    if names == [] then []
    else
      (if names[0].oid == t.tagId then [NamedTag(t.itemId, names[0].tagName, t.val)] else [])
      + NamesOf(t, names[1..])
  }

  /** The whole join, tags outer and tag names inner. */
  function NamedTags(tags: seq<TagRow>, names: seq<TagNameRow>): seq<NamedTag>
  {
    if tags == [] then [] else NamesOf(tags[0], names) + NamedTags(tags[1..], names)
  }

  lemma {:induction false} NamesOfMembers(t: TagRow, names: seq<TagNameRow>, nt: NamedTag)
    ensures nt in NamesOf(t, names) <==> exists tn :: tn in names && Joins(t, tn, nt)
  {
    if names != [] {
      NamesOfMembers(t, names[1..], nt);
      assert forall tn :: tn in names <==> tn == names[0] || tn in names[1..];
      if Joins(t, names[0], nt) {
        assert nt in NamesOf(t, names);
      }
    }
  }

  /** A joined row exists exactly when a tag row and a tag-name row agree on the tag id. */
  lemma {:induction false} NamedTagsMembers(tags: seq<TagRow>, names: seq<TagNameRow>, nt: NamedTag)
    ensures nt in NamedTags(tags, names) <==> exists t, tn :: t in tags && tn in names && Joins(t, tn, nt)
  {
    if tags != [] {
      NamesOfMembers(tags[0], names, nt);
      NamedTagsMembers(tags[1..], names, nt);
      assert forall t :: t in tags <==> t == tags[0] || t in tags[1..];
    }
  }

  // ---------------------------------------------------------------------------
  // The value of a named tag on an item
  // ---------------------------------------------------------------------------

  /** Every row of `SELECT Val ... WHERE t.ItemId = ? AND tn.TagName = ?`, in order. */
  function ValuesOf(nts: seq<NamedTag>, itemId: int, name: string): seq<Value>
  {
    if nts == [] then []
    else
      (if nts[0].itemId == itemId && nts[0].name == name then [nts[0].val] else [])
      + ValuesOf(nts[1..], itemId, name)
  }

  /** `fetchone()` on that query: it stops at the first matching joined row. */
  function FirstValueOf(nts: seq<NamedTag>, itemId: int, name: string): (r: Option<Value>)
    ensures r.None? <==> ValuesOf(nts, itemId, name) == []
    ensures r.Some? ==> r.value == ValuesOf(nts, itemId, name)[0]
  {
    if nts == [] then None
    else if nts[0].itemId == itemId && nts[0].name == name then Some(nts[0].val)
    else FirstValueOf(nts[1..], itemId, name)
  }

  /** All values of tag `name` on item `itemId`. */
  function TagValues(db: Db, itemId: int, name: string): seq<Value>
  {
    ValuesOf(NamedTags(db.tags, db.tagNames), itemId, name)
  }

  /** The value of tag `name` on item `itemId` that the exporter reads: the first one. */
  function FirstTagValue(db: Db, itemId: int, name: string): Option<Value>
  {
    FirstValueOf(NamedTags(db.tags, db.tagNames), itemId, name)
  }

  lemma {:induction false} ValuesOfMembers(nts: seq<NamedTag>, itemId: int, name: string, v: Value)
    ensures v in ValuesOf(nts, itemId, name) <==> NamedTag(itemId, name, v) in nts
  {
    if nts != [] {
      ValuesOfMembers(nts[1..], itemId, name, v);
    }
  }

  /** An item carries no value for a tag exactly when no tag row of it joins a tag name `name`. */
  lemma TagValuesEmpty(db: Db, itemId: int, name: string)
    ensures TagValues(db, itemId, name) == [] <==>
      forall t, tn :: t in db.tags && tn in db.tagNames && t.itemId == itemId && tn.oid == t.tagId ==> tn.tagName != name
  {
    var nts := NamedTags(db.tags, db.tagNames);
    if TagValues(db, itemId, name) != [] {
      var v := TagValues(db, itemId, name)[0];
      ValuesOfMembers(nts, itemId, name, v);
      NamedTagsMembers(db.tags, db.tagNames, NamedTag(itemId, name, v));
    } else {
      forall t, tn | t in db.tags && tn in db.tagNames && t.itemId == itemId && tn.oid == t.tagId
        ensures tn.tagName != name
      {
        if tn.tagName == name {
          NamedTagsMembers(db.tags, db.tagNames, NamedTag(itemId, name, t.val));
          assert Joins(t, tn, NamedTag(itemId, name, t.val));
          ValuesOfMembers(nts, itemId, name, t.val);
          assert false;
        }
      }
    }
  }

  // ---------------------------------------------------------------------------
  // get_item_ids
  // ---------------------------------------------------------------------------

  /** The WHERE clause of get_item_ids on one row of the three-way join. */
  ghost predicate SelectsHighlight(bookOid: int, i: ItemRow, t: TagRow, tn: TagNameRow)
  {
    && t.itemId == i.oid
    && tn.oid == t.tagId
    && i.parentId == bookOid
    && tn.tagName == TypeTag
    && t.val == Text(HighlightKind)
  }

  /** The ids contributed by one item row: one per `bm.type = 'highlight'` joined row. */
  function MarksOf(i: ItemRow, nts: seq<NamedTag>): seq<int>
  {
    if nts == [] then []
    else
      (if nts[0].itemId == i.oid && nts[0].name == TypeTag && nts[0].val == Text(HighlightKind)
       then [nts[0].itemId] else [])
      + MarksOf(i, nts[1..])
  }

  function IdsIn(items: seq<ItemRow>, nts: seq<NamedTag>, bookOid: int): seq<int>
  {
    if items == [] then []
    else
      (if items[0].parentId == bookOid then MarksOf(items[0], nts) else [])
      + IdsIn(items[1..], nts, bookOid)
  }

  /** get_item_ids: the highlight items of a book, one id per qualifying joined row. */
  function ItemIds(db: Db, bookOid: int): seq<int>
  {
    IdsIn(db.items, NamedTags(db.tags, db.tagNames), bookOid)
  }

  lemma {:induction false} MarksOfMembers(i: ItemRow, nts: seq<NamedTag>, id: int)
    ensures id in MarksOf(i, nts) <==> id == i.oid && NamedTag(i.oid, TypeTag, Text(HighlightKind)) in nts
  {
    if nts != [] {
      MarksOfMembers(i, nts[1..], id);
    }
  }

  lemma {:induction false} IdsInMembers(items: seq<ItemRow>, nts: seq<NamedTag>, bookOid: int, id: int)
    ensures id in IdsIn(items, nts, bookOid) <==>
      exists i :: i in items && i.parentId == bookOid && i.oid == id && NamedTag(id, TypeTag, Text(HighlightKind)) in nts
  {
    if items != [] {
      MarksOfMembers(items[0], nts, id);
      IdsInMembers(items[1..], nts, bookOid, id);
      assert forall i :: i in items <==> i == items[0] || i in items[1..];
    }
  }

  /**
   * An id is selected exactly when some row of Items JOIN Tags JOIN TagNames
   * passes the WHERE clause and carries it; the item's state plays no part.
   */
  lemma ItemIdsMembers(db: Db, bookOid: int, id: int)
    ensures id in ItemIds(db, bookOid) <==>
      exists i, t, tn :: i in db.items && t in db.tags && tn in db.tagNames
        && SelectsHighlight(bookOid, i, t, tn) && t.itemId == id
  {
    var nts := NamedTags(db.tags, db.tagNames);
    var mark := NamedTag(id, TypeTag, Text(HighlightKind));
    IdsInMembers(db.items, nts, bookOid, id);
    NamedTagsMembers(db.tags, db.tagNames, mark);
    if id in ItemIds(db, bookOid) {
      var i :| i in db.items && i.parentId == bookOid && i.oid == id && mark in nts;
      var t, tn :| t in db.tags && tn in db.tagNames && Joins(t, tn, mark);
      assert SelectsHighlight(bookOid, i, t, tn);
    }
    if exists i, t, tn :: i in db.items && t in db.tags && tn in db.tagNames
        && SelectsHighlight(bookOid, i, t, tn) && t.itemId == id {
      var i, t, tn :| i in db.items && t in db.tags && tn in db.tagNames
        && SelectsHighlight(bookOid, i, t, tn) && t.itemId == id;
      assert Joins(t, tn, mark);
    }
  }

  /** The number of item rows with id `id` under book `bookOid`. */
  function ItemsUnder(items: seq<ItemRow>, bookOid: int, id: int): nat
  {
    if items == [] then 0
    else
      (if items[0].parentId == bookOid && items[0].oid == id then 1 else 0)
      + ItemsUnder(items[1..], bookOid, id)
  }

  lemma {:induction false} MarksOfCount(i: ItemRow, nts: seq<NamedTag>, id: int)
    ensures multiset(MarksOf(i, nts))[id] ==
      if id == i.oid then multiset(nts)[NamedTag(id, TypeTag, Text(HighlightKind))] else 0
  {
    if nts != [] {
      MarksOfCount(i, nts[1..], id);
      assert nts == [nts[0]] + nts[1..];
    }
  }

  /** One more item under the book adds `m` selections when it is the item, none otherwise. */
  lemma CountStep(total: nat, here: nat, restCount: nat, m: nat, headCount: nat, restTotal: nat)
    requires total == here + restCount && here <= 1
    requires headCount == (if here == 1 then m else 0) && restTotal == restCount * m
    ensures headCount + restTotal == total * m
  {
  }

  /** The first item row adds the selections of its own tags, when it is the item and under the book. */
  lemma IdsInHead(items: seq<ItemRow>, nts: seq<NamedTag>, bookOid: int, id: int)
    requires items != []
    ensures multiset(IdsIn(items, nts, bookOid))[id] ==
      (if items[0].parentId == bookOid && items[0].oid == id
       then multiset(nts)[NamedTag(id, TypeTag, Text(HighlightKind))] else 0)
      + multiset(IdsIn(items[1..], nts, bookOid))[id]
  {
    var head := if items[0].parentId == bookOid then MarksOf(items[0], nts) else [];
    var rest := IdsIn(items[1..], nts, bookOid);
    assert IdsIn(items, nts, bookOid) == head + rest;
    assert multiset(head + rest)[id] == multiset(head)[id] + multiset(rest)[id];
    MarksOfCount(items[0], nts, id);
  }

  lemma {:induction false} IdsInCount(items: seq<ItemRow>, nts: seq<NamedTag>, bookOid: int, id: int)
    ensures multiset(IdsIn(items, nts, bookOid))[id] ==
      ItemsUnder(items, bookOid, id) * multiset(nts)[NamedTag(id, TypeTag, Text(HighlightKind))]
  {
    if items != [] {
      var m := multiset(nts)[NamedTag(id, TypeTag, Text(HighlightKind))];
      var here: nat := if items[0].parentId == bookOid && items[0].oid == id then 1 else 0;
      IdsInHead(items, nts, bookOid, id);
      IdsInCount(items[1..], nts, bookOid, id);
      CountStep(ItemsUnder(items, bookOid, id), here, ItemsUnder(items[1..], bookOid, id), m,
        if here == 1 then m else 0, multiset(IdsIn(items[1..], nts, bookOid))[id]);
    }
  }

  /**
   * Duplicates are kept: an id is selected once for every pairing of an item
   * row with that id under the book with a `bm.type = 'highlight'` row of
   * the item's joined tags.
   */
  lemma ItemIdsCount(db: Db, bookOid: int, id: int)
    ensures multiset(ItemIds(db, bookOid))[id] ==
      ItemsUnder(db.items, bookOid, id)
      * multiset(NamedTags(db.tags, db.tagNames))[NamedTag(id, TypeTag, Text(HighlightKind))]
  {
    IdsInCount(db.items, NamedTags(db.tags, db.tagNames), bookOid, id);
  }

  /** Items that differ only in `state` */
  ghost predicate SameButState(a: seq<ItemRow>, b: seq<ItemRow>)
  {
    |a| == |b| && forall k :: 0 <= k < |a| ==> a[k].oid == b[k].oid && a[k].parentId == b[k].parentId
  }

  /** There is no deleted-state filter: rewriting every item's state changes no selection. */
  lemma {:induction false} ItemIdsIgnoreState(db: Db, items: seq<ItemRow>, bookOid: int)
    requires SameButState(db.items, items)
    ensures ItemIds(db.(items := items), bookOid) == ItemIds(db, bookOid)
  {
    IdsInIgnoreState(db.items, items, NamedTags(db.tags, db.tagNames), bookOid);
  }

  lemma {:induction false} MarksOfIgnoreState(i: ItemRow, j: ItemRow, nts: seq<NamedTag>)
    requires i.oid == j.oid
    ensures MarksOf(i, nts) == MarksOf(j, nts)
  {
    if nts != [] {
      MarksOfIgnoreState(i, j, nts[1..]);
    }
  }

  lemma {:induction false} IdsInIgnoreState(a: seq<ItemRow>, b: seq<ItemRow>, nts: seq<NamedTag>, bookOid: int)
    requires SameButState(a, b)
    ensures IdsIn(a, nts, bookOid) == IdsIn(b, nts, bookOid)
  {
    if a != [] {
      MarksOfIgnoreState(a[0], b[0], nts);
      IdsInIgnoreState(a[1..], b[1..], nts, bookOid);
    }
  }
}
