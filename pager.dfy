/**
 * The paged table: a fixed array of page slots, each empty or holding one
 * 4096-byte page, and the count of rows stored. Row `n` lives in page
 * `n / RowsPerPage` at byte `(n % RowsPerPage) * RowSize`; a page is
 * allocated the first time a row in it is addressed.
 */
module Pager {
  import opened Wrappers
  import opened Layout
  import opened Codec

  /** The outcome of executing a statement against the table. */
  datatype ExecutionStatus = Success | TableFull | Failure

  /** The page that holds row `rowNum`. */
  function PageOf(rowNum: nat): (p: nat)
    ensures rowNum < MaxTableRows ==> p < MaxTablePages
  {
    rowNum / RowsPerPage
  }

  /** The byte offset of row `rowNum` inside its page; the whole row fits in the page. */
  function OffsetOf(rowNum: nat): (o: nat)
    ensures o % RowSize == 0
    ensures o + RowSize <= PageSize
  {
    (rowNum % RowsPerPage) * RowSize
  }

  /**
   * The row stored at byte `offset` of page `page`. For an offset inside
   * the page's RowsPerPage slots, addressing that row gives back the same
   * page and the start of the slot holding the offset.
   */
  function RowNumberAt(page: nat, offset: nat): (rowNum: nat)
    ensures offset < RowsPerPage * RowSize ==> PageOf(rowNum) == page && OffsetOf(rowNum) == offset / RowSize * RowSize
  {
    page * RowsPerPage + offset / RowSize
  }

  /** The page and offset of a row determine the row: the address map is invertible. */
  lemma RowAddressInverse(rowNum: nat)
    ensures RowNumberAt(PageOf(rowNum), OffsetOf(rowNum)) == rowNum
  {
  }

  /** Distinct rows occupy disjoint byte ranges: different pages, or non-overlapping slots of one page. */
  lemma SlotsDisjoint(i: nat, j: nat)
    requires i != j
    ensures PageOf(i) != PageOf(j) || OffsetOf(i) + RowSize <= OffsetOf(j) || OffsetOf(j) + RowSize <= OffsetOf(i)
  {
  }

  /** An earlier row in the same page lies wholly before a later one. */
  lemma EarlierSlotBefore(i: nat, n: nat)
    requires i < n && PageOf(i) == PageOf(n)
    ensures OffsetOf(i) + RowSize <= OffsetOf(n)
  {
  }

  /** A row's page starts at or before the row. */
  lemma PageStartsBefore(rowNum: nat)
    ensures PageOf(rowNum) * RowsPerPage <= rowNum
  {
  }

  /** The row a page starts with belongs to that page. */
  lemma FirstRowOfPage(p: nat)
    ensures PageOf(p * RowsPerPage) == p
  {
  }

  /**
   * The bytes of page `p` hold, in the slot of every row of `contents` that
   * maps to page `p`, the serialized form of that row.
   */
  ghost predicate PageHolds(bytes: seq<byte>, p: nat, contents: seq<Row>)
  {
    |bytes| == PageSize &&
    forall i :: 0 <= i < |contents| && PageOf(i) == p ==>
      bytes[OffsetOf(i)..OffsetOf(i) + RowSize] == EncodeRow(contents[i])
  }

  /** `PageHolds` of the current bytes of the page array `page`. */
  ghost predicate PageArrayHolds(page: array<byte>, p: nat, contents: seq<Row>)
    reads page
  {
    PageHolds(page[..], p, contents)
  }

  /** A page that no stored row maps to holds them all vacuously, whatever its bytes. */
  lemma UnusedPageHolds(bytes: seq<byte>, p: nat, contents: seq<Row>)
    requires |bytes| == PageSize && |contents| <= p * RowsPerPage
    ensures PageHolds(bytes, p, contents)
  {
    forall i | 0 <= i < |contents|
      ensures PageOf(i) != p
    {
      FirstRowOfPage(p);
      RowAddressInverse(i);
    }
  }

  /** Appending a row that maps to another page leaves what page `p` must hold unchanged. */
  lemma AppendElsewhereHolds(bytes: seq<byte>, p: nat, contents: seq<Row>, row: Row)
    requires PageHolds(bytes, p, contents) && PageOf(|contents|) != p
    ensures PageHolds(bytes, p, contents + [row])
  {
  }

  /**
   * Serializing the next row into its slot of its page makes the page hold
   * the extended row sequence: the rows already in that page keep their bytes.
   */
  lemma AppendHolds(bytes: seq<byte>, contents: seq<Row>, row: Row)
    requires PageHolds(bytes, PageOf(|contents|), contents)
    ensures PageHolds(Splice(bytes, OffsetOf(|contents|), EncodeRow(row)), PageOf(|contents|), contents + [row])
  {
    var n, w := |contents|, EncodeRow(row);
    var after := Splice(bytes, OffsetOf(n), w);
    forall i | 0 <= i < n + 1 && PageOf(i) == PageOf(n)
      ensures after[OffsetOf(i)..OffsetOf(i) + RowSize] == EncodeRow((contents + [row])[i])
    {
      if i < n {
        EarlierSlotBefore(i, n);
        SpliceKeeps(bytes, OffsetOf(n), w, OffsetOf(i), RowSize);
        assert (contents + [row])[i] == contents[i];
      } else {
        SpliceWindow(bytes, OffsetOf(n), w);
      }
    }
  }

  /** Exactly the slots of pages that one of the first `n` rows maps into are filled. */
  ghost predicate AllocatedFor<T>(slots: seq<Option<T>>, n: nat)
  {
    forall p :: 0 <= p < |slots| ==> (slots[p].Some? <==> p * RowsPerPage < n)
  }

  /** Filling the slot of row `n`'s page keeps exactly the used pages allocated once row `n` is stored. */
  lemma AllocatedForNext<T>(slots: seq<Option<T>>, n: nat, page: T)
    requires AllocatedFor(slots, n) && PageOf(n) < |slots|
    ensures AllocatedFor(slots[PageOf(n) := Some(page)], n + 1)
  {
  }

  /**
   * The table: `pages` holds MaxTablePages slots, each empty or owning one
   * page of PageSize bytes; `numRows` counts the rows appended so far.
   * `Contents` is the sequence of rows the pages hold, in row order, and
   * `Repr` is the set of objects the table owns.
   */
  class Table {
    var pages: array<Option<array<byte>>>
    var numRows: uint32
    ghost var Contents: seq<Row>
    ghost var Repr: set<object>
    /** The slot each owned page sits in. */
    ghost var SlotOf: map<array<byte>, nat>

    /** The shape every table has: the slot array and its pages are owned, and no page sits in two slots. */
    ghost predicate Wellformed()
      reads this`pages, this`Repr, this`SlotOf, pages
    {
      this in Repr && pages in Repr &&
      pages.Length == MaxTablePages &&
      forall p :: 0 <= p < pages.Length && pages[p].Some? ==>
        pages[p].value in Repr && pages[p].value.Length == PageSize &&
        pages[p].value in SlotOf && SlotOf[pages[p].value] == p
    }

    /**
     * The table invariant: at most MaxTableRows rows; exactly the pages that
     * some stored row maps into are allocated; and every allocated page holds
     * the rows of `Contents` that map into it.
     */
    ghost predicate Valid()
      reads this, Repr
    {
      // `pages in Repr` is also part of Wellformed, but it must be known
      // before Wellformed is called, which reads `pages`.
      pages in Repr && Wellformed() &&
      numRows as int <= MaxTableRows &&
      |Contents| == numRows as int &&
      AllocatedFor(pages[..], numRows as int) &&
      (forall p :: 0 <= p < pages.Length && pages[p].Some? ==> PageArrayHolds(pages[p].value, p, Contents))
    }

    /** An empty table: no rows, every page slot empty. */
    constructor ()
      ensures Valid() && fresh(Repr)
      ensures Contents == [] && numRows == 0
      ensures forall p :: 0 <= p < pages.Length ==> pages[p] == None
    {
      var slots := new Option<array<byte>>[MaxTablePages];
      for i := 0 to MaxTablePages
        invariant forall p :: 0 <= p < i ==> slots[p] == None
      {
        slots[i] := None;
      }
      pages := slots;
      numRows := 0;
      Contents := [];
      Repr := {this, slots};
      SlotOf := map[];
    }

    /**
     * The page and offset where row `rowNum` lives. The page is allocated
     * when its slot is empty and only then; no other slot and no existing
     * page changes.
     */
    method RowAddress(rowNum: uint32) returns (page: array<byte>, offset: nat)
      requires Wellformed() && (rowNum as int) < MaxTableRows
      modifies this`Repr, this`SlotOf, pages
      ensures Wellformed()
      // The slot facts in the first two clauses follow from the third; they
      // are stated slot by slot as well because ExecuteSelect's loop proof
      // runs out of resource when it must derive them from the sequence.
      ensures pages[PageOf(rowNum as int)] == Some(page) && offset == OffsetOf(rowNum as int)
      ensures forall q :: 0 <= q < pages.Length && q != PageOf(rowNum as int) ==> pages[q] == old(pages[q])
      ensures pages[..] == old(pages[..])[PageOf(rowNum as int) := Some(page)]
      ensures old(pages[PageOf(rowNum as int)]).Some? ==> unchanged(this, pages)
      ensures old(pages[PageOf(rowNum as int)]).None? ==>
                fresh(page) && page.Length == PageSize && Repr == old(Repr) + {page}
    {
      var p := PageOf(rowNum as int);
      var slot := pages[p];
      if slot.None? {
        page := new byte[PageSize];
        pages[p] := Some(page);
        Repr := Repr + {page};
        SlotOf := SlotOf[page := p];
      } else {
        page := slot.value;
      }
      offset := OffsetOf(rowNum as int);
    }

    /**
     * Appends `row` at index `numRows`, or reports TableFull and changes
     * nothing when the table already holds MaxTableRows rows.
     */
    method ExecuteInsert(row: Row) returns (status: ExecutionStatus)
      requires Valid()
      modifies Repr
      ensures Valid() && fresh(Repr - old(Repr))
      ensures old(numRows) as int >= MaxTableRows ==>
                status == TableFull && Repr == old(Repr) && unchanged(Repr)
      ensures old(numRows) as int < MaxTableRows ==>
                status == Success && numRows == old(numRows) + 1 && Contents == old(Contents) + [row]
    {
      if numRows as int >= MaxTableRows {
        return TableFull;
      }
      AppendRow(row);
      status := Success;
    }

    /**
     * Writes `row` into slot `numRows`, allocating its page if needed, and
     * counts it. Every row already stored keeps its bytes: no earlier slot
     * overlaps the one written.
     */
    method AppendRow(row: Row)
      requires Valid() && (numRows as int) < MaxTableRows
      modifies Repr
      ensures Valid() && fresh(Repr - old(Repr))
      ensures numRows == old(numRows) + 1 && Contents == old(Contents) + [row]
    {
      var page, offset := ReserveSlot(row);
      WriteReserved(row, page, offset);
    }

    /**
     * The state between addressing slot `numRows` and writing `row` into it:
     * the slot's page is allocated at `page`, it still holds the stored rows,
     * and every other page already holds the stored rows followed by `row`.
     */
    ghost predicate Reserved(row: Row, page: array<byte>, offset: nat)
      reads this, Repr
    {
      pages in Repr && Wellformed() &&
      numRows as int < MaxTableRows &&
      |Contents| == numRows as int &&
      pages[PageOf(numRows as int)] == Some(page) && offset == OffsetOf(numRows as int) &&
      AllocatedFor(pages[..], numRows as int + 1) &&
      PageArrayHolds(page, PageOf(numRows as int), Contents) &&
      (forall p :: 0 <= p < pages.Length && pages[p].Some? && p != PageOf(numRows as int) ==>
         PageArrayHolds(pages[p].value, p, Contents + [row]))
    }

    /** Addresses slot `numRows`, allocating its page if needed. */
    method ReserveSlot(ghost row: Row) returns (page: array<byte>, offset: nat)
      requires Valid() && (numRows as int) < MaxTableRows
      modifies this`Repr, this`SlotOf, pages
      ensures Reserved(row, page, offset) && fresh(Repr - old(Repr))
      ensures numRows == old(numRows) && Contents == old(Contents)
    {
      var n := numRows as int;
      ghost var slot := pages[PageOf(n)];
      page, offset := RowAddress(numRows);
      if slot.None? {
        UnusedPageHolds(page[..], PageOf(n), Contents);
      }
      PageStartsBefore(n);
      forall p | 0 <= p < pages.Length && pages[p].Some? && p != PageOf(n)
        ensures PageArrayHolds(pages[p].value, p, Contents + [row])
      {
        FirstRowOfPage(p);
        AppendElsewhereHolds(pages[p].value[..], p, Contents, row);
      }
      AllocatedForNext(old(pages[..]), n, page);
    }

    /** Serializes `row` into the reserved slot and counts it. */
    method WriteReserved(row: Row, page: array<byte>, offset: nat)
      requires Reserved(row, page, offset)
      modifies page, this`numRows, this`Contents
      ensures Valid()
      ensures numRows == old(numRows) + 1 && Contents == old(Contents) + [row]
    {
      ghost var before := page[..];
      ConvertToBinary(row, page, offset);
      numRows := numRows + 1;
      Contents := Contents + [row];
      AppendHolds(before, old(Contents), row);
    }

    /**
     * Reads rows 0 .. numRows - 1 in ascending order, once each, and returns
     * them; the table is left as it was, since every page those rows use is
     * already allocated.
     */
    method ExecuteSelect() returns (status: ExecutionStatus, rows: seq<Row>)
      requires Valid()
      modifies this`Repr, this`SlotOf, pages
      ensures Valid() && unchanged(this) && unchanged(pages)
      ensures status == Success && rows == Contents
    {
      rows := [];
      var i: uint32 := 0;
      while i < numRows
        invariant i <= numRows
        invariant Valid() && unchanged(this) && unchanged(pages)
        invariant rows == Contents[..i]
      {
        PageStartsBefore(i as int);
        assert PageArrayHolds(pages[PageOf(i as int)].value, PageOf(i as int), Contents);
        var page, offset := RowAddress(i);
        var row := ConvertFromBinary(page, offset);
        DecodeEncode(Contents[i]);
        rows := rows + [row];
        i := i + 1;
      }
      status := Success;
    }

    /** Gives up every page: afterwards the table owns no page. */
    method Free()
      requires Wellformed()
      modifies this`Repr, this`SlotOf, pages
      ensures Wellformed() && Repr == {this, pages}
      ensures forall p :: 0 <= p < pages.Length ==> pages[p] == None
    {
      for i := 0 to MaxTablePages
        invariant forall p :: 0 <= p < i ==> pages[p] == None
      {
        pages[i] := None;
      }
      Repr := {this, pages};
    }
  }
}
