/** The comment table component: its state cells (the rows, the current
    page, the edit cursor, the first page of the page-number block), the
    `searchQuery` it receives from its parent, and the local-storage slot it
    reads and writes. Each handler is a method that changes exactly the
    cells the handler sets. */
module TableComponent {
  import opened Records
  import opened EditStore
  import opened TableLogic

  /** `editing`: `{}` when no cell is being edited, `{ id, field }` otherwise. */
  datatype Cursor = Idle | Editing(id: int, field: Field)

  /** `editing.id === id && editing.field === f`: the cell shows an input. */
  predicate ShowsInput(c: Cursor, id: int, f: Field) {
    c.Editing? && c.id == id && c.field == f
  }

  class CommentTable {
    var comments: seq<Record>
    var currentPage: int
    var editing: Cursor
    var pageBlockStart: int
    var searchQuery: string
    var storage: Slot

    /** What navigation keeps: the block starts at a page number of the form
        10k + 1 and the current page lies inside the block. It does NOT keep
        the current page within the page count, since a new query can shrink it. */
    ghost predicate Valid()
      reads this`pageBlockStart, this`currentPage
    {
      && 1 <= pageBlockStart
      && (pageBlockStart - 1) % PageBlockSize == 0
      && pageBlockStart <= currentPage < pageBlockStart + PageBlockSize
    }

    /** The rows that match the current query. */
    function FilteredRows(): seq<Record>
      reads this
    {
      Filtered(comments, searchQuery)
    }

    function PageCount(): nat
      reads this
    {
      TotalPages(|FilteredRows()|)
    }

    /** The rows shown on the current page. */
    function PageRows(): seq<Record>
      reads this
    {
      Paginated(FilteredRows(), currentPage)
    }

    /** The page-number buttons. */
    function PageButtons(): seq<int>
      reads this
    {
      VisiblePages(pageBlockStart, PageCount())
    }

    /** The component as first rendered: no rows yet, page 1, block 1, nothing edited. */
    constructor (slot: Slot, query: string)
      ensures Valid()
      ensures comments == [] && currentPage == 1 && editing == Idle && pageBlockStart == 1
      ensures searchQuery == query && storage == slot
    {
      comments := [];
      currentPage := 1;
      editing := Idle;
      pageBlockStart := 1;
      searchQuery := query;
      storage := slot;
    }

    /** A new `searchQuery` from the parent; the page and the block are not reset. */
    method SetSearchQuery(query: string)
      requires Valid()
      modifies this`searchQuery
      ensures Valid()
      ensures searchQuery == query
      ensures currentPage == old(currentPage) && pageBlockStart == old(pageBlockStart)
      ensures PageRows() == [] <==> currentPage > PageCount()
    {
      searchQuery := query;
    }

    /** The fetch-completion callback: stored edits are read once and laid
        over the fetched rows. */
    method ReceiveData(data: seq<Record>)
      modifies this`comments
      ensures comments == MergeOverrides(data, Load(storage))
    {
      var localEdits := Load(storage);
      comments := MergeOverrides(data, localEdits);
    }

    /** `saveEditToStorage`: read the stored map, set one field, write it all back. */
    method SaveEditToStorage(id: int, f: Field, v: string)
      modifies this`storage
      ensures storage == Stored(SetEdit(Load(old(storage)), id, f, v))
    {
      var edits := Load(storage);
      storage := Stored(SetEdit(edits, id, f, v));
    }

    /** `handleEdit`: the clicked cell becomes the only cell that shows an input. */
    method HandleEdit(id: int, f: Field)
      modifies this`editing
      ensures editing == Editing(id, f)
      ensures forall id', f' :: ShowsInput(editing, id', f') <==> id' == id && f' == f
    {
      editing := Editing(id, f);
    }

    /** `handleChange`: every keystroke rewrites the field in the rows with
        that id and persists it at once. */
    method HandleChange(id: int, f: Field, v: string)
      modifies this`comments, this`storage
      ensures comments == UpdateRecords(old(comments), id, f, v)
      ensures storage == Stored(SetEdit(Load(old(storage)), id, f, v))
    {
      comments := UpdateRecords(comments, id, f, v);
      SaveEditToStorage(id, f, v);
    }

    /** `handleKeyPress`: Enter closes the input, any other key leaves it open. */
    method HandleKeyPress(key: string)
      modifies this`editing
      ensures key == "Enter" ==> editing == Idle
      ensures key != "Enter" ==> editing == old(editing)
    {
      if key == "Enter" {
        editing := Idle;
      }
    }

    /** `handleBlur`: losing focus closes the input. */
    method HandleBlur()
      modifies this`editing
      ensures editing == Idle
      ensures forall id, f :: !ShowsInput(editing, id, f)
    {
      editing := Idle;
    }

    /** `goToPage`, reached only from a page-number button. */
    method GoToPage(page: int)
      requires Valid()
      requires page in PageButtons()
      modifies this`currentPage
      ensures Valid()
      ensures currentPage == page
    {
      VisiblePagesWindow(pageBlockStart, PageCount());
      currentPage := page;
    }

    /** `goToNextBlock`: move block and page to the next block when that block
        still has a page; otherwise nothing changes. */
    method GoToNextBlock()
      requires Valid()
      modifies this`pageBlockStart, this`currentPage
      ensures Valid()
      ensures old(pageBlockStart) + PageBlockSize <= old(PageCount()) ==>
                pageBlockStart == currentPage == old(pageBlockStart) + PageBlockSize
      ensures old(pageBlockStart) + PageBlockSize > old(PageCount()) ==>
                pageBlockStart == old(pageBlockStart) && currentPage == old(currentPage)
    {
      var newStart := pageBlockStart + PageBlockSize;
      if newStart <= PageCount() {
        pageBlockStart := newStart;
        currentPage := newStart;
      }
    }

    /** `goToPrevBlock`: move block and page to the previous block unless the
        block is already the first; otherwise nothing changes. */
    method GoToPrevBlock()
      requires Valid()
      modifies this`pageBlockStart, this`currentPage
      ensures Valid()
      ensures old(pageBlockStart) - PageBlockSize > 0 ==>
                pageBlockStart == currentPage == old(pageBlockStart) - PageBlockSize
      ensures old(pageBlockStart) - PageBlockSize <= 0 ==>
                pageBlockStart == old(pageBlockStart) && currentPage == old(currentPage) &&
                pageBlockStart == 1
    {
      var newStart := pageBlockStart - PageBlockSize;
      if newStart > 0 {
        pageBlockStart := newStart;
        currentPage := newStart;
      }
    }
  }
}
