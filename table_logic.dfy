/** The values the comment table derives from its state on every render, and
    the two list transformations its handlers apply: overriding fetched rows
    with stored edits, and rewriting one field of the rows with a given id. */
module TableLogic {
  import opened Records
  import opened Text
  import opened EditStore

  const PageSize: nat := 10
  const PageBlockSize: nat := 10

  function Min(a: int, b: int): int { if a <= b then a else b }
  function Max(a: int, b: int): int { if a <= b then b else a }

  // ---------------------------------------------------------------------
  // Mount-time merge of stored edits into the fetched rows

  /** `{ ...row, ...overrides }` with overrides limited to the two editable fields. */
  function ApplyOverride(r: Record, o: FieldEdits): (r': Record)
    ensures SameFixedFields(r, r')
    ensures forall f :: Get(r', f) == if f in o then o[f] else Get(r, f)
  {
    var named := if Name in o then Set(r, Name, o[Name]) else r;
    if Body in o then Set(named, Body, o[Body]) else named
  }

  /** `data.map(...)` at mount: a row whose id has stored edits gets exactly the
      edited fields replaced; a row without stored edits is kept as fetched. */
  function MergeOverrides(data: seq<Record>, edits: Edits): (merged: seq<Record>)
    ensures |merged| == |data|
    ensures forall i :: 0 <= i < |data| && data[i].id !in edits ==> merged[i] == data[i]
    ensures forall i :: 0 <= i < |data| ==> SameFixedFields(data[i], merged[i])
    ensures forall i, f :: 0 <= i < |data| && data[i].id in edits && f in edits[data[i].id] ==>
              Get(merged[i], f) == edits[data[i].id][f]
    ensures forall i, f :: 0 <= i < |data| && !(data[i].id in edits && f in edits[data[i].id]) ==>
              Get(merged[i], f) == Get(data[i], f)
  {
    if data == [] then []
    else
      var head := if data[0].id in edits then ApplyOverride(data[0], edits[data[0].id]) else data[0];
      [head] + MergeOverrides(data[1..], edits)
  }

  // ---------------------------------------------------------------------
  // Per-keystroke update

  /** `prev.map(c => c.id === id ? { ...c, [f]: v } : c)`: every row with the
      id gets field `f` set to `v` and keeps everything else; other rows are kept. */
  function UpdateRecords(rows: seq<Record>, id: int, f: Field, v: string): (r: seq<Record>)
    ensures |r| == |rows|
    ensures forall i :: 0 <= i < |rows| && rows[i].id != id ==> r[i] == rows[i]
    ensures forall i :: 0 <= i < |rows| && rows[i].id == id ==>
              Get(r[i], f) == v && SameFixedFields(rows[i], r[i]) &&
              forall g :: g != f ==> Get(r[i], g) == Get(rows[i], g)
  {
    if rows == [] then []
    else
      var head := if rows[0].id == id then Set(rows[0], f, v) else rows[0];
      [head] + UpdateRecords(rows[1..], id, f, v)
  }

  // ---------------------------------------------------------------------
  // Search filter

  /** The filter's test: the lower-cased query occurs in the lower-cased name
      or in the lower-cased email. */
  predicate Matches(r: Record, query: string) {
    Includes(Lower(r.name), Lower(query)) || Includes(Lower(r.email), Lower(query))
  }

  /** `comments.filter(...)`. */
  function Filtered(rows: seq<Record>, query: string): (r: seq<Record>)
    ensures |r| <= |rows|
    ensures forall x :: x in r ==> x in rows && Matches(x, query)
  {
    if rows == [] then []
    else if Matches(rows[0], query) then [rows[0]] + Filtered(rows[1..], query)
    else Filtered(rows[1..], query)
  }

  /** `a` can be obtained from `b` by deleting elements, keeping the order. */
  ghost predicate IsSubsequence(a: seq<Record>, b: seq<Record>)
    decreases |b|
  {
    if a == [] then true
    else if b == [] then false
    else (a[0] == b[0] && IsSubsequence(a[1..], b[1..])) || IsSubsequence(a, b[1..])
  }

  /** The filtered rows are the original rows with some removed, in their original order. */
  lemma {:induction false} FilteredIsSubsequence(rows: seq<Record>, query: string)
    ensures IsSubsequence(Filtered(rows, query), rows)
  {
    if rows != [] {
      FilteredIsSubsequence(rows[1..], query);
      if Matches(rows[0], query) {
        assert ([rows[0]] + Filtered(rows[1..], query))[1..] == Filtered(rows[1..], query);
      }
    }
  }

  /** A row is kept if and only if it matches: every matching row survives. */
  lemma {:induction false} FilteredKeepsMatches(rows: seq<Record>, query: string)
    ensures forall x :: x in Filtered(rows, query) <==> x in rows && Matches(x, query)
  {
    if rows != [] {
      FilteredKeepsMatches(rows[1..], query);
      assert forall x :: x in rows <==> x == rows[0] || x in rows[1..];
    }
  }

  /** Every matching occurrence survives and every other one is dropped: the
      filtered list holds each row as many times as the input does if it
      matches, and not at all otherwise. */
  lemma {:induction false} FilteredCounts(rows: seq<Record>, query: string)
    ensures forall x :: multiset(Filtered(rows, query))[x] == if Matches(x, query) then multiset(rows)[x] else 0
  {
    if rows != [] {
      FilteredCounts(rows[1..], query);
      assert rows == [rows[0]] + rows[1..];
    }
  }

  /** `query` occurs in `s` once both are lower-cased. */
  ghost predicate OccursIgnoringCase(s: string, query: string) {
    exists k :: OccursAt(Lower(s), Lower(query), k)
  }

  /** The filter's test is a case-insensitive substring search in the name or
      in the email. */
  lemma MatchesIff(r: Record, query: string)
    ensures Matches(r, query) <==> OccursIgnoringCase(r.name, query) || OccursIgnoringCase(r.email, query)
  {
    IncludesIff(Lower(r.name), Lower(query));
    IncludesIff(Lower(r.email), Lower(query));
  }

  /** The empty query keeps every row. */
  lemma {:induction false} FilteredEmptyQuery(rows: seq<Record>)
    ensures Filtered(rows, "") == rows
  {
    if rows != [] {
      IncludesIff(Lower(rows[0].name), Lower(""));
      FilteredEmptyQuery(rows[1..]);
    }
  }

  // ---------------------------------------------------------------------
  // Pagination

  /** `Math.ceil(count / PAGE_SIZE)`: the least number of pages that hold `count` rows. */
  function TotalPages(count: nat): (pages: nat)
    ensures pages * PageSize >= count
    ensures pages == 0 || (pages - 1) * PageSize < count
  {
    (count + PageSize - 1) / PageSize
  }

  /** How `Array.prototype.slice` reads an index: negative counts from the end,
      the result is clamped to `0..len`. */
  function SliceIndex(i: int, len: nat): (k: nat)
    ensures k <= len
    ensures 0 <= i ==> k == Min(i, len)
    ensures i < 0 ==> k == Max(len + i, 0)
  {
    if i < 0 then Max(len + i, 0) else Min(i, len)
  }

  /** `s.slice(start, end)`. */
  function Slice(s: seq<Record>, start: int, end: int): (r: seq<Record>)
    ensures |r| <= |s|
    ensures 0 <= start <= end ==> r == s[Min(start, |s|)..Min(end, |s|)]
  {
    var from, to := SliceIndex(start, |s|), SliceIndex(end, |s|);
    if from < to then s[from..to] else []
  }

  /** `filtered.slice((currentPage - 1) * PAGE_SIZE, currentPage * PAGE_SIZE)`.
      For a page number the table can hold (it starts at 1 and navigation never
      goes below 1), the page is the window of at most `PageSize` rows starting
      at `(currentPage - 1) * PageSize`, cut at the end of the list; it is empty
      exactly when the page lies beyond the last page, which is where a
      narrower query leaves a page number that was not reset. */
  function Paginated(filtered: seq<Record>, currentPage: int): (page: seq<Record>)
    ensures 1 <= currentPage ==>
      page == filtered[Min((currentPage - 1) * PageSize, |filtered|)..Min(currentPage * PageSize, |filtered|)]
    ensures 1 <= currentPage ==> |page| <= PageSize
    ensures 1 <= currentPage ==> (page == [] <==> currentPage > TotalPages(|filtered|))
  {
    Slice(filtered, (currentPage - 1) * PageSize, currentPage * PageSize)
  }

  // ---------------------------------------------------------------------
  // Page-number window

  /** `count` consecutive page numbers starting at `from`. */
  function Run(from: int, count: nat): (r: seq<int>)
    ensures |r| == count
    ensures forall i :: 0 <= i < count ==> r[i] == from + i
    decreases count
  {
    if count == 0 then [] else [from] + Run(from + 1, count - 1)
  }

  /** `.filter(page => page <= totalPages)` */
  function AtMost(pages: seq<int>, limit: int): (r: seq<int>)
    ensures forall p :: p in r ==> p in pages && p <= limit
  {
    if pages == [] then []
    else if pages[0] <= limit then [pages[0]] + AtMost(pages[1..], limit)
    else AtMost(pages[1..], limit)
  }

  /** `Array.from({ length: PAGE_BLOCK_SIZE }, (_, i) => pageBlockStart + i).filter(...)` */
  function VisiblePages(pageBlockStart: int, totalPages: int): seq<int> {
    AtMost(Run(pageBlockStart, PageBlockSize), totalPages)
  }

  /** Cutting a run of consecutive numbers at a limit leaves a shorter run. */
  lemma {:induction false} AtMostRun(from: int, count: nat, limit: int)
    ensures AtMost(Run(from, count), limit) == Run(from, Max(0, Min(count, limit - from + 1)))
    decreases count
  {
    if count > 0 {
      assert Run(from, count)[1..] == Run(from + 1, count - 1);
      AtMostRun(from + 1, count - 1, limit);
      if from <= limit {
        var m := Min(count, limit - from + 1);
        assert Run(from, m) == [from] + Run(from + 1, m - 1);
      }
    }
  }

  /** The page buttons are the consecutive pages `pageBlockStart ..
      min(pageBlockStart + 9, totalPages)`: at most `PageBlockSize` of them,
      none of them beyond the last page. */
  lemma VisiblePagesWindow(pageBlockStart: int, totalPages: int)
    ensures var v := VisiblePages(pageBlockStart, totalPages);
      && |v| == Max(0, Min(PageBlockSize, totalPages - pageBlockStart + 1))
      && |v| <= PageBlockSize
      && (forall i :: 0 <= i < |v| ==> v[i] == pageBlockStart + i)
      && (forall p :: p in v <==> pageBlockStart <= p < pageBlockStart + PageBlockSize && p <= totalPages)
  {
    AtMostRun(pageBlockStart, PageBlockSize, totalPages);
    var v := VisiblePages(pageBlockStart, totalPages);
    forall p | pageBlockStart <= p < pageBlockStart + PageBlockSize && p <= totalPages
      ensures p in v
    {
      assert v[p - pageBlockStart] == p;
    }
  }
}
