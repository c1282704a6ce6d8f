/**
 * frontend/src/pages/Assessments.jsx: the table comparator, the page
 * arithmetic of the paginated listing, the sort-header toggle, and the page
 * state that decides between the listing and the search endpoint.
 */
module Assessments {
  import opened Common
  import opened Sorting
  import opened EvaluationController

  // ---------------------------------------------------------------------------
  // Comparator
  // ---------------------------------------------------------------------------

  /**
   * A row of the table: a row of the paginated listing or a row of a search
   * answer. The two endpoints select different columns; only the search
   * rows carry `eval_id`.
   */
  datatype TableRow = ListingEntry(row: ListingRow) | SearchEntry(hit: SearchRow)
  {
    function Score(): real {
      match this
      case ListingEntry(r) => r.score
      case SearchEntry(h) => h.score
    }

    function Quarter(): string {
      match this
      case ListingEntry(r) => r.quarter
      case SearchEntry(h) => h.quarter
    }

    function Year(): int {
      match this
      case ListingEntry(r) => r.year
      case SearchEntry(h) => h.year
    }
  }

  function ListingEntries(rows: seq<ListingRow>): (r: seq<TableRow>)
    ensures |r| == |rows|
    ensures forall k :: 0 <= k < |rows| ==> r[k] == ListingEntry(rows[k])
  {
    seq(|rows|, k requires 0 <= k < |rows| => ListingEntry(rows[k]))
  }

  function SearchEntries(rows: seq<SearchRow>): (r: seq<TableRow>)
    ensures |r| == |rows|
    ensures forall k :: 0 <= k < |rows| ==> r[k] == SearchEntry(rows[k])
  {
    seq(|rows|, k requires 0 <= k < |rows| => SearchEntry(rows[k]))
  }

  /** The value of a row's column for sorting: a number for score and year, text for quarter, undefined otherwise. */
  datatype SortKey = NumKey(x: real) | TextKey(s: string) | NoKey

  function KeyOf(row: TableRow, orderBy: string): SortKey {
    if orderBy == "score" then NumKey(row.Score())
    else if orderBy == "year" then NumKey(row.Year() as real)
    else if orderBy == "quarter" then TextKey(row.Quarter())
    else NoKey
  }

  /** JavaScript `<` on two keys; any comparison with undefined is false. */
  predicate KeyLess(a: SortKey, b: SortKey) {
    match (a, b)
    case (NumKey(x), NumKey(y)) => x < y
    case (TextKey(s), TextKey(t)) => StrLess(s, t)
    case _ => false
  }

  lemma KeyLessAsymmetric(a: SortKey, b: SortKey)
    ensures !(KeyLess(a, b) && KeyLess(b, a))
  {
    if a.TextKey? && b.TextKey? {
      StrLessTrichotomy(a.s, b.s);
    }
  }

  /** -1 when a's key is the greater, 1 when b's key is the greater, 0 otherwise. */
  function DescendingComparator(a: TableRow, b: TableRow, orderBy: string): (c: int)
    ensures c == -1 <==> KeyLess(KeyOf(b, orderBy), KeyOf(a, orderBy))
    ensures c == 1 <==> KeyLess(KeyOf(a, orderBy), KeyOf(b, orderBy))
    ensures c == 0 <==> !KeyLess(KeyOf(a, orderBy), KeyOf(b, orderBy)) && !KeyLess(KeyOf(b, orderBy), KeyOf(a, orderBy))
  {
    KeyLessAsymmetric(KeyOf(a, orderBy), KeyOf(b, orderBy));
    if KeyLess(KeyOf(b, orderBy), KeyOf(a, orderBy)) then -1
    else if KeyLess(KeyOf(a, orderBy), KeyOf(b, orderBy)) then 1
    else 0
  }

  /** The table comparator: the descending comparison, negated unless the order is "desc". */
  function Compare(order: string, orderBy: string, a: TableRow, b: TableRow): (c: int)
    ensures -1 <= c <= 1
    ensures c < 0 <==> if order == "desc" then KeyLess(KeyOf(b, orderBy), KeyOf(a, orderBy))
                       else KeyLess(KeyOf(a, orderBy), KeyOf(b, orderBy))
    ensures c == 0 <==> !KeyLess(KeyOf(a, orderBy), KeyOf(b, orderBy)) && !KeyLess(KeyOf(b, orderBy), KeyOf(a, orderBy))
  {
    if order == "desc" then DescendingComparator(a, b, orderBy) else -DescendingComparator(a, b, orderBy)
  }

  /** Both comparators are antisymmetric and the ascending one is the negated descending one. */
  lemma ComparatorAntisymmetric(order: string, orderBy: string, a: TableRow, b: TableRow)
    ensures DescendingComparator(a, b, orderBy) == -DescendingComparator(b, a, orderBy)
    ensures DescendingComparator(a, a, orderBy) == 0
    ensures Compare(order, orderBy, a, b) == -Compare(order, orderBy, b, a)
    ensures order != "desc" ==> Compare(order, orderBy, a, b) == -Compare("desc", orderBy, a, b)
  {
    KeyLessAsymmetric(KeyOf(a, orderBy), KeyOf(b, orderBy));
    KeyLessAsymmetric(KeyOf(a, orderBy), KeyOf(a, orderBy));
  }

  /** For the keys of one column, "not less" is transitive: the keys are totally ordered or all undefined. */
  lemma KeyNotLessTransitive(orderBy: string, a: TableRow, b: TableRow, c: TableRow)
    requires !KeyLess(KeyOf(a, orderBy), KeyOf(b, orderBy)) && !KeyLess(KeyOf(b, orderBy), KeyOf(c, orderBy))
    ensures !KeyLess(KeyOf(a, orderBy), KeyOf(c, orderBy))
  {
    if orderBy == "quarter" {
      var x, y, z := a.Quarter(), b.Quarter(), c.Quarter();
      StrLessTrichotomy(x, y);
      StrLessTrichotomy(y, z);
      StrLessTrichotomy(x, z);
      if StrLess(x, z) {
        if StrLess(y, x) && StrLess(z, y) {
          StrLessTransitive(z, y, x);
        } else if StrLess(y, x) {
          StrLessIrreflexive(x);
        } else if StrLess(z, y) {
          StrLessIrreflexive(z);
        } else {
          StrLessIrreflexive(x);
        }
      }
    }
  }

  /** "May come before" under the table's comparator. */
  function Precedes(order: string, orderBy: string): (TableRow, TableRow) -> bool {
    (a, b) => Compare(order, orderBy, a, b) <= 0
  }

  lemma PrecedesIsTotalPreorder(order: string, orderBy: string)
    ensures TotalPreorder(Precedes(order, orderBy))
  {
    var le := Precedes(order, orderBy);
    forall a, b
      ensures le(a, b) || le(b, a)
    {
      ComparatorAntisymmetric(order, orderBy, a, b);
    }
    forall a, b, c | le(a, b) && le(b, c)
      ensures le(a, c)
    {
      if order == "desc" {
        KeyNotLessTransitive(orderBy, a, b, c);
      } else {
        KeyNotLessTransitive(orderBy, c, b, a);
      }
    }
  }

  /** The rows in the order of the table comparator (a stable sort). */
  function SortRows(results: seq<TableRow>, order: string, orderBy: string): seq<TableRow> {
    SortBy(results, Precedes(order, orderBy))
  }

  /**
   * The rendered table is a permutation of the results whose keys do not
   * increase under desc and do not decrease otherwise.
   */
  lemma SortRowsOrdered(results: seq<TableRow>, order: string, orderBy: string)
    ensures multiset(SortRows(results, order, orderBy)) == multiset(results)
    ensures var s := SortRows(results, order, orderBy);
      forall i, j :: 0 <= i < j < |s| ==>
        if order == "desc" then !KeyLess(KeyOf(s[i], orderBy), KeyOf(s[j], orderBy))
        else !KeyLess(KeyOf(s[j], orderBy), KeyOf(s[i], orderBy))
  {
    PrecedesIsTotalPreorder(order, orderBy);
    SortBySorted(results, Precedes(order, orderBy));
  }

  // ---------------------------------------------------------------------------
  // Pages
  // ---------------------------------------------------------------------------

  const Limit: nat := 10

  /** The request offset of a page; pages are numbered from 1. */
  function Offset(page: nat): (offset: nat)
    requires page >= 1
    ensures offset == (page - 1) * Limit
  {
    (page - 1) * Limit
  }

  /** The number of pages: the total divided by the page size, rounded up; one page when the total is 0. */
  function PageCount(totalCount: nat): (pages: nat)
    ensures pages >= 1
    ensures totalCount == 0 ==> pages == 1
    ensures totalCount > 0 ==> (pages - 1) * Limit < totalCount <= pages * Limit
  {
    if totalCount > 0 then (totalCount + Limit - 1) / Limit else 1
  }

  /**
   * When every evaluation appears in the join, each page the pagination
   * offers is answered with rows, and a page past the last one with 404.
   * The page's limit and offset travel as their decimal texts.
   */
  lemma OfferedPagesAreNonEmpty(ordered: seq<JoinedEvaluation>, page: nat)
    requires |ordered| > 0 && page >= 1 && Offset(page) <= Int8Max
    ensures var r := GetSkillEvaluation(ordered, |ordered|, Some(IntToDecimal(Limit)), Some(IntToDecimal(Offset(page))));
      && (r.Ok? <==> page <= PageCount(|ordered|))
      && (r.NotFound? <==> page > PageCount(|ordered|))
  {
    BoundOfDecimal(Limit);
    BoundOfDecimal(Offset(page));
    var pages := PageCount(|ordered|);
    if page <= pages {
      assert (page - 1) * Limit <= (pages - 1) * Limit;
    } else {
      assert (page - 1) * Limit >= pages * Limit;
    }
  }

  // ---------------------------------------------------------------------------
  // Sort header
  // ---------------------------------------------------------------------------

  /** handleSortRequest: the clicked column becomes orderBy; only a click on the active ascending column gives desc. */
  function SortToggle(order: string, orderBy: string, property: string): (next: (string, string))
    ensures next.1 == property
    ensures next.0 == "desc" <==> orderBy == property && order == "asc"
    ensures next.0 == "asc" || next.0 == "desc"
  {
    var isAsc := orderBy == property && order == "asc";
    (if isAsc then "desc" else "asc", property)
  }

  /** Clicking the same column again always flips the direction. */
  lemma SortToggleAlternates(order: string, orderBy: string, property: string)
    ensures var first := SortToggle(order, orderBy, property);
      var second := SortToggle(first.0, first.1, property);
      second.1 == property && second.0 != first.0
  {
  }

  // ---------------------------------------------------------------------------
  // Page state
  // ---------------------------------------------------------------------------

  /** What `fetchData` asks the server for. `None` is a parameter left undefined. */
  datatype Request =
    | ListingRequest(limit: nat, offset: nat, sortBy: string, order: string)
    | SearchRequest(empId: Option<string>, department: Option<string>, skill: Option<string>)

  function OrDefault(s: string, default: string): string {
    if s != "" then s else default
  }

  function OrUndefined(s: string): Option<string> {
    if s != "" then Some(s) else None
  }

  class AssessmentsPage {
    var results: seq<TableRow>
    var selectedDept: string
    var selectedSkill: string
    var selectedEmpId: string
    var page: nat
    var pages: nat
    var order: string
    var orderBy: string

    ghost predicate Valid()
      reads this
    {
      && page >= 1
      && (order == "asc" || order == "desc")
      && (orderBy == "" || orderBy in AllowedSortBy)
    }

    constructor ()
      ensures Valid()
      ensures results == [] && selectedDept == "" && selectedSkill == "" && selectedEmpId == ""
      ensures page == 1 && pages == 0 && order == "asc" && orderBy == ""
    {
      results := [];
      selectedDept := "";
      selectedSkill := "";
      selectedEmpId := "";
      page := 1;
      pages := 0;
      order := "asc";
      orderBy := "";
    }

    /** The listing is used iff no filter is set. */
    predicate UsesListing()
      reads this
    {
      selectedEmpId == "" && selectedDept == "" && selectedSkill == ""
    }

    function NextRequest(): (req: Request)
      reads this
      requires Valid()
      ensures req.ListingRequest? <==> UsesListing()
    {
      if UsesListing() then ListingRequest(Limit, Offset(page), OrDefault(orderBy, "year"), OrDefault(order, "asc"))
      else SearchRequest(OrUndefined(selectedEmpId), OrUndefined(selectedDept), OrUndefined(selectedSkill))
    }

    /** Pagination is drawn iff there are results and no filter is set. */
    predicate ShowPagination()
      reads this
    {
      |results| > 0 && UsesListing()
    }

    /**
     * The pager is drawn exactly when there are results and the page is on the
     * listing path; the page it shows is the one the listing request fetches.
     */
    lemma PaginationFollowsPath()
      requires Valid()
      ensures ShowPagination() <==> |results| > 0 && NextRequest().ListingRequest?
      ensures ShowPagination() ==> NextRequest() == ListingRequest(Limit, Offset(page), OrDefault(orderBy, "year"), order)
      ensures !ShowPagination() && |results| > 0 ==> NextRequest().SearchRequest?
    {
    }

    method HandleSortRequest(property: string)
      requires Valid() && property in AllowedSortBy
      modifies this
      ensures Valid()
      ensures (order, orderBy) == SortToggle(old(order), old(orderBy), property)
      ensures results == old(results) && page == old(page) && pages == old(pages)
      ensures selectedEmpId == old(selectedEmpId) && selectedDept == old(selectedDept) && selectedSkill == old(selectedSkill)
    {
      var isAsc := orderBy == property && order == "asc";
      order := if isAsc then "desc" else "asc";
      orderBy := property;
    }

    method HandlePageChange(value: nat)
      requires Valid() && value >= 1
      modifies this
      ensures Valid() && page == value
      ensures results == old(results) && pages == old(pages) && order == old(order) && orderBy == old(orderBy)
      ensures selectedEmpId == old(selectedEmpId) && selectedDept == old(selectedDept) && selectedSkill == old(selectedSkill)
    {
      page := value;
    }

    method HandleClearSearch()
      requires Valid()
      modifies this
      ensures Valid() && UsesListing() && page == 1
      ensures results == old(results) && pages == old(pages) && order == old(order) && orderBy == old(orderBy)
    {
      selectedEmpId := "";
      selectedDept := "";
      selectedSkill := "";
      page := 1;
    }

    method HandleDeptChange(value: string)
      requires Valid()
      modifies this
      ensures Valid() && selectedDept == value && page == 1
      ensures results == old(results) && pages == old(pages) && order == old(order) && orderBy == old(orderBy)
      ensures selectedEmpId == old(selectedEmpId) && selectedSkill == old(selectedSkill)
    {
      selectedDept := value;
      page := 1;
    }

    method HandleSkillChange(value: string)
      requires Valid()
      modifies this
      ensures Valid() && selectedSkill == value && page == 1
      ensures results == old(results) && pages == old(pages) && order == old(order) && orderBy == old(orderBy)
      ensures selectedEmpId == old(selectedEmpId) && selectedDept == old(selectedDept)
    {
      selectedSkill := value;
      page := 1;
    }

    /** The employee picker: the chosen id (or none), back to page 1. */
    method HandleEmployeeChange(empId: string)
      requires Valid()
      modifies this
      ensures Valid() && selectedEmpId == empId && page == 1
      ensures results == old(results) && pages == old(pages) && order == old(order) && orderBy == old(orderBy)
      ensures selectedDept == old(selectedDept) && selectedSkill == old(selectedSkill)
    {
      selectedEmpId := empId;
      page := 1;
    }

    /** The answer to a listing request: its rows and page count, or nothing and one page. */
    method OnListingResponse(resp: Response<Listing>)
      requires Valid()
      modifies this
      ensures Valid()
      ensures resp.Ok? ==> results == ListingEntries(resp.body.result) && pages == PageCount(resp.body.dataSize)
      ensures !resp.Ok? ==> results == [] && pages == 1
      ensures page == old(page) && order == old(order) && orderBy == old(orderBy)
      ensures selectedEmpId == old(selectedEmpId) && selectedDept == old(selectedDept) && selectedSkill == old(selectedSkill)
    {
      if resp.Ok? {
        results := ListingEntries(resp.body.result);
        var totalCount := resp.body.dataSize;
        pages := if totalCount > 0 then (totalCount + Limit - 1) / Limit else 1;
      } else {
        results := [];
        pages := 1;
      }
    }

    /** The answer to a search request: its rows, the page count untouched; on error nothing and one page. */
    method OnSearchResponse(resp: Response<seq<SearchRow>>)
      requires Valid()
      modifies this
      ensures Valid()
      ensures resp.Ok? ==> results == SearchEntries(resp.body) && pages == old(pages)
      ensures !resp.Ok? ==> results == [] && pages == 1
      ensures page == old(page) && order == old(order) && orderBy == old(orderBy)
      ensures selectedEmpId == old(selectedEmpId) && selectedDept == old(selectedDept) && selectedSkill == old(selectedSkill)
    {
      if resp.Ok? {
        results := SearchEntries(resp.body);
      } else {
        results := [];
        pages := 1;
      }
    }
  }

  /**
   * The id the Delete button of a row puts in the path: a search row's
   * eval_id as decimal text; a listing row has no eval_id, which the path
   * spells "undefined".
   */
  function DeleteParam(row: TableRow): string {
    match row
    case ListingEntry(_) => "undefined"
    case SearchEntry(h) => IntToDecimal(h.evalId)
  }

  /**
   * Deleting from the listing can never succeed: the id the column is given
   * is not an integer, so the DELETE fails (500). Deleting a search row
   * deletes by its own eval_id.
   */
  lemma DeleteParamMeaning(row: TableRow)
    ensures row.ListingEntry? ==> ParsePgInt(DeleteParam(row)).None?
    ensures row.SearchEntry? ==> ParsePgInt(DeleteParam(row)) == if InInt4(row.hit.evalId) then Some(row.hit.evalId) else None
  {
    if row.SearchEntry? {
      PgIntOfDecimal(row.hit.evalId);
    } else {
      var u := "undefined";
      assert PgTrimStart(u) == u;
      assert PgTrimEnd(u) == u;
      assert !IsDigit(u[0]);
    }
  }

  /**
   * The listing request a valid page state sends is honoured as sent: the
   * server sorts by the chosen column (year when none is chosen) in the chosen
   * direction.
   */
  lemma ListingHonoursSortState(orderBy: string, order: string)
    requires orderBy == "" || orderBy in AllowedSortBy
    requires order == "asc" || order == "desc"
    ensures SortColumn(Some(OrDefault(orderBy, "year"))) == (if orderBy == "" then "year" else orderBy)
    ensures SortOrder(Some(OrDefault(order, "asc"))) == (if order == "desc" then "DESC" else "ASC")
  {
    assert Lower("desc") == "desc";
    assert Lower("asc") == "asc";
  }

  /** A search request carries at least one filter, so the server's query has at least one AND clause. */
  lemma SearchRequestHasClause(empId: string, department: string, skill: string)
    requires !(empId == "" && department == "" && skill == "")
    ensures |Supplied(empId, department, skill)| >= 1
  {
    if empId != "" {
      assert (ByEmployee, empId) in Supplied(empId, department, skill);
    } else if department != "" {
      assert (ByDepartment, department) in Supplied(empId, department, skill);
    } else {
      assert (BySkill, skill) in Supplied(empId, department, skill);
    }
  }
}
