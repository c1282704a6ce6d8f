/**
 * backend/controllers/evaluationController.js: the paginated listing with its
 * sort allow-list, the filtered search with its dynamically built WHERE
 * clause, the insert with its skill-level classification, the update of every
 * row matching a composite key, and the delete by id.
 */
module EvaluationController {
  import opened Common
  import opened EvaluationStore

  // ---------------------------------------------------------------------------
  // Skill level of a new evaluation
  // ---------------------------------------------------------------------------

  /** The documented score band of each level; both ends belong to the band. */
  function LowestScore(level: SkillLevel): real {
    match level
    case Beginner => 0.0
    case Intermediate => 4.0
    case Advanced => 7.0
    case Expert => 9.0
  }

  function HighestScore(level: SkillLevel): real {
    match level
    case Beginner => 3.0
    case Intermediate => 6.0
    case Advanced => 8.0
    case Expert => 10.0
  }

  predicate InBand(score: real, level: SkillLevel) {
    LowestScore(level) <= score <= HighestScore(level)
  }

  /** A score gets the level whose band holds it, and no level (NULL) when no band does. */
  function Classify(score: real): (level: Option<SkillLevel>)
    ensures forall l :: level == Some(l) <==> InBand(score, l)
  {
    if 0.0 <= score <= 3.0 then Some(Beginner)
    else if 4.0 <= score <= 6.0 then Some(Intermediate)
    else if 7.0 <= score <= 8.0 then Some(Advanced)
    else if 9.0 <= score <= 10.0 then Some(Expert)
    else None
  }

  /** The unclassified scores: outside [0, 10] or strictly inside one of the three gaps. */
  lemma ClassifyUnclassified(score: real)
    ensures Classify(score) == None <==>
      score < 0.0 || 10.0 < score || 3.0 < score < 4.0 || 6.0 < score < 7.0 || 8.0 < score < 9.0
  {
    if Classify(score) == None {
      assert !InBand(score, Beginner) && !InBand(score, Intermediate);
      assert !InBand(score, Advanced) && !InBand(score, Expert);
    }
  }

  // ---------------------------------------------------------------------------
  // Listing: sort allow-list and LIMIT/OFFSET window
  // ---------------------------------------------------------------------------

  const AllowedSortBy: seq<string> := ["score", "quarter", "year"]
  const AllowedOrder: seq<string> := ["asc", "desc"]

  /** The ORDER BY column: the requested one when it is allowed (case-sensitively), else `year`. */
  function SortColumn(sortBy: Option<string>): (column: string)
    ensures column in AllowedSortBy
    ensures sortBy.Some? && sortBy.value in AllowedSortBy ==> column == sortBy.value
    ensures sortBy.None? || sortBy.value !in AllowedSortBy ==> column == "year"
  {
    var s := if sortBy.Some? then sortBy.value else "year";
    if s in AllowedSortBy then s else "year"
  }

  lemma OrderWords(o: string)
    ensures Lower(o) == "asc" ==> Upper(o) == "ASC"
    ensures Lower(o) == "desc" ==> Upper(o) == "DESC"
  {
    if Lower(o) == "asc" {
      UpperOfLowered(o, "asc");
      assert Upper("asc") == "ASC";
    }
    if Lower(o) == "desc" {
      UpperOfLowered(o, "desc");
      assert Upper("desc") == "DESC";
    }
  }

  /**
   * The ORDER BY direction: the request matched case-insensitively against
   * asc/desc and emitted upper-case; anything else, or nothing, gives ASC.
   */
  function SortOrder(order: Option<string>): (direction: string)
    ensures direction == "ASC" || direction == "DESC"
    ensures direction == "DESC" <==> order.Some? && Lower(order.value) == "desc"
  {
    var o := if order.Some? then order.value else "asc";
    OrderWords(o);
    if Lower(o) in AllowedOrder then Upper(o) else "ASC"
  }

  /** Whatever the request says, the interpolated ORDER BY text is one of six fixed texts. */
  function OrderByClause(sortBy: Option<string>, order: Option<string>): (clause: string)
    ensures clause in {
      "ORDER BY se.score ASC", "ORDER BY se.score DESC",
      "ORDER BY se.quarter ASC", "ORDER BY se.quarter DESC",
      "ORDER BY se.year ASC", "ORDER BY se.year DESC" }
  {
    var column, direction := SortColumn(sortBy), SortOrder(order);
    OrderByTexts(column, direction);
    "ORDER BY se." + column + " " + direction
  }

  lemma OrderByTexts(column: string, direction: string)
    requires column in AllowedSortBy && (direction == "ASC" || direction == "DESC")
    ensures "ORDER BY se." + column + " " + direction in {
      "ORDER BY se.score ASC", "ORDER BY se.score DESC",
      "ORDER BY se.quarter ASC", "ORDER BY se.quarter DESC",
      "ORDER BY se.year ASC", "ORDER BY se.year DESC" }
  {
    assert "ORDER BY se." + "score" + " " + "ASC" == "ORDER BY se.score ASC";
    assert "ORDER BY se." + "score" + " " + "DESC" == "ORDER BY se.score DESC";
    assert "ORDER BY se." + "quarter" + " " + "ASC" == "ORDER BY se.quarter ASC";
    assert "ORDER BY se." + "quarter" + " " + "DESC" == "ORDER BY se.quarter DESC";
    assert "ORDER BY se." + "year" + " " + "ASC" == "ORDER BY se.year ASC";
    assert "ORDER BY se." + "year" + " " + "DESC" == "ORDER BY se.year DESC";
  }

  /** A row of the join of Employee, Department, SkillEvaluation and Skill. */
  datatype JoinedEvaluation = JoinedEvaluation(
    evalId: int,
    empId: int,
    empName: string,
    deptName: string,
    skillName: string,
    skillLevel: Option<SkillLevel>,
    score: real,
    maxScore: real,
    quarter: string,
    year: int,
    comment: Option<string>)

  /** The columns the listing selects: no eval_id, emp_id or comment. */
  datatype ListingRow = ListingRow(
    empName: string,
    deptName: string,
    skillName: string,
    skillLevel: Option<SkillLevel>,
    score: real,
    maxScore: real,
    quarter: string,
    year: int)

  function ListingColumns(j: JoinedEvaluation): ListingRow {
    ListingRow(j.empName, j.deptName, j.skillName, j.skillLevel, j.score, j.maxScore, j.quarter, j.year)
  }

  /** The listing body: one page of rows and the number of rows of SkillEvaluation. */
  datatype Listing = Listing(result: seq<ListingRow>, dataSize: nat)

  function Min(a: nat, b: nat): nat {
    if a <= b then a else b
  }

  /**
   * LIMIT `limit` OFFSET `offset`: the rows from position `offset` on, at
   * most `limit` of them; no limit (`None`, a NULL LIMIT) keeps all of them.
   */
  function Window<T>(rows: seq<T>, limit: Option<nat>, offset: nat): (w: seq<T>)
    ensures |w| == if offset >= |rows| then 0 else if limit.None? then |rows| - offset else Min(limit.value, |rows| - offset)
    ensures forall k :: 0 <= k < |w| ==> w[k] == rows[offset + k]
  {
    if offset >= |rows| then []
    else if limit.None? then rows[offset..]
    else rows[offset..offset + Min(limit.value, |rows| - offset)]
  }

  /**
   * A LIMIT or OFFSET parameter as the database reads it: an absent query
   * parameter is bound as NULL (`Some(None)`), a text is cast to bigint, and
   * a text the cast rejects or a negative value is an error (`None`).
   */
  function Bound(param: Option<string>): (b: Option<Option<nat>>)
    ensures param.None? ==> b == Some(None)
    ensures param.Some? ==> (b.Some? <==> ParsePgBigint(param.value).Some? && ParsePgBigint(param.value).value >= 0)
    ensures param.Some? && b.Some? ==> b.value == Some(ParsePgBigint(param.value).value)
  {
    if param.None? then Some(None)
    else
      var n := ParsePgBigint(param.value);
      if n.Some? && n.value >= 0 then Some(Some(n.value)) else None
  }

  /** A bound sent as the decimal text of a number the bigint column holds is that number. */
  lemma BoundOfDecimal(n: nat)
    requires n <= Int8Max
    ensures Bound(Some(IntToDecimal(n))) == Some(Some(n))
  {
    PgBigintOfDecimal(n);
  }

  /** The projected rows of a page. */
  function ListingRows(page: seq<JoinedEvaluation>): (r: seq<ListingRow>)
    ensures |r| == |page|
  {
    seq(|page|, k requires 0 <= k < |page| => ListingColumns(page[k]))
  }

  /**
   * getSkillEvaluation over the rows of the join in the order its ORDER BY
   * clause gives them; `evaluationCount` is the COUNT(*) of SkillEvaluation.
   * `limit` and `offset` are the query parameters as sent, `None` when
   * absent. A bad bound is a database error (500); an empty page is 404,
   * never a server error.
   */
  function GetSkillEvaluation(ordered: seq<JoinedEvaluation>, evaluationCount: nat,
                              limit: Option<string>, offset: Option<string>): (r: Response<Listing>)
    ensures r.ServerError? <==> Bound(limit).None? || Bound(offset).None?
    ensures !r.ServerError? ==> var lim, off := Bound(limit).value, Bound(offset).value;
      var start := if off.Some? then off.value else 0;
      && (r.NotFound? <==> lim == Some(0) || start >= |ordered|)
      && (r.Ok? ==> && |r.body.result| == |Window(ordered, lim, start)|
                    && (forall k :: 0 <= k < |r.body.result| ==> r.body.result[k] == ListingColumns(ordered[start + k]))
                    && r.body.dataSize == evaluationCount)
  {
    var lim, off := Bound(limit), Bound(offset);
    if lim.None? || off.None? then ServerError
    else
      var start := if off.value.Some? then off.value.value else 0;
      var page := Window(ordered, lim.value, start);
      if |page| == 0 then NotFound else Ok(Listing(ListingRows(page), evaluationCount))
  }

  // ---------------------------------------------------------------------------
  // Search: WHERE 1=1 followed by one clause per supplied filter
  // ---------------------------------------------------------------------------

  datatype SearchFilter = ByEmployee | ByDepartment | BySkill

  /** An appended clause: which filter it tests and the number of its `$n` placeholder. */
  datatype Clause = Clause(filter: SearchFilter, placeholder: nat)

  const SearchBase: string :=
    "SELECT e.emp_name, d.dept_name, s.skill_name, se.score, se.max_score, se.quarter, se.year, se.comment, se.eval_id FROM Employee e JOIN Department d ON e.dept_id = d.dept_id JOIN SkillEvaluation se ON e.emp_id = se.emp_id JOIN Skill s ON se.skill_id = s.skill_id WHERE 1=1"

  /** The text the handler appends for a clause, `$n` naming the n-th bound value. */
  function ClauseText(c: Clause): string {
    match c.filter
    case ByEmployee => " AND e.emp_id = $" + NatToDecimal(c.placeholder)
    case ByDepartment => " AND LOWER(d.dept_name) = LOWER($" + NatToDecimal(c.placeholder) + ")"
    case BySkill => " AND LOWER(s.skill_name) = LOWER($" + NatToDecimal(c.placeholder) + ")"
  }

  function ClausesText(cs: seq<Clause>): string
    decreases |cs|
  {
    if cs == [] then "" else ClausesText(cs[..|cs| - 1]) + ClauseText(cs[|cs| - 1])
  }

  /** The position of each filter in the handler's fixed order. */
  function Rank(f: SearchFilter): nat {
    match f
    case ByEmployee => 0
    case ByDepartment => 1
    case BySkill => 2
  }

  function RequestValue(f: SearchFilter, empId: string, department: string, skill: string): string {
    match f
    case ByEmployee => empId
    case ByDepartment => department
    case BySkill => skill
  }

  /**
   * The filters a request supplies, each with its value: exactly the
   * non-empty ones, in the order employee, department, skill.
   */
  function Supplied(empId: string, department: string, skill: string): (fs: seq<(SearchFilter, string)>)
    ensures forall k :: 0 <= k < |fs| ==> fs[k].1 == RequestValue(fs[k].0, empId, department, skill) != ""
    ensures forall f :: RequestValue(f, empId, department, skill) != "" ==> (f, RequestValue(f, empId, department, skill)) in fs
    ensures forall i, j :: 0 <= i < j < |fs| ==> Rank(fs[i].0) < Rank(fs[j].0)
  {
    (if empId != "" then [(ByEmployee, empId)] else [])
    + (if department != "" then [(ByDepartment, department)] else [])
    + (if skill != "" then [(BySkill, skill)] else [])
  }

  /** Clause k (from 0) gets placeholder k + 1. */
  function Numbered(fs: seq<(SearchFilter, string)>): seq<Clause> {
    seq(|fs|, k requires 0 <= k < |fs| => Clause(fs[k].0, k + 1))
  }

  function BoundValues(fs: seq<(SearchFilter, string)>): seq<string> {
    seq(|fs|, k requires 0 <= k < |fs| => fs[k].1)
  }

  /**
   * searchSkillEvaluation's text and parameter building: `query` starts as
   * the base text ending in `WHERE 1=1`, then grows by one AND clause per
   * supplied filter while `values` grows by that filter's value.
   */
  method BuildSearchQuery(empId: string, department: string, skill: string)
    returns (query: string, values: seq<string>)
    ensures query == SearchBase + ClausesText(Numbered(Supplied(empId, department, skill)))
    ensures values == BoundValues(Supplied(empId, department, skill))
    ensures empId == "" && department == "" && skill == "" ==> query == SearchBase && values == []
  {
    query, values := AppendFilters(SearchBase, empId, department, skill);
  }

  /** The three `if` blocks of the builder, from any starting text. */
  method AppendFilters(base: string, empId: string, department: string, skill: string)
    returns (query: string, values: seq<string>)
    ensures query == base + ClausesText(Numbered(Supplied(empId, department, skill)))
    ensures values == BoundValues(Supplied(empId, department, skill))
  {
    query := base;
    values := [];
    ghost var fs: seq<(SearchFilter, string)> := [];
    ghost var emp := if empId != "" then [(ByEmployee, empId)] else [];
    ghost var dept := if department != "" then [(ByDepartment, department)] else [];
    ghost var sk := if skill != "" then [(BySkill, skill)] else [];
    assert Built(base, query, values, fs);
    if empId != "" {
      ghost var before := query;
      query := query + " AND e.emp_id = $" + NatToDecimal(|values| + 1);
      ClauseTextSplits(before, |values| + 1);
      Extend(base, fs, (ByEmployee, empId), before, query, values);
      values := values + [empId];
      fs := fs + [(ByEmployee, empId)];
    }
    assert fs == emp;
    if department != "" {
      ghost var before := query;
      query := query + " AND LOWER(d.dept_name) = LOWER($" + NatToDecimal(|values| + 1) + ")";
      ClauseTextSplits(before, |values| + 1);
      Extend(base, fs, (ByDepartment, department), before, query, values);
      values := values + [department];
      fs := fs + [(ByDepartment, department)];
    }
    assert fs == emp + dept;
    if skill != "" {
      ghost var before := query;
      query := query + " AND LOWER(s.skill_name) = LOWER($" + NatToDecimal(|values| + 1) + ")";
      ClauseTextSplits(before, |values| + 1);
      Extend(base, fs, (BySkill, skill), before, query, values);
      values := values + [skill];
      fs := fs + [(BySkill, skill)];
    }
    assert fs == emp + dept + sk;
  }

  /** The builder's state: the text and the values stand for the filters `fs` taken so far. */
  ghost predicate Built(base: string, query: string, values: seq<string>, fs: seq<(SearchFilter, string)>) {
    query == base + ClausesText(Numbered(fs)) && values == BoundValues(fs)
  }

  /** One step of the builder keeps the text and values in step with the filters so far. */
  lemma Extend(base: string, fs: seq<(SearchFilter, string)>, x: (SearchFilter, string),
               before: string, query: string, values: seq<string>)
    requires Built(base, before, values, fs)
    requires query == before + ClauseText(Clause(x.0, |values| + 1))
    ensures Built(base, query, values + [x.1], fs + [x])
  {
    NumberedSnoc(fs, x);
    var t, c := ClausesText(Numbered(fs)), ClauseText(Clause(x.0, |fs| + 1));
    assert query == (base + t) + c;
    AppendAssoc(base, t, c);
  }

  /** The three texts the handler appends, as the concatenations it writes. */
  lemma ClauseTextSplits(before: string, n: nat)
    ensures before + " AND e.emp_id = $" + NatToDecimal(n) == before + ClauseText(Clause(ByEmployee, n))
    ensures before + " AND LOWER(d.dept_name) = LOWER($" + NatToDecimal(n) + ")"
      == before + ClauseText(Clause(ByDepartment, n))
    ensures before + " AND LOWER(s.skill_name) = LOWER($" + NatToDecimal(n) + ")"
      == before + ClauseText(Clause(BySkill, n))
  {
    var d := NatToDecimal(n);
    assert (before + " AND e.emp_id = $") + d == before + (" AND e.emp_id = $" + d);
    assert ((before + " AND LOWER(d.dept_name) = LOWER($") + d) + ")"
      == before + ((" AND LOWER(d.dept_name) = LOWER($" + d) + ")");
    assert ((before + " AND LOWER(s.skill_name) = LOWER($") + d) + ")"
      == before + ((" AND LOWER(s.skill_name) = LOWER($" + d) + ")");
  }

  lemma NumberedSnoc(fs: seq<(SearchFilter, string)>, x: (SearchFilter, string))
    ensures Numbered(fs + [x]) == Numbered(fs) + [Clause(x.0, |fs| + 1)]
    ensures ClausesText(Numbered(fs + [x])) == ClausesText(Numbered(fs)) + ClauseText(Clause(x.0, |fs| + 1))
    ensures BoundValues(fs + [x]) == BoundValues(fs) + [x.1]
  {
    var n := Numbered(fs + [x]);
    assert n[..|n| - 1] == Numbered(fs);
  }

  /** Each clause of a longer query extends the text of the shorter one. */
  lemma {:induction false} ClausesTextPrefix(cs: seq<Clause>, k: nat)
    requires k <= |cs|
    ensures ClausesText(cs[..k]) <= ClausesText(cs)
    decreases |cs| - k
  {
    if k < |cs| {
      ClausesTextPrefix(cs, k + 1);
      assert cs[..k + 1][..k] == cs[..k];
    } else {
      assert cs[..k] == cs;
    }
  }

  /** PostgreSQL evaluation of one predicate with its bound value. */
  predicate ClauseHolds(row: JoinedEvaluation, f: SearchFilter, v: string) {
    match f
    case ByEmployee => ParsePgInt(v) == Some(row.empId)
    case ByDepartment => Lower(row.deptName) == Lower(v)
    case BySkill => Lower(row.skillName) == Lower(v)
  }

  /** The row satisfies every clause, each reading the value bound to its `$n`. */
  predicate QueryHolds(row: JoinedEvaluation, cs: seq<Clause>, values: seq<string>) {
    forall c :: c in cs ==> 1 <= c.placeholder <= |values| && ClauseHolds(row, c.filter, values[c.placeholder - 1])
  }

  /** The employee-id column cannot take the text `v`. */
  predicate Uncastable(v: string) {
    ParsePgInt(v).None?
  }

  /** Some employee clause is bound to a value meeting `p`. */
  predicate SomeEmployeeValue(cs: seq<Clause>, values: seq<string>, p: string -> bool) {
    exists c :: c in cs && c.filter == ByEmployee && 1 <= c.placeholder <= |values| && p(values[c.placeholder - 1])
  }

  /** Some employee clause is bound to a value the integer column cannot take. */
  predicate CastFails(cs: seq<Clause>, values: seq<string>) {
    SomeEmployeeValue(cs, values, Uncastable)
  }

  /** The search contract in the terms of the request: the supplied filters, conjunctively. */
  predicate RequestMatches(row: JoinedEvaluation, empId: string, department: string, skill: string) {
    && (empId != "" ==> ParsePgInt(empId) == Some(row.empId))
    && (department != "" ==> Lower(row.deptName) == Lower(department))
    && (skill != "" ==> Lower(row.skillName) == Lower(skill))
  }

  /** Clause k reads value k: the query holds when every supplied filter holds with its own value. */
  lemma QueryHoldsIndexed(row: JoinedEvaluation, fs: seq<(SearchFilter, string)>)
    ensures QueryHolds(row, Numbered(fs), BoundValues(fs)) <==>
      forall k :: 0 <= k < |fs| ==> ClauseHolds(row, fs[k].0, fs[k].1)
  {
    EveryClauseIndexed(fs, (f, v) => ClauseHolds(row, f, v));
  }

  /** Clause k reads value k, so every clause meets `p` with its value exactly when every filter does. */
  lemma EveryClauseIndexed(fs: seq<(SearchFilter, string)>, p: (SearchFilter, string) -> bool)
    ensures (forall c :: c in Numbered(fs) ==>
        1 <= c.placeholder <= |BoundValues(fs)| && p(c.filter, BoundValues(fs)[c.placeholder - 1])) <==>
      forall k :: 0 <= k < |fs| ==> p(fs[k].0, fs[k].1)
  {
    var cs, vs := Numbered(fs), BoundValues(fs);
    if forall k :: 0 <= k < |fs| ==> p(fs[k].0, fs[k].1) {
      forall c | c in cs
        ensures 1 <= c.placeholder <= |vs| && p(c.filter, vs[c.placeholder - 1])
      {
        var k := NumberedAt(fs, c);
      }
    }
    if forall c :: c in cs ==> 1 <= c.placeholder <= |vs| && p(c.filter, vs[c.placeholder - 1]) {
      forall k | 0 <= k < |fs|
        ensures p(fs[k].0, fs[k].1)
      {
        assert cs[k] in cs && cs[k].placeholder - 1 == k && vs[k] == fs[k].1;
      }
    }
  }

  /** The cast fails exactly when some supplied employee value is not an integer in range. */
  lemma CastFailsIndexed(fs: seq<(SearchFilter, string)>)
    ensures CastFails(Numbered(fs), BoundValues(fs)) <==>
      exists k :: 0 <= k < |fs| && fs[k].0 == ByEmployee && ParsePgInt(fs[k].1).None?
  {
    SomeEmployeeValueIndexed(fs, Uncastable);
  }

  /** Clause k reads value k, so a property of some employee clause's value is one of some employee filter's value. */
  lemma SomeEmployeeValueIndexed(fs: seq<(SearchFilter, string)>, p: string -> bool)
    ensures SomeEmployeeValue(Numbered(fs), BoundValues(fs), p) <==>
      exists k :: 0 <= k < |fs| && fs[k].0 == ByEmployee && p(fs[k].1)
  {
    var cs, vs := Numbered(fs), BoundValues(fs);
    if SomeEmployeeValue(cs, vs, p) {
      var c :| c in cs && c.filter == ByEmployee && 1 <= c.placeholder <= |vs| && p(vs[c.placeholder - 1]);
      var k := NumberedAt(fs, c);
      assert fs[k].0 == ByEmployee && p(fs[k].1);
    }
    if exists k :: 0 <= k < |fs| && fs[k].0 == ByEmployee && p(fs[k].1) {
      var k :| 0 <= k < |fs| && fs[k].0 == ByEmployee && p(fs[k].1);
      assert cs[k] in cs && cs[k].placeholder - 1 == k && vs[k] == fs[k].1;
    }
  }

  /** A numbered clause reads the value of the filter it was made from. */
  lemma NumberedAt(fs: seq<(SearchFilter, string)>, c: Clause) returns (k: nat)
    requires c in Numbered(fs)
    ensures k < |fs| && c.placeholder == k + 1 && c.filter == fs[k].0
    ensures k < |BoundValues(fs)| && BoundValues(fs)[k] == fs[k].1
  {
    var cs := Numbered(fs);
    k :| 0 <= k < |cs| && cs[k] == c;
  }

  /** The built query means exactly the request's conjunction of filters. */
  lemma SearchQueryMeaning(row: JoinedEvaluation, empId: string, department: string, skill: string)
    ensures var fs := Supplied(empId, department, skill);
      QueryHolds(row, Numbered(fs), BoundValues(fs)) <==> RequestMatches(row, empId, department, skill)
    ensures var fs := Supplied(empId, department, skill);
      CastFails(Numbered(fs), BoundValues(fs)) <==> empId != "" && ParsePgInt(empId).None?
  {
    var fs := Supplied(empId, department, skill);
    QueryHoldsIndexed(row, fs);
    CastFailsIndexed(fs);
    if forall k :: 0 <= k < |fs| ==> ClauseHolds(row, fs[k].0, fs[k].1) {
      forall f | RequestValue(f, empId, department, skill) != ""
        ensures ClauseHolds(row, f, RequestValue(f, empId, department, skill))
      {
        var k :| 0 <= k < |fs| && fs[k] == (f, RequestValue(f, empId, department, skill));
      }
      assert empId != "" ==> ClauseHolds(row, ByEmployee, RequestValue(ByEmployee, empId, department, skill));
      assert department != "" ==> ClauseHolds(row, ByDepartment, RequestValue(ByDepartment, empId, department, skill));
      assert skill != "" ==> ClauseHolds(row, BySkill, RequestValue(BySkill, empId, department, skill));
    }
    if RequestMatches(row, empId, department, skill) {
      forall k | 0 <= k < |fs|
        ensures ClauseHolds(row, fs[k].0, fs[k].1)
      {
        assert fs[k].1 == RequestValue(fs[k].0, empId, department, skill);
      }
    }
    if empId != "" && ParsePgInt(empId).None? {
      var k :| 0 <= k < |fs| && fs[k] == (ByEmployee, empId);
    }
  }

  /** The rows the database returns for the clauses and values. */
  function Selected(rows: seq<JoinedEvaluation>, cs: seq<Clause>, values: seq<string>): seq<JoinedEvaluation>
    decreases |rows|
  {
    if rows == [] then []
    else
      var rest := Selected(rows[..|rows| - 1], cs, values);
      if QueryHolds(rows[|rows| - 1], cs, values) then rest + [rows[|rows| - 1]] else rest
  }

  /** The rows of the join the request selects, in their order. */
  function Matching(rows: seq<JoinedEvaluation>, empId: string, department: string, skill: string): (r: seq<JoinedEvaluation>)
    ensures forall k :: 0 <= k < |r| ==> RequestMatches(r[k], empId, department, skill)
    ensures forall k :: 0 <= k < |rows| && RequestMatches(rows[k], empId, department, skill) ==> rows[k] in r
    ensures IsSubsequence(r, rows)
    ensures forall x {:trigger multiset(r)[x]} :: multiset(r)[x] == if RequestMatches(x, empId, department, skill) then multiset(rows)[x] else 0
  {
    Filter(rows, x => RequestMatches(x, empId, department, skill))
  }

  lemma {:induction false} SelectedIsMatching(rows: seq<JoinedEvaluation>, empId: string, department: string, skill: string)
    ensures var fs := Supplied(empId, department, skill);
      Selected(rows, Numbered(fs), BoundValues(fs)) == Matching(rows, empId, department, skill)
    decreases |rows|
  {
    if rows != [] {
      SelectedIsMatching(rows[..|rows| - 1], empId, department, skill);
      SearchQueryMeaning(rows[|rows| - 1], empId, department, skill);
    }
  }

  /** With no filter the search returns every row of the join, as the unpaginated listing would. */
  lemma {:induction false} MatchingWithoutFilters(rows: seq<JoinedEvaluation>)
    ensures Matching(rows, "", "", "") == rows
    decreases |rows|
  {
    if rows != [] {
      MatchingWithoutFilters(rows[..|rows| - 1]);
      assert rows == rows[..|rows| - 1] + [rows[|rows| - 1]];
    }
  }

  /** The columns the search selects: no skill_level or emp_id. */
  datatype SearchRow = SearchRow(
    empName: string,
    deptName: string,
    skillName: string,
    score: real,
    maxScore: real,
    quarter: string,
    year: int,
    comment: Option<string>,
    evalId: int)

  function SearchColumns(j: JoinedEvaluation): SearchRow {
    SearchRow(j.empName, j.deptName, j.skillName, j.score, j.maxScore, j.quarter, j.year, j.comment, j.evalId)
  }

  function SearchRows(rows: seq<JoinedEvaluation>): (r: seq<SearchRow>)
    ensures |r| == |rows|
  {
    seq(|rows|, k requires 0 <= k < |rows| => SearchColumns(rows[k]))
  }

  /**
   * searchSkillEvaluation: build the query, let the database run it; an empty
   * result is 404 and a value the employee-id column rejects is a database error.
   */
  method SearchSkillEvaluation(rows: seq<JoinedEvaluation>, empId: string, department: string, skill: string)
    returns (r: Response<seq<SearchRow>>)
    ensures r.Ok? || r.NotFound? || r.ServerError?
    ensures r.ServerError? <==> empId != "" && ParsePgInt(empId).None?
    ensures r.NotFound? <==> !r.ServerError? && Matching(rows, empId, department, skill) == []
    ensures r.Ok? ==> var m := Matching(rows, empId, department, skill);
      |r.body| == |m| && forall k :: 0 <= k < |m| ==> r.body[k] == SearchColumns(m[k])
  {
    var query, values := BuildSearchQuery(empId, department, skill);
    var cs := Numbered(Supplied(empId, department, skill));
    SearchQueryMeaning(if rows == [] then JoinedEvaluation(0, 0, "", "", "", None, 0.0, 0.0, "", 0, None) else rows[0],
      empId, department, skill);
    SelectedIsMatching(rows, empId, department, skill);
    if CastFails(cs, values) {
      return ServerError;
    }
    var selected := Selected(rows, cs, values);
    if |selected| == 0 {
      return NotFound;
    }
    return Ok(SearchRows(selected));
  }

  // ---------------------------------------------------------------------------
  // Insert, update and delete
  // ---------------------------------------------------------------------------

  /**
   * addSkillEvaluation: one new row whose skill_level is classified from the
   * score. `newEvalId` is the id the database assigns and `defaultMaxScore`
   * the column default of max_score; both come from the schema. The ids and
   * the year are bound to integer columns, so a value outside int4 fails.
   */
  method AddSkillEvaluation(t: EvaluationTable, newEvalId: int, empIdParam: string, skillIdParam: string,
                            score: real, quarter: string, year: int, comment: Option<string>, defaultMaxScore: real)
    returns (r: Response<()>)
    modifies t
    ensures r.Ok? || r.ServerError?
    ensures r.ServerError? <==> ParsePgInt(empIdParam).None? || ParsePgInt(skillIdParam).None? || !InInt4(year)
    ensures r.ServerError? ==> t.rows == old(t.rows)
    ensures r.Ok? ==> t.rows == old(t.rows) + [Evaluation(newEvalId, ParsePgInt(empIdParam).value,
      ParsePgInt(skillIdParam).value, score, defaultMaxScore, quarter, year, comment, Classify(score))]
  {
    var skillLevel := Classify(score);
    var empId, skillId := ParsePgInt(empIdParam), ParsePgInt(skillIdParam);
    if empId.None? || skillId.None? || !InInt4(year) {
      return ServerError;
    }
    t.rows := t.rows + [Evaluation(newEvalId, empId.value, skillId.value, score, defaultMaxScore,
      quarter, year, comment, skillLevel)];
    r := Ok(());
  }

  /** The WHERE clause of updateSkillEvaluation. */
  predicate IsUpdateTarget(e: Evaluation, empId: int, skillId: int, quarter: string, year: int) {
    e.empId == empId && e.skillId == skillId && e.quarter == quarter && e.year == year
  }

  /** Everything but score and comment. */
  predicate SameKeys(a: Evaluation, b: Evaluation) {
    && a.evalId == b.evalId && a.empId == b.empId && a.skillId == b.skillId
    && a.maxScore == b.maxScore && a.quarter == b.quarter && a.year == b.year
    && a.skillLevel == b.skillLevel
  }

  /**
   * The table after the UPDATE: matching rows take the new score and comment,
   * no row's quarter, year or other key changes, other rows stay as they were.
   */
  function UpdateRows(rows: seq<Evaluation>, empId: int, skillId: int, score: real, quarter: string, year: int,
                      comment: Option<string>): (r: seq<Evaluation>)
    ensures |r| == |rows|
    ensures forall i :: 0 <= i < |rows| ==> SameKeys(r[i], rows[i])
    ensures forall i :: 0 <= i < |rows| && IsUpdateTarget(rows[i], empId, skillId, quarter, year) ==>
      r[i].score == score && r[i].comment == comment
    ensures forall i :: 0 <= i < |rows| && !IsUpdateTarget(rows[i], empId, skillId, quarter, year) ==> r[i] == rows[i]
  {
    seq(|rows|, i requires 0 <= i < |rows| =>
      if IsUpdateTarget(rows[i], empId, skillId, quarter, year)
      then rows[i].(score := score, quarter := quarter, year := year, comment := comment)
      else rows[i])
  }

  /** Repeating the same update changes nothing more. */
  lemma UpdateIdempotent(rows: seq<Evaluation>, empId: int, skillId: int, score: real, quarter: string, year: int,
                         comment: Option<string>)
    ensures var once := UpdateRows(rows, empId, skillId, score, quarter, year, comment);
      UpdateRows(once, empId, skillId, score, quarter, year, comment) == once
  {
  }

  /**
   * updateSkillEvaluation: parseInt of the query-string ids, bound to the
   * integer columns (NaN or a value outside int4, ids and year alike, makes
   * the statement fail),
   * then the UPDATE; zero affected rows is 404.
   */
  method UpdateSkillEvaluation(t: EvaluationTable, empIdParam: string, skillIdParam: string,
                               score: real, quarter: string, year: int, comment: Option<string>)
    returns (r: Response<()>)
    modifies t
    ensures r.Ok? || r.NotFound? || r.ServerError?
    ensures r.ServerError? <==> ParsedInt4(empIdParam).None? || ParsedInt4(skillIdParam).None? || !InInt4(year)
    ensures r.ServerError? ==> t.rows == old(t.rows)
    ensures !r.ServerError? ==> t.rows == UpdateRows(old(t.rows), ParsedInt4(empIdParam).value,
      ParsedInt4(skillIdParam).value, score, quarter, year, comment)
    ensures r.NotFound? <==> !r.ServerError? && forall i :: 0 <= i < |old(t.rows)| ==>
      !IsUpdateTarget(old(t.rows)[i], ParsedInt4(empIdParam).value, ParsedInt4(skillIdParam).value, quarter, year)
  {
    var empId, skillId := ParsedInt4(empIdParam), ParsedInt4(skillIdParam);
    if empId.None? || skillId.None? || !InInt4(year) {
      return ServerError;
    }
    var rowCount := ExecuteUpdate(t, empId.value, skillId.value, score, quarter, year, comment);
    if rowCount == 0 {
      return NotFound;
    }
    return Ok(());
  }

  /** The UPDATE statement, row by row; `rowCount` is the number of rows it changed. */
  method ExecuteUpdate(t: EvaluationTable, empId: int, skillId: int, score: real, quarter: string, year: int,
                       comment: Option<string>) returns (rowCount: nat)
    modifies t
    ensures t.rows == UpdateRows(old(t.rows), empId, skillId, score, quarter, year, comment)
    ensures rowCount == 0 <==> forall i :: 0 <= i < |old(t.rows)| ==>
      !IsUpdateTarget(old(t.rows)[i], empId, skillId, quarter, year)
  {
    var rows := t.rows;
    ghost var after := UpdateRows(rows, empId, skillId, score, quarter, year, comment);
    rowCount := 0;
    var i := 0;
    while i < |rows|
      invariant 0 <= i <= |rows| == |t.rows|
      invariant forall j :: 0 <= j < i ==> rows[j] == after[j]
      invariant forall j :: i <= j < |rows| ==> rows[j] == t.rows[j]
      invariant rowCount == 0 <==> forall j :: 0 <= j < i ==> !IsUpdateTarget(t.rows[j], empId, skillId, quarter, year)
    {
      if IsUpdateTarget(rows[i], empId, skillId, quarter, year) {
        rows := rows[i := rows[i].(score := score, quarter := quarter, year := year, comment := comment)];
        rowCount := rowCount + 1;
      }
      i := i + 1;
    }
    assert rows == after;
    t.rows := rows;
  }

  /** The table without the rows of one eval_id: the others, each as often as before, in their order. */
  function WithoutEvaluation(rows: seq<Evaluation>, evalId: int): (r: seq<Evaluation>)
    ensures forall k :: 0 <= k < |r| ==> r[k].evalId != evalId
    ensures forall k :: 0 <= k < |rows| && rows[k].evalId != evalId ==> rows[k] in r
    ensures IsSubsequence(r, rows)
    ensures forall x {:trigger multiset(r)[x]} :: multiset(r)[x] == if x.evalId != evalId then multiset(rows)[x] else 0
  {
    Filter(rows, (x: Evaluation) => x.evalId != evalId)
  }

  /**
   * removeSkillEvaluation: DELETE by the route's id. The answer is 200 whether
   * or not a row was deleted; only an id the column cannot take fails.
   */
  method RemoveSkillEvaluation(t: EvaluationTable, evalIdParam: string) returns (r: Response<()>)
    modifies t
    ensures r.Ok? || r.ServerError?
    ensures r.ServerError? <==> ParsePgInt(evalIdParam).None?
    ensures r.ServerError? ==> t.rows == old(t.rows)
    ensures r.Ok? ==> t.rows == WithoutEvaluation(old(t.rows), ParsePgInt(evalIdParam).value)
  {
    var evalId := ParsePgInt(evalIdParam);
    if evalId.None? {
      return ServerError;
    }
    t.rows := WithoutEvaluation(t.rows, evalId.value);
    r := Ok(());
  }
}
