# SkillHub decision rules and data shaping, in Dafny

SkillHub keeps one skill evaluation per employee, per skill, per quarter and
per year. Its Express back end stores them in PostgreSQL. Its React front end
shows them as tables, charts and filtered lists. Most of the application is SQL
and rendering. This project models the parts that the application's own code
decides.

- **Evaluation controller** (`EvaluationController`):
  - how a score is classified into a skill level;
  - the allow-list that cleans the sort column and direction;
  - the search query builder with its `$1..$n` placeholders;
  - the listing and search answers, including the empty-result 404;
  - insert, update by composite key, and delete.
- **Skill controller** (`SkillController`):
  - the `editSkillLevel` rescale of every evaluation of a skill, inside one
    transaction that rolls back on error or on an empty match;
  - `removeSkill`, with its id check and its 404.
- **Reports page** (`Reports`): the four-bucket skill-level histogram, the
  department averages, and the rule that decides whether the pie is drawn.
- **Assessments page** (`Assessments`):
  - the table comparator and the sort built on it;
  - the offset and page-count arithmetic;
  - the sort-header toggle;
  - the page state, as a class whose handlers change `order`, `orderBy`,
    `page`, `pages`, the filters and the results.
- **Employee growth chart** (`EmployeeGraphView`):
  - the skill-name-to-id map;
  - the year list;
  - the growth series: filtered by skill, grouped by `year-quarter` with the
    last score winning, and ordered by year, then quarter.
- **Skill chart** (`SkillGraphView`): the default year, the employee list, and
  the pivot of scores into four quarter entries.
- **Skills page** (`Skills`): grouping skills by category, and the search
  filter over the grouping.
- **Employees page** (`Employees`): the name and department filter.

Rows of the database are records in a `seq`. A table that a statement changes
is a class, `EvaluationStore.EvaluationTable` or `SkillController.SkillTable`,
whose `rows` field the handlers reassign. An HTTP outcome is
`Common.Response` (Ok / BadRequest / NotFound / ServerError). Scores are exact
`real` numbers. A JavaScript object built key by key is either a
`map<string, _>`, or (where its insertion order is what the page shows) a
`seq` of entries.

Several algorithms are written the way the source runs them and proved
against a specification function:

- the search builder appends to a string and pushes to an array;
- the rescale updates rows one at a time with a rollback snapshot;
- `groupByCategory`, the skill search, the name-to-id map, the growth reduce
  and the multi-employee pivot are loops.

The model's files:

- `common.dfy`: shared text, number and sequence definitions.
- `sorting.dfy`: an insertion sort with its sortedness and permutation lemmas.
- `evaluation_store.dfy`: the SkillEvaluation table.
- One file per core source file for the rest.

## Model

| member | source | states |
|---|---|---|
| EvaluationController.Classify | backend/controllers/evaluationController.js:91-95 | a score gets level `l` exactly when it lies in `l`'s closed band (0-3, 4-6, 7-8, 9-10), and NULL when it lies in no band |
| EvaluationController.ClassifyUnclassified | backend/controllers/evaluationController.js:91-95 | the unclassified scores are exactly the negatives, the scores above 10, and those strictly inside (3,4), (6,7) or (8,9) |
| EvaluationController.SortColumn | backend/controllers/evaluationController.js:6-9 | the column is always score, quarter or year; an allowed request is kept (case-sensitively), anything else becomes year |
| EvaluationController.SortOrder | backend/controllers/evaluationController.js:7-10 | the direction is always ASC or DESC, and it is DESC exactly when the request lower-cases to "desc" |
| EvaluationController.OrderWords | backend/controllers/evaluationController.js:10 | an order that lower-cases to asc/desc upper-cases to ASC/DESC, so `toUpperCase` emits the allowed word |
| EvaluationController.OrderByClause | backend/controllers/evaluationController.js:24 | whatever the request, the interpolated ORDER BY text is one of six fixed texts |
| EvaluationController.OrderByTexts | backend/controllers/evaluationController.js:24 | each allowed column-direction pair gives one of those six texts |
| EvaluationController.Window | backend/controllers/evaluationController.js:24-25 | LIMIT/OFFSET yields the rows from position offset on, at most limit of them (all of them under a NULL limit), in order |
| EvaluationController.Bound | backend/controllers/evaluationController.js:25-28 | an absent query parameter is bound as NULL; a text is cast to bigint; a text the cast rejects, or a negative value, is an error |
| EvaluationController.BoundOfDecimal | backend/controllers/evaluationController.js:25-28 | a bound sent as the decimal text of a number in bigint range is read as that number |
| EvaluationController.GetSkillEvaluation | backend/controllers/evaluationController.js:3-41 | 500 exactly when the limit or the offset is a text the bigint cast rejects or a negative number; otherwise 404 exactly when the page is empty (a limit of 0 or an offset at or past the last row); else 200 with the page's rows cut to the eight selected columns (no eval_id) and the table's row count; no limit means all rows, no offset means 0 |
| EvaluationController.Supplied | backend/controllers/evaluationController.js:62-73 | the supplied filters are exactly the non-empty ones, each with its own value, in the fixed order empId, department, skill |
| EvaluationController.AppendFilters | backend/controllers/evaluationController.js:62-73 | from any starting text, the three `if` blocks append one clause per supplied filter, numbered from $1 in order, and push that filter's value |
| EvaluationController.BuildSearchQuery | backend/controllers/evaluationController.js:57-73 | the query is the base text plus one clause per supplied filter, clause k using `$k`; values holds one entry per clause in the same order; no filter gives the base text and no values |
| EvaluationController.ClauseTextSplits | backend/controllers/evaluationController.js:63-71 | each of the three appended texts is the clause text of its filter and placeholder |
| EvaluationController.NumberedSnoc | backend/controllers/evaluationController.js:62-73 | taking one more filter appends exactly one numbered clause and one bound value |
| EvaluationController.ClausesTextPrefix | backend/controllers/evaluationController.js:62-73 | the text built for the first k clauses is a prefix of the full text |
| EvaluationController.QueryHoldsIndexed | backend/controllers/evaluationController.js:60-76 | with the built clauses and values, a row satisfies the query exactly when every supplied filter holds with its own value |
| EvaluationController.CastFailsIndexed | backend/controllers/evaluationController.js:62-76 | the statement fails on the integer cast exactly when a supplied empId is not, once blanks are trimmed, the text of an integer in int4 range |
| EvaluationController.SearchQueryMeaning | backend/controllers/evaluationController.js:60-76 | the built query selects a row exactly when it meets the request's filters, employee id by equality and department and skill compared lower-cased; it fails exactly when a supplied empId is a text the int4 cast rejects (blanks trimmed, range checked) |
| EvaluationController.Matching | backend/controllers/evaluationController.js:76 | the rows the request selects: all of them meet the filters, all that meet them are there, each as often as in the join, in their order |
| EvaluationController.SelectedIsMatching | backend/controllers/evaluationController.js:76 | what the database returns for the built query and values is exactly the matching rows |
| EvaluationController.MatchingWithoutFilters | backend/controllers/evaluationController.js:57-76 | with no filter every joined row comes back |
| EvaluationController.SearchSkillEvaluation | backend/controllers/evaluationController.js:43-85 | 500 exactly when a supplied empId is a text the int4 column cannot take; otherwise 404 exactly when nothing matches, else 200 with the matching rows, in order, cut to the nine selected columns (with eval_id, without skill_level) |
| EvaluationController.AddSkillEvaluation | backend/controllers/evaluationController.js:87-109 | on success exactly one row is appended, with the classified level; an id the int4 column cannot take (blanks trimmed, range checked) or a year outside int4 gives 500 and leaves the table unchanged |
| EvaluationController.UpdateRows | backend/controllers/evaluationController.js:114-127 | rows matching emp_id, skill_id, quarter and year get the new score and comment; no key field of any row changes; other rows are unchanged |
| EvaluationController.UpdateIdempotent | backend/controllers/evaluationController.js:116-127 | applying the same update twice equals applying it once |
| EvaluationController.UpdateSkillEvaluation | backend/controllers/evaluationController.js:111-138 | 500, with no change, exactly when `parseInt` rejects either query id or reads a value outside int4, or the body's year is outside int4; otherwise the table is the updated one, and 404 exactly when no row matched |
| EvaluationController.ExecuteUpdate | backend/controllers/evaluationController.js:116-127 | the UPDATE run row by row: the table becomes the specified updated table, and the affected-row count is 0 exactly when no row is a target |
| EvaluationController.IsUpdateTarget | backend/controllers/evaluationController.js:122-125 | the WHERE clause: emp_id, skill_id, quarter and year all equal the request's (its meaning is stated by UpdateRows and ExecuteUpdate) |
| EvaluationController.WithoutEvaluation | backend/controllers/evaluationController.js:144-148 | the table without the rows of one eval_id; every other row kept, as often as before, in order |
| EvaluationController.RemoveSkillEvaluation | backend/controllers/evaluationController.js:140-155 | an id the int4 column cannot take (blanks trimmed, range checked) gives 500 and no change; otherwise those rows are gone and the answer is 200, even when none was deleted |
| SkillController.RescaleRow | backend/controllers/skillController.js:88-92 | the new max is set; with a positive old max the score-to-max ratio is kept; with old max ≤ 0 the score is kept; nothing else changes |
| SkillController.RescaleAll | backend/controllers/skillController.js:85-96 | every row of the skill is rescaled, every other row is unchanged, the length is kept |
| SkillController.RescaleAllEffect | backend/controllers/skillController.js:88-93 | after the statement every row of the skill has the new max, and keeps its ratio where its old max was positive |
| SkillController.RescaleIdempotent | backend/controllers/skillController.js:88-93 | applying the same new max twice equals applying it once |
| SkillController.RescaleToCurrentMax | backend/controllers/skillController.js:88-93 | rescaling to the max the skill's rows already have changes nothing |
| SkillController.RescaleComposes | backend/controllers/skillController.js:88-93 | with positive maxima, rescaling to one max and then to another equals rescaling straight to the second |
| SkillController.NormalizedScorePreserved | backend/controllers/skillController.js:88-92 | the 0-to-10 normalised score used by the score averages (line 119) is unchanged by a rescale |
| SkillController.EditSkillLevel | backend/controllers/skillController.js:72-113 | 400 exactly when the guard fails; 500 on a statement error; 404 exactly when no row has the skill; on every non-200 answer the table is as before; on 200 it is the fully rescaled table |
| SkillController.WithoutSkill | backend/controllers/skillController.js:57 | the skills without the deleted id; every other row kept, as often as before, in order |
| SkillController.WithoutSkillCount | backend/controllers/skillController.js:57-63 | the delete never adds rows, removes some row exactly when some row has the id, and with no such row leaves the table as it was |
| SkillController.RemoveSkill | backend/controllers/skillController.js:46-70 | 400 exactly when `parseInt` rejects the id; 500 exactly when it reads a value outside int4 (the DELETE fails); in both cases nothing is deleted; otherwise the rows of that id are deleted and the answer is 404 exactly when there were none |
| Common.ParseIntOfDecimal | backend/controllers/skillController.js:49-53 | for an integer of magnitude at most 2^53, where a double is exact, `parseInt` reads its decimal text back as that integer, whatever non-digit text follows |
| Common.ParseInt | backend/controllers/skillController.js:49 | `parseInt(s, 10)`: after the JavaScript white space is skipped, NaN exactly when no digit follows the optional sign; a negative result comes only from a minus sign |
| Common.ParsedInt4 | backend/controllers/evaluationController.js:126 | a `parseInt` result the int4 parameter takes: none exactly when `parseInt` gives NaN or a value outside int4, and otherwise `parseInt`'s value |
| Common.ParsePgInt | backend/controllers/evaluationController.js:62-64 | PostgreSQL's text-to-int4 cast: every value it gives lies in int4 range (the rows below state which texts it accepts) |
| Common.Lower | frontend/src/pages/Employees.jsx:64 | ASCII `toLowerCase`: the length is kept, no upper-case ASCII letter is left, and only those letters change, each to its lower case |
| Common.LowerIdempotent | frontend/src/pages/Skills.jsx:196-202 | lower-casing an already lower-cased text changes nothing |
| Common.Contains | frontend/src/pages/Employees.jsx:64 | `includes`: the empty text and any prefix are contained; a contained text is never longer than the text |
| Common.StrLess | frontend/src/pages/Assessments.jsx:8-9 | JavaScript `<` on texts: never true of equal texts, and true of a proper prefix against the longer text |
| Common.PgIntIsParseInt | backend/controllers/evaluationController.js:62-64 | every text the integer cast of the emp_id parameter accepts is read by `parseInt` as the same integer |
| Common.PgIntOfDecimal | backend/controllers/evaluationController.js:62-64 | the int4 cast accepts the decimal text of an integer exactly when the integer lies in -2147483648..2147483647, and reads it back as that integer |
| Common.PgBigintOfDecimal | backend/controllers/evaluationController.js:25-28 | the bigint cast accepts the decimal text of an integer exactly when it lies in the int8 range, and reads it back as that integer |
| Common.PgIntIgnoresBlanks | backend/controllers/evaluationController.js:62-64 | a blank (space, tab, newline, vertical tab, form feed, carriage return) on either side of the text does not change what the int4 cast reads |
| Reports.FindLevel | frontend/src/pages/Reports.jsx:71 | `find` gives the first row with the level, or none when no row has it |
| Reports.SkillLevelWise | frontend/src/pages/Reports.jsx:69-76 | always four buckets, named Beginner, Intermediate, Advanced and Expert, in that order |
| Reports.BucketValues | frontend/src/pages/Reports.jsx:71-74 | a bucket holds the count of the first row with its level |
| Reports.MissingLevelIsZero | frontend/src/pages/Reports.jsx:74 | a level with no row gets 0 |
| Reports.OtherLabelsIgnored | frontend/src/pages/Reports.jsx:70-75 | a row with any other label (such as the NULL group) changes no bucket |
| Reports.DistributionShownIff | frontend/src/pages/Reports.jsx:164 | with positive group counts the pie is drawn exactly when some row has one of the four levels |
| Reports.ShowDistribution | frontend/src/pages/Reports.jsx:164 | the pie is drawn when some bucket holds a number above 0 (its meaning in terms of the rows is DistributionShownIff) |
| Reports.DepartmentWise | frontend/src/pages/Reports.jsx:43-46 | the same number of rows, each department name kept and its average read as a number |
| Reports.DepartmentAverageRead | frontend/src/pages/Reports.jsx:45 | an average printed with one decimal is charted as exactly that value |
| Assessments.DescendingComparator | frontend/src/pages/Assessments.jsx:7-11 | -1 exactly when a's key is the greater, 1 exactly when b's is, 0 exactly when neither is |
| Assessments.Compare | frontend/src/pages/Assessments.jsx:13-16 | the comparator is -1, 0 or 1; it is negative exactly when a's key is greater (desc) or smaller (asc) than b's, and 0 exactly when neither key is less |
| Assessments.ComparatorAntisymmetric | frontend/src/pages/Assessments.jsx:7-16 | desc(a,b) = -desc(b,a) and desc(a,a) = 0; the comparator of either order is antisymmetric; the ascending one is the negated descending one |
| Assessments.KeyNotLessTransitive | frontend/src/pages/Assessments.jsx:7-11 | within one column "not less than" is transitive |
| Assessments.PrecedesIsTotalPreorder | frontend/src/pages/Assessments.jsx:13-16 | the comparator of either order induces a total preorder |
| Assessments.SortRowsOrdered | frontend/src/pages/Assessments.jsx:268 | the sorted table is a permutation of the results, with non-increasing keys for desc and non-decreasing keys for asc |
| Assessments.Offset | frontend/src/pages/Assessments.jsx:77 | the offset of page p is (p-1)·10 |
| Assessments.PageCount | frontend/src/pages/Assessments.jsx:89-90 | at least one page; one page for 0 rows; otherwise (pages-1)·10 < total ≤ pages·10 |
| Assessments.OfferedPagesAreNonEmpty | frontend/src/pages/Assessments.jsx:77-90 | with at least one row, and limit and offset sent as decimal texts, the listing answers 200 for a page exactly when the pagination offers it and 404 for every later page |
| Assessments.SortToggle | frontend/src/pages/Assessments.jsx:167-171 | the clicked column becomes orderBy; the order becomes desc exactly when the clicked column was active and ascending, asc otherwise |
| Assessments.SortToggleAlternates | frontend/src/pages/Assessments.jsx:167-171 | two clicks on the same column give opposite directions |
| Assessments.AssessmentsPage.constructor | frontend/src/pages/Assessments.jsx:20-38 | the initial state: no results or filters, page 1, 0 pages, ascending, no sort column |
| Assessments.AssessmentsPage.NextRequest | frontend/src/pages/Assessments.jsx:98-117 | the listing is requested exactly when no employee, department or skill filter is set, and the search otherwise |
| Assessments.AssessmentsPage.ShowPagination | frontend/src/pages/Assessments.jsx:290-294 | the pager is drawn only when there are results and no employee, department or skill filter is set; its meaning is stated by PaginationFollowsPath |
| Assessments.AssessmentsPage.PaginationFollowsPath | frontend/src/pages/Assessments.jsx:290-294 | the pager is drawn exactly when there are results and the next request is the listing, which then fetches the shown page with the page's sort state; with results and no pager, the request is the search |
| Assessments.AssessmentsPage.HandleSortRequest | frontend/src/pages/Assessments.jsx:167-171 | order and orderBy become the toggle's result; nothing else changes |
| Assessments.AssessmentsPage.HandlePageChange | frontend/src/pages/Assessments.jsx:119-121 | only the page changes |
| Assessments.AssessmentsPage.HandleClearSearch | frontend/src/pages/Assessments.jsx:123-129 | every filter is cleared and the page is 1, so the listing is used |
| Assessments.AssessmentsPage.HandleDeptChange | frontend/src/pages/Assessments.jsx:151-154 | the department filter is set and the page is 1; nothing else changes |
| Assessments.AssessmentsPage.HandleSkillChange | frontend/src/pages/Assessments.jsx:156-159 | the skill filter is set and the page is 1; nothing else changes |
| Assessments.AssessmentsPage.HandleEmployeeChange | frontend/src/pages/Assessments.jsx:222 | the employee filter is set and the page is 1; nothing else changes |
| Assessments.AssessmentsPage.OnListingResponse | frontend/src/pages/Assessments.jsx:86-95 | on 200 the results are the page's listing rows and pages the page count; on an error no results and one page |
| Assessments.AssessmentsPage.OnSearchResponse | frontend/src/pages/Assessments.jsx:103-116 | on 200 the results are the search rows and pages stays; on an error no results and one page |
| Assessments.ListingHonoursSortState | frontend/src/pages/Assessments.jsx:82-83 | the column and direction the page sends come through the server's allow-list unchanged, year and ASC by default |
| Assessments.SearchRequestHasClause | frontend/src/pages/Assessments.jsx:98-109 | a search request always carries a filter, so the query has at least one AND clause |
| Assessments.DeleteParamMeaning | frontend/src/pages/Assessments.jsx:173-174 | a listing row has no eval_id, so its Delete sends "undefined", which the int4 cast rejects (the delete answers 500); a search row's Delete sends its own eval_id |
| EmployeeGraphView.SkillIdMapKeys | frontend/src/components/EmployeeGraphView.jsx:39-42 | a name is in the map exactly when some row has it |
| EmployeeGraphView.SkillIdMapLast | frontend/src/components/EmployeeGraphView.jsx:39-42 | each name maps to the id of its last row: later rows overwrite earlier ones |
| EmployeeGraphView.BuildSkillIdMap | frontend/src/components/EmployeeGraphView.jsx:39-42 | the reduce builds the specified map |
| EmployeeGraphView.GraphSkillId | frontend/src/components/EmployeeGraphView.jsx:69-73 | no request (an empty graph) exactly when the name is absent or its id is 0 |
| EmployeeGraphView.GraphUsesLastId | frontend/src/components/EmployeeGraphView.jsx:69-73 | with positive ids the graph is empty exactly when no row has the name, and otherwise uses the id of the name's last row |
| EmployeeGraphView.YearTextIsTotalPreorder | frontend/src/components/EmployeeGraphView.jsx:54 | the default `sort` order (on decimal text) is a total preorder |
| EmployeeGraphView.AvailableYears | frontend/src/components/EmployeeGraphView.jsx:54 | the years offered are exactly those of the rows, each once |
| EmployeeGraphView.AvailableYearsSorted | frontend/src/components/EmployeeGraphView.jsx:54 | the years are sorted by their text |
| EmployeeGraphView.AvailableYearsNumeric | frontend/src/components/EmployeeGraphView.jsx:54 | for four-digit years the text order is numeric order, so the list is strictly increasing |
| EmployeeGraphView.TimeKeyInjective | frontend/src/components/EmployeeGraphView.jsx:84 | two `year-quarter` keys are equal exactly when their years and quarters are |
| EmployeeGraphView.OfSkill | frontend/src/components/EmployeeGraphView.jsx:82 | only items of the selected skill remain, all of them, each as often as in the response, in order |
| EmployeeGraphView.FindTime | frontend/src/components/EmployeeGraphView.jsx:85 | the first point with the key, or none when no point has it |
| EmployeeGraphView.StepShape | frontend/src/components/EmployeeGraphView.jsx:84-90 | one reduce step appends a point for a new key or overwrites the score of the existing one, touching no other point |
| EmployeeGraphView.GroupedKeysDistinct | frontend/src/components/EmployeeGraphView.jsx:83-91 | the reduced points have pairwise distinct keys |
| EmployeeGraphView.GroupedCoversItems | frontend/src/components/EmployeeGraphView.jsx:83-91 | every item's key has a point |
| EmployeeGraphView.GroupedLastScore | frontend/src/components/EmployeeGraphView.jsx:90 | each point holds the score of the last item with its key |
| EmployeeGraphView.PointPrecedesIsTotalPreorder | frontend/src/components/EmployeeGraphView.jsx:93-96 | the sort comparator (year, then quarter) induces a total preorder |
| EmployeeGraphView.SeriesStrictlyOrdered | frontend/src/components/EmployeeGraphView.jsx:81-97 | the series is strictly increasing by year, then quarter label, so the keys are distinct |
| EmployeeGraphView.SeriesCoversItems | frontend/src/components/EmployeeGraphView.jsx:81-97 | every item of the selected skill has its key in the series |
| EmployeeGraphView.SeriesLastScoreWins | frontend/src/components/EmployeeGraphView.jsx:81-97 | each point holds the score of the last item of the skill with its key |
| EmployeeGraphView.FindPoint | frontend/src/components/EmployeeGraphView.jsx:85 | the loop that compares key texts finds the same point as the key comparison |
| EmployeeGraphView.GrowthSeries | frontend/src/components/EmployeeGraphView.jsx:81-97 | the filter, reduce and sort give the specified series |
| SkillGraphView.YearOptions | frontend/src/components/SkillGraphView.jsx:40-51 | on failure only "all", selected; otherwise one option per year, and the current year is selected exactly when offered, "all" otherwise |
| SkillGraphView.SelectionIsOffered | frontend/src/components/SkillGraphView.jsx:40-51 | the initial selection is "all" or one of the options |
| SkillGraphView.EmployeesSpec | frontend/src/components/SkillGraphView.jsx:59 | the employee list has no duplicates, holds exactly the rows' names, in first-appearance order |
| SkillGraphView.FindRow | frontend/src/components/SkillGraphView.jsx:64 | `find` gives the first row meeting the test, or none |
| SkillGraphView.QuarterScore | frontend/src/components/SkillGraphView.jsx:64-67 | the score of the first row of the quarter, or 0 when there is none |
| SkillGraphView.EmployeeQuarterScore | frontend/src/components/SkillGraphView.jsx:75-76 | the score of the first row of the employee and quarter, or 0 when there is none |
| SkillGraphView.MultiEntryFields | frontend/src/components/SkillGraphView.jsx:73-78 | the entry has the field quarter plus one field per employee holding that employee's score; the label survives unless an employee is named "quarter" |
| SkillGraphView.MultiEntry | frontend/src/components/SkillGraphView.jsx:73-78 | the forEach fills the specified entry |
| SkillGraphView.QuarterPivot | frontend/src/components/SkillGraphView.jsx:59-81 | the transform gives the specified pivot |
| SkillGraphView.PivotShape | frontend/src/components/SkillGraphView.jsx:59-81 | four entries, Q1 to Q4 in order; with one employee each holds quarter and score; otherwise each holds one field per employee with its score |
| SkillGraphView.SinglePivotAgrees | frontend/src/components/SkillGraphView.jsx:62-79 | with one employee the single pivot's score equals that employee's score in the multi pivot |
| SkillGraphView.SingleEmployeeIff | frontend/src/components/SkillGraphView.jsx:88 | the chart is drawn as one Score bar exactly when there is one employee or an employee is named "score" |
| SkillGraphView.IsSingleEmployee | frontend/src/components/SkillGraphView.jsx:88 | the chart draws one Score bar when there is a first entry with a `score` field (its meaning in terms of the rows is SingleEmployeeIff) |
| Skills.CategoriesOf | frontend/src/pages/Skills.jsx:86 | one category per skill, an absent or empty one becoming "Uncategorized" |
| Skills.FindGroup | frontend/src/pages/Skills.jsx:87 | the group of a category, or none when no group has it |
| Skills.GroupByCategory | frontend/src/pages/Skills.jsx:83-91 | the forEach builds the specified grouping |
| Skills.InCategory | frontend/src/pages/Skills.jsx:85-88 | the skills of a category, all of them, in input order; none when no skill has the category |
| Skills.InCategoryCounts | frontend/src/pages/Skills.jsx:85-88 | a skill of the category is listed under it as often as it is in the data, any other skill not at all |
| Skills.GroupingCategories | frontend/src/pages/Skills.jsx:83-91 | the categories are each skill's category once, in order of first appearance |
| Skills.GroupingContents | frontend/src/pages/Skills.jsx:85-88 | each group holds exactly its category's skills in input order |
| Skills.GroupsAreNonEmpty | frontend/src/pages/Skills.jsx:87-88 | no group is empty |
| Skills.TotalSizeUpdate | frontend/src/pages/Skills.jsx:88 | replacing a group changes the total size by the difference of the two groups' sizes |
| Skills.GroupingKeepsEverySkill | frontend/src/pages/Skills.jsx:84-89 | the group sizes add up to the number of skills |
| Skills.GroupOfSkill | frontend/src/pages/Skills.jsx:86-88 | every skill is in the group of its category |
| Skills.Matched | frontend/src/pages/Skills.jsx:201-203 | the skills whose lower-cased name contains the query, all of them, each as often as listed, in order |
| Skills.SearchSkills | frontend/src/pages/Skills.jsx:195-206 | the handler gives the specified outcome |
| Skills.RefetchIff | frontend/src/pages/Skills.jsx:196-197 | the list is fetched again exactly when the query is empty |
| Skills.FilterGroupsSpec | frontend/src/pages/Skills.jsx:199-205 | every kept group is non-empty and is a group of the current grouping cut to its matches; every group with a match is kept |
| Skills.FilteredAreNonEmpty | frontend/src/pages/Skills.jsx:201-204 | a group is kept only with at least one matching skill |
| Skills.FilteredAreCut | frontend/src/pages/Skills.jsx:199-205 | every kept group is a group of the current grouping with only its matching skills |
| Skills.FilterKeepsMatches | frontend/src/pages/Skills.jsx:199-205 | every group with a matching skill is kept, cut to its matches |
| Skills.FilterGroupsKeepsOrder | frontend/src/pages/Skills.jsx:200-205 | the kept categories are a subsequence of the current ones |
| Skills.SearchShowsMatchingSkills | frontend/src/pages/Skills.jsx:196-205 | on a freshly grouped list, a non-empty query shows a skill under its category exactly when its lower-cased name contains the lower-cased query |
| Employees.FilterEmployees | frontend/src/pages/Employees.jsx:62-68 | the kept employees meet both criteria, every employee who meets them is kept, each as often as listed, in list order |
| Employees.EmptyCriteriaKeepAll | frontend/src/pages/Employees.jsx:63-66 | with an empty name and an empty department every employee is kept |
| Employees.NameCriterionIgnoresCase | frontend/src/pages/Employees.jsx:63-65 | two names with the same lower-cased form select the same employees |
| Employees.SameCriteriaSameList | frontend/src/pages/Employees.jsx:62-68 | two name criteria that accept the same employees give the same list |
| Employees.VisibleEmployees | frontend/src/pages/Employees.jsx:60-71 | while loading the list is unchanged; afterwards it is a subsequence of all employees, holding exactly those who meet both criteria |
| Sorting.SortBySorted | frontend/src/pages/Assessments.jsx:268 | the sort used for the table and the growth series returns a sorted permutation of its input |

## Left out

- Network, database and browser I/O are not modelled: axios calls, `pool.query`, React state hooks and effects, toasts and console output. Each handler's pure core or state transition is modelled. A response arrives as a parameter.
- PostgreSQL itself is not modelled: joins, `COUNT`, `AVG`, `ROUND`, `GROUP BY` and `ORDER BY`. The listing receives the joined rows already ordered, and the reports receive the grouped rows.
- Authentication, routing and the SQL-only controllers (employees, departments, analytics) are not modelled. addSkill, getAllSkills, getAvgSkillScore and getEmployeeSkills are single SQL statements and are left out. Only the normalisation formula of getAvgSkillScore appears, as `SkillController.Normalized`.
- Floating point is not modelled. Scores are exact reals, and the `score::float` cast and `parseFloat` are the identity on numbers. No float-rounding result is claimed.
- `Number` of a malformed decimal (NaN) is `None`. Only decimal texts of the shape PostgreSQL prints are parsed.
- JavaScript coercions are not modelled. `score` comparisons are numeric; the request's `max_score` is its numeric value, `None` when absent or not a number.
- Common.ParseInt: the result is an exact integer, while `parseInt` returns a double. The two agree up to 2^53 in magnitude, which covers every value an int4 parameter takes, so the handlers' answers are unaffected; `ParseIntOfDecimal` is stated only up to 2^53.
- Common.ParsePgInt: the decimal integer input of PostgreSQL (optional blanks, optional sign, digits, optional blanks). The `0x`/`0o`/`0b` prefixes and `_` digit separators that PostgreSQL 16 also accepts are not modelled.
- Case folding is ASCII only. The default `sort` and the `<` operator on texts are taken as code-point order; JavaScript compares UTF-16 code units, which differs only for characters outside the Basic Multilingual Plane. `localeCompare` is covered on the `EmployeeGraphView.SeriesStrictlyOrdered` line.
- JavaScript object key order is not modelled for the chart entries. An entry is a map, so the order of its fields (and the integer-like keys JavaScript lists first) is left out.
- The skills dictionary, whose order the page shows, is a sequence of entries in insertion order. JavaScript objects keep that order only for keys that are not integer-like.
- Skills.GroupByCategory: a category named after an `Object.prototype` member ("constructor", "toString", "__proto__", ...) makes `grouped[category]` truthy before any skill is pushed, so the push throws and the page shows "Failed to fetch skills" with no groups (Skills.jsx:87-88, 61-63). The model groups such a skill like any other.
- Skills.GroupingCategories: `Object.entries` lists integer-like category names ("2", "2024") first, in ascending numeric order, and then the other names in insertion order (Skills.jsx:200, 226). The model states first-appearance order for every name, which is what the page shows only when no category name is integer-like.
- EmployeeGraphView.SeriesStrictlyOrdered: the sort compares the text before the first `-`. The model compares the year numerically, which agrees for non-negative years; negative years are not modelled. The quarter labels are compared with `localeCompare`, which is locale collation, not code-unit order (`"a".localeCompare("B")` is negative although `"a" < "B"` is false). It is used only on the quarter label of this sort, and on the labels Q1 to Q4 the two orders agree. For any other label, `ComparePoints` and this lemma state code-unit order, not collation.
- Sorting.SortBySorted: stability of `Array.prototype.sort` is not stated; only sortedness and permutation are.
- SkillController.EditSkillLevel: a database failure is the parameter `failAt`, the row at which the statement fails. The id cast error is `ParsePgInt` failing.
- EvaluationController.AddSkillEvaluation: the new eval_id and the max_score column default are parameters. The body's score and quarter are assumed to be values their columns accept (a score the numeric column rejects or a quarter its column rejects is not modelled as a 500); the year is an integer, range-checked against int4.
- EvaluationController.UpdateSkillEvaluation: the body's score and quarter are assumed to be values their columns accept (a rejected one is not modelled as a 500); the year is an integer, range-checked against int4. Kept as written, the ids are read from the query string even though the route carries `:evalId`. The skill level is not recomputed on update or on rescale, as in the source.
- EvaluationController.RemoveSkillEvaluation: answers 200 even when no row was deleted, as the code does.
- Foreign keys and cascades on delete are not modelled.
- SkillGraphView.YearOptions: the current calendar year is a parameter, and a failed request is `None`.
