/**
 * frontend/src/pages/Employees.jsx: the list of employee cards, filtered by
 * a name typed in the search field and a department picked from a list.
 */
module Employees {
  import opened Common

  /**
   * The fields of a /employees/main row that the filter reads; the skills and
   * the two scores it also carries play no part here, and no employee id is sent.
   */
  datatype EmployeeRow = EmployeeRow(empName: string, deptName: string)

  /** The name criterion: no name typed, or the typed name occurs in the employee's name, ignoring case. */
  predicate MatchesName(e: EmployeeRow, selectedEmployee: string) {
    selectedEmployee == "" || Contains(Lower(e.empName), Lower(selectedEmployee))
  }

  /** The department criterion: no department picked, or exactly the employee's department. */
  predicate MatchesDept(e: EmployeeRow, selectedDept: string) {
    selectedDept == "" || e.deptName == selectedDept
  }

  predicate Keeps(e: EmployeeRow, selectedEmployee: string, selectedDept: string) {
    MatchesName(e, selectedEmployee) && MatchesDept(e, selectedDept)
  }

  /** The employees meeting both criteria, each as often as it is listed, in list order. */
  function FilterEmployees(all: seq<EmployeeRow>, selectedEmployee: string, selectedDept: string): (r: seq<EmployeeRow>)
    ensures forall k :: 0 <= k < |r| ==> Keeps(r[k], selectedEmployee, selectedDept)
    ensures forall k :: 0 <= k < |all| && Keeps(all[k], selectedEmployee, selectedDept) ==> all[k] in r
    ensures IsSubsequence(r, all)
    ensures forall e {:trigger multiset(r)[e]} :: multiset(r)[e] == if Keeps(e, selectedEmployee, selectedDept) then multiset(all)[e] else 0
  {
    Filter(all, e => Keeps(e, selectedEmployee, selectedDept))
  }

  /** With both criteria empty every employee is shown, in list order. */
  lemma EmptyCriteriaKeepAll(all: seq<EmployeeRow>)
    ensures FilterEmployees(all, "", "") == all
  {
    FilterKeepsAll(all, e => Keeps(e, "", ""));
  }

  /** Only the lower-cased search text matters: "ann" and "ANN" select the same employees. */
  lemma NameCriterionIgnoresCase(all: seq<EmployeeRow>, a: string, b: string, selectedDept: string)
    requires Lower(a) == Lower(b)
    ensures FilterEmployees(all, a, selectedDept) == FilterEmployees(all, b, selectedDept)
  {
    assert |a| == |Lower(a)| == |Lower(b)| == |b|;
    SameCriteriaSameList(all, a, b, selectedDept);
  }

  /** Two name criteria that accept the same employees give the same list. */
  lemma SameCriteriaSameList(all: seq<EmployeeRow>, a: string, b: string, selectedDept: string)
    requires forall e :: MatchesName(e, a) <==> MatchesName(e, b)
    ensures FilterEmployees(all, a, selectedDept) == FilterEmployees(all, b, selectedDept)
  {
    FilterCongruent(all, e => Keeps(e, a, selectedDept), e => Keeps(e, b, selectedDept));
  }

  /**
   * The effect: while the list is loading the cards shown are left as they
   * are; afterwards they are the filtered list.
   */
  function VisibleEmployees(isLoading: bool, shown: seq<EmployeeRow>, all: seq<EmployeeRow>,
                            selectedEmployee: string, selectedDept: string): (r: seq<EmployeeRow>)
    ensures isLoading ==> r == shown
    ensures !isLoading ==> IsSubsequence(r, all)
    ensures !isLoading ==> forall e :: e in r <==> e in all && Keeps(e, selectedEmployee, selectedDept)
  {
    if isLoading then shown
    else
      var r := FilterEmployees(all, selectedEmployee, selectedDept);
      SubsequenceMembers(r, all);
      r
  }
}
