/**
 * frontend/src/components/SkillGraphView.jsx: the year the chart opens on,
 * and the pivot of one skill's scores into four quarter entries, one bar per
 * quarter for a single employee, one bar per employee otherwise.
 */
module SkillGraphView {
  import opened Common

  // ---------------------------------------------------------------------------
  // Year options
  // ---------------------------------------------------------------------------

  /** A value of the year selector: a year, or "all". */
  datatype YearChoice = Year(year: int) | AllYears

  /**
   * fetchYearOptions: the options and the initial selection, from the answer
   * of /evaluations/years (`None` when the request failed) and the current
   * calendar year.
   */
  function YearOptions(fetched: Option<seq<int>>, currentYear: int): (r: (seq<YearChoice>, YearChoice))
    ensures fetched.None? ==> r == ([AllYears], AllYears)
    ensures fetched.Some? ==> |r.0| == |fetched.value|
    ensures fetched.Some? ==> forall i :: 0 <= i < |fetched.value| ==> r.0[i] == Year(fetched.value[i])
    ensures fetched.Some? ==> (r.1 == Year(currentYear) <==> currentYear in fetched.value)
    ensures fetched.Some? ==> (r.1 == AllYears <==> currentYear !in fetched.value)
  {
    if fetched.None? then ([AllYears], AllYears)
    else
      var years := fetched.value;
      (seq(|years|, i requires 0 <= i < |years| => Year(years[i])),
       if currentYear in years then Year(currentYear) else AllYears)
  }

  /** The initial selection is always one the selector offers ("All Time" is always there). */
  lemma SelectionIsOffered(fetched: Option<seq<int>>, currentYear: int)
    ensures var r := YearOptions(fetched, currentYear);
      r.1 == AllYears || r.1 in r.0
  {
    var r := YearOptions(fetched, currentYear);
    if r.1 != AllYears {
      var years := fetched.value;
      var k := IndexOf(years, currentYear);
      assert r.0[k] == r.1;
    }
  }

  // ---------------------------------------------------------------------------
  // Quarter pivot
  // ---------------------------------------------------------------------------

  /** A row of /employees/by-skill, its score already a number. */
  datatype ScoreRow = ScoreRow(empName: string, quarter: string, score: real)

  /** A field of a chart entry object. */
  datatype Value = Text(text: string) | Num(num: real)

  /** The four quarters, in chart order. */
  const Quarters: seq<string> := ["Q1", "Q2", "Q3", "Q4"]

  function Names(data: seq<ScoreRow>): (names: seq<string>)
    ensures |names| == |data|
    ensures forall i :: 0 <= i < |data| ==> names[i] == data[i].empName
  {
    seq(|data|, i requires 0 <= i < |data| => data[i].empName)
  }

  /** The employee names of the rows, each once, in order of first appearance. */
  function Employees(data: seq<ScoreRow>): seq<string> {
    Distinct(Names(data))
  }

  /** Every name once, every row's name present, in the order of first appearance. */
  lemma EmployeesSpec(data: seq<ScoreRow>)
    ensures NoDuplicates(Employees(data))
    ensures forall e :: e in Employees(data) <==> exists k :: 0 <= k < |data| && data[k].empName == e
    ensures var names, emps := Names(data), Employees(data);
      forall i, j :: 0 <= i < j < |emps| ==> IndexOf(names, emps[i]) < IndexOf(names, emps[j])
  {
    var names := Names(data);
    forall e | e in Employees(data)
      ensures exists k :: 0 <= k < |data| && data[k].empName == e
    {
      var k := IndexOf(names, e);
      assert data[k].empName == e;
    }
    forall e | exists k :: 0 <= k < |data| && data[k].empName == e
      ensures e in Employees(data)
    {
      var k :| 0 <= k < |data| && data[k].empName == e;
      assert names[k] == e;
    }
    DistinctFirstAppearance(names);
  }

  /** The index of the first row meeting `p`, if any. */
  function FindRow(data: seq<ScoreRow>, p: ScoreRow -> bool): (k: Option<nat>)
    ensures k.None? <==> forall i :: 0 <= i < |data| ==> !p(data[i])
    ensures k.Some? ==> (k.value < |data| && p(data[k.value])
      && forall i :: 0 <= i < k.value ==> !p(data[i]))
    decreases |data|
  {
    if data == [] then None
    else if p(data[0]) then Some(0)
    else
      var rest := FindRow(data[1..], p);
      if rest.None? then None else Some(rest.value + 1)
  }

  /** The score of the first row of quarter `q`, read as a number; 0 when the quarter has no row. */
  function QuarterScore(data: seq<ScoreRow>, q: string): (s: real)
    ensures (forall k :: 0 <= k < |data| ==> data[k].quarter != q) ==> s == 0.0
    ensures forall k :: (0 <= k < |data| && data[k].quarter == q
      && (forall j :: 0 <= j < k ==> data[j].quarter != q)) ==> s == data[k].score
  {
    var k := FindRow(data, (d: ScoreRow) => d.quarter == q);
    if k.None? then 0.0 else data[k.value].score
  }

  /** The score of the first row of employee `emp` in quarter `q`, read as a number; 0 when there is none. */
  function EmployeeQuarterScore(data: seq<ScoreRow>, emp: string, q: string): (s: real)
    ensures (forall k :: 0 <= k < |data| ==> !(data[k].empName == emp && data[k].quarter == q)) ==> s == 0.0
    ensures forall k :: (0 <= k < |data| && data[k].empName == emp && data[k].quarter == q
      && (forall j :: 0 <= j < k ==> !(data[j].empName == emp && data[j].quarter == q))) ==> s == data[k].score
  {
    var k := FindRow(data, (d: ScoreRow) => d.empName == emp && d.quarter == q);
    if k.None? then 0.0 else data[k.value].score
  }

  /** The single-employee entry `{ quarter: q, score: ... }`. */
  function SingleEntry(data: seq<ScoreRow>, q: string): map<string, Value> {
    map["quarter" := Text(q), "score" := Num(QuarterScore(data, q))]
  }

  /** The entry holding the quarter heading and then one field per employee, set in order. */
  function Filled(heading: string, employees: seq<string>, value: string -> Value): map<string, Value>
    decreases |employees|
  {
    if employees == [] then map["quarter" := Text(heading)]
    else
      var n := |employees| - 1;
      Filled(heading, employees[..n], value)[employees[n] := value(employees[n])]
  }

  /** The filled entry has the field `quarter` and one field per employee; a later field overwrites. */
  lemma {:induction false} FilledFields(heading: string, employees: seq<string>, value: string -> Value)
    ensures Filled(heading, employees, value).Keys == {"quarter"} + set e | e in employees
    ensures forall e :: e in employees ==> Filled(heading, employees, value)[e] == value(e)
    ensures "quarter" !in employees ==> Filled(heading, employees, value)["quarter"] == Text(heading)
    decreases |employees|
  {
    if employees != [] {
      var n := |employees| - 1;
      var prefix := employees[..n];
      FilledFields(heading, prefix, value);
      assert forall e :: e in employees <==> e in prefix || e == employees[n];
    }
  }

  /** The score of employee `emp` in quarter `q`, as a field value. */
  function EmployeeCell(data: seq<ScoreRow>, q: string): string -> Value {
    emp => Num(EmployeeQuarterScore(data, emp, q))
  }

  /** The multi-employee entry of quarter `q`. */
  function MultiEntrySpec(data: seq<ScoreRow>, employees: seq<string>, q: string): map<string, Value> {
    Filled(q, employees, EmployeeCell(data, q))
  }

  /**
   * The entry has the field `quarter` and one field per employee holding that
   * employee's score; an employee named "quarter" overwrites the heading.
   */
  lemma MultiEntryFields(data: seq<ScoreRow>, employees: seq<string>, q: string)
    ensures MultiEntrySpec(data, employees, q).Keys == {"quarter"} + set e | e in employees
    ensures forall e :: e in employees ==> MultiEntrySpec(data, employees, q)[e] == Num(EmployeeQuarterScore(data, e, q))
    ensures "quarter" !in employees ==> MultiEntrySpec(data, employees, q)["quarter"] == Text(q)
  {
    FilledFields(q, employees, EmployeeCell(data, q));
  }

  /** The forEach over the employees, filling one field per step. */
  method MultiEntry(data: seq<ScoreRow>, employees: seq<string>, q: string) returns (entry: map<string, Value>)
    ensures entry == MultiEntrySpec(data, employees, q)
  {
    entry := map["quarter" := Text(q)];
    var i := 0;
    while i < |employees|
      invariant 0 <= i <= |employees|
      invariant entry == Filled(q, employees[..i], EmployeeCell(data, q))
    {
      var emp := employees[i];
      var found := FindRow(data, (d: ScoreRow) => d.empName == emp && d.quarter == q);
      assert employees[..i + 1][..i] == employees[..i];
      entry := entry[emp := Num(if found.Some? then data[found.value].score else 0.0)];
      i := i + 1;
    }
    assert employees[..i] == employees;
  }

  /** The chart data: four entries, one per quarter. */
  function Pivot(data: seq<ScoreRow>): seq<map<string, Value>> {
    var employees := Employees(data);
    if |employees| == 1 then
      seq(4, i requires 0 <= i < 4 => SingleEntry(data, Quarters[i]))
    else
      seq(4, i requires 0 <= i < 4 => MultiEntrySpec(data, employees, Quarters[i]))
  }

  /** fetchGraphData's transform: the single-employee map, or four forEach passes. */
  method QuarterPivot(data: seq<ScoreRow>) returns (graph: seq<map<string, Value>>)
    ensures graph == Pivot(data)
  {
    var employees := Employees(data);
    if |employees| == 1 {
      graph := seq(4, i requires 0 <= i < 4 => SingleEntry(data, Quarters[i]));
    } else {
      graph := [];
      var i := 0;
      while i < 4
        invariant 0 <= i <= 4
        invariant |graph| == i
        invariant forall j :: 0 <= j < i ==> graph[j] == MultiEntrySpec(data, employees, Quarters[j])
      {
        var entry := MultiEntry(data, employees, Quarters[i]);
        graph := graph + [entry];
        i := i + 1;
      }
    }
  }

  /**
   * Four entries for Q1 to Q4 in order. With one employee each holds the
   * score of the first row of its quarter; otherwise one field per
   * employee, labelled with its quarter unless an employee is named "quarter".
   */
  lemma PivotShape(data: seq<ScoreRow>)
    ensures |Pivot(data)| == 4
    ensures |Employees(data)| == 1 ==> forall i :: 0 <= i < 4 ==>
      Pivot(data)[i].Keys == {"quarter", "score"} && Pivot(data)[i]["quarter"] == Text(Quarters[i])
        && Pivot(data)[i]["score"] == Num(QuarterScore(data, Quarters[i]))
    ensures |Employees(data)| != 1 ==> forall i :: 0 <= i < 4 ==>
      && Pivot(data)[i].Keys == {"quarter"} + (set e | e in Employees(data))
      && (forall e :: e in Employees(data) ==> Pivot(data)[i][e] == Num(EmployeeQuarterScore(data, e, Quarters[i])))
      && ("quarter" !in Employees(data) ==> Pivot(data)[i]["quarter"] == Text(Quarters[i]))
  {
    if |Employees(data)| != 1 {
      MultiPivotShape(data);
    }
  }

  lemma MultiPivotShape(data: seq<ScoreRow>)
    requires |Employees(data)| != 1
    ensures forall i :: 0 <= i < 4 ==>
      && Pivot(data)[i].Keys == {"quarter"} + (set e | e in Employees(data))
      && (forall e :: e in Employees(data) ==> Pivot(data)[i][e] == Num(EmployeeQuarterScore(data, e, Quarters[i])))
      && ("quarter" !in Employees(data) ==> Pivot(data)[i]["quarter"] == Text(Quarters[i]))
  {
    var employees := Employees(data);
    forall i | 0 <= i < 4
      ensures && Pivot(data)[i].Keys == {"quarter"} + (set e | e in employees)
              && (forall e :: e in employees ==> Pivot(data)[i][e] == Num(EmployeeQuarterScore(data, e, Quarters[i])))
              && ("quarter" !in employees ==> Pivot(data)[i]["quarter"] == Text(Quarters[i]))
    {
      assert Pivot(data)[i] == MultiEntrySpec(data, employees, Quarters[i]);
      MultiEntryFields(data, employees, Quarters[i]);
    }
  }

  /** With one employee every row is theirs, so both pivots would give the bar the same value. */
  lemma SinglePivotAgrees(data: seq<ScoreRow>, q: string)
    requires |Employees(data)| == 1
    ensures QuarterScore(data, q) == EmployeeQuarterScore(data, Employees(data)[0], q)
  {
    EmployeesSpec(data);
    var emp := Employees(data)[0];
    forall k | 0 <= k < |data|
      ensures data[k].empName == emp
    {
      assert data[k].empName in Employees(data);
    }
  }

  /** The chart shows one line: there is a first entry and it has a `score` field. */
  predicate IsSingleEmployee(graph: seq<map<string, Value>>) {
    |graph| > 0 && "score" in graph[0]
  }

  /**
   * The chart draws one "Score" bar exactly when there is one employee, or
   * when some employee is named "score".
   */
  lemma SingleEmployeeIff(data: seq<ScoreRow>)
    ensures IsSingleEmployee(Pivot(data)) <==> |Employees(data)| == 1 || "score" in Employees(data)
  {
    PivotShape(data);
  }
}
