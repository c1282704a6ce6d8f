/**
 * frontend/src/components/EmployeeGraphView.jsx: the skill name to id map,
 * the list of years to choose from, and the growth series of one skill:
 * filtered by skill name, grouped by `year-quarter` with the last score
 * winning, then ordered by year and quarter.
 */
module EmployeeGraphView {
  import opened Common
  import opened Sorting

  // ---------------------------------------------------------------------------
  // Skill name to id
  // ---------------------------------------------------------------------------

  /** A row of /skills/employee-skills. */
  datatype EmployeeSkill = EmployeeSkill(skillId: int, skillName: string)

  predicate HasName(skills: seq<EmployeeSkill>, name: string) {
    exists k :: 0 <= k < |skills| && skills[k].skillName == name
  }

  /** `id` is the id of the last row named `name`. */
  predicate LastIdOf(skills: seq<EmployeeSkill>, name: string, id: int) {
    exists k :: 0 <= k < |skills| && skills[k] == EmployeeSkill(id, name)
      && forall j :: k < j < |skills| ==> skills[j].skillName != name
  }

  /** The dictionary from skill name to skill id built over the employee's skills; a later row of the same name overwrites an earlier one. */
  function SkillIdMap(skills: seq<EmployeeSkill>): map<string, int>
    decreases |skills|
  {
    if skills == [] then map[]
    else SkillIdMap(skills[..|skills| - 1])[skills[|skills| - 1].skillName := skills[|skills| - 1].skillId]
  }

  /** The map's names are exactly the rows' names. */
  lemma {:induction false} SkillIdMapKeys(skills: seq<EmployeeSkill>)
    ensures forall name :: name in SkillIdMap(skills) <==> HasName(skills, name)
    decreases |skills|
  {
    if skills != [] {
      var n := |skills| - 1;
      var prefix := skills[..n];
      SkillIdMapKeys(prefix);
      assert SkillIdMap(skills) == SkillIdMap(prefix)[skills[n].skillName := skills[n].skillId];
      forall name
        ensures name in SkillIdMap(skills) <==> HasName(skills, name)
      {
        if name == skills[n].skillName {
          assert skills[n].skillName == name;
        } else {
          assert name in SkillIdMap(skills) <==> name in SkillIdMap(prefix);
          if HasName(skills, name) {
            var k :| 0 <= k < |skills| && skills[k].skillName == name;
            assert prefix[k].skillName == name;
          }
          if HasName(prefix, name) {
            var k :| 0 <= k < n && prefix[k].skillName == name;
            assert skills[k].skillName == name;
          }
        }
      }
    }
  }

  /** Each name maps to the id of its last row: a later row overwrites an earlier one. */
  lemma {:induction false} SkillIdMapLast(skills: seq<EmployeeSkill>)
    ensures forall name :: name in SkillIdMap(skills) ==> LastIdOf(skills, name, SkillIdMap(skills)[name])
    decreases |skills|
  {
    if skills != [] {
      var n := |skills| - 1;
      var prefix := skills[..n];
      SkillIdMapLast(prefix);
      var prev, m := SkillIdMap(prefix), SkillIdMap(skills);
      assert m == prev[skills[n].skillName := skills[n].skillId];
      forall name | name in m
        ensures LastIdOf(skills, name, m[name])
      {
        if name == skills[n].skillName {
          assert skills[n] == EmployeeSkill(m[name], name);
        } else {
          LastIdOfExtends(skills, name, prev[name]);
        }
      }
    }
  }

  /** A row of another name keeps the last row of `name` the last one. */
  lemma LastIdOfExtends(skills: seq<EmployeeSkill>, name: string, id: int)
    requires skills != [] && skills[|skills| - 1].skillName != name
    requires LastIdOf(skills[..|skills| - 1], name, id)
    ensures LastIdOf(skills, name, id)
  {
    var n := |skills| - 1;
    var prefix := skills[..n];
    var k :| 0 <= k < n && prefix[k] == EmployeeSkill(id, name)
      && forall j :: k < j < n ==> prefix[j].skillName != name;
    assert skills[k] == EmployeeSkill(id, name);
    assert forall j :: k < j < |skills| ==> skills[j].skillName != name by {
      forall j | k < j < |skills|
        ensures skills[j].skillName != name
      {
        if j < n {
          assert prefix[j] == skills[j];
        }
      }
    }
  }

  /** The imperative reduce: one assignment per row, a later row overwriting an earlier one. */
  method BuildSkillIdMap(skills: seq<EmployeeSkill>) returns (acc: map<string, int>)
    ensures acc == SkillIdMap(skills)
  {
    acc := map[];
    var i := 0;
    while i < |skills|
      invariant 0 <= i <= |skills|
      invariant acc == SkillIdMap(skills[..i])
    {
      assert skills[..i + 1][..i] == skills[..i];
      acc := acc[skills[i].skillName := skills[i].skillId];
      i := i + 1;
    }
    assert skills[..i] == skills;
  }

  /** `skillIds[skillName]` tested with `!skillId`: an absent name, or id 0, fetches nothing. */
  function GraphSkillId(ids: map<string, int>, skillName: string): (r: Option<int>)
    ensures r.None? <==> skillName !in ids || ids[skillName] == 0
    ensures r.Some? ==> r.value == ids[skillName] != 0
  {
    if skillName in ids && ids[skillName] != 0 then Some(ids[skillName]) else None
  }

  /** A skill the employee has under a positive id is graphed with the id of its last row. */
  lemma GraphUsesLastId(skills: seq<EmployeeSkill>, skillName: string)
    requires forall k :: 0 <= k < |skills| ==> skills[k].skillId > 0
    ensures var r := GraphSkillId(SkillIdMap(skills), skillName);
      && (r.None? <==> !HasName(skills, skillName))
      && (r.Some? ==> LastIdOf(skills, skillName, r.value))
  {
    SkillIdMapKeys(skills);
    SkillIdMapLast(skills);
    var m := SkillIdMap(skills);
    if skillName in m {
      var k :| 0 <= k < |skills| && skills[k] == EmployeeSkill(m[skillName], skillName)
        && forall j :: k < j < |skills| ==> skills[j].skillName != skillName;
      assert m[skillName] > 0;
    }
  }

  // ---------------------------------------------------------------------------
  // Years to choose from
  // ---------------------------------------------------------------------------

  /** Array.prototype.sort without a comparator orders by the decimal text. */
  function YearTextPrecedes(): (int, int) -> bool {
    (a: int, b: int) => !StrLess(IntToDecimal(b), IntToDecimal(a))
  }

  lemma YearTextIsTotalPreorder()
    ensures TotalPreorder(YearTextPrecedes())
  {
    var le := YearTextPrecedes();
    forall a, b
      ensures le(a, b) || le(b, a)
    {
      StrLessTrichotomy(IntToDecimal(a), IntToDecimal(b));
    }
    forall a, b, c | le(a, b) && le(b, c)
      ensures le(a, c)
    {
      var x, y, z := IntToDecimal(a), IntToDecimal(b), IntToDecimal(c);
      StrLessTrichotomy(x, y);
      StrLessTrichotomy(y, z);
      if StrLess(z, x) {
        if x == y {
          StrLessTrichotomy(z, x);
        } else if y == z {
          StrLessTrichotomy(z, x);
        } else {
          StrLessTransitive(x, y, z);
          StrLessTrichotomy(x, z);
        }
      }
    }
  }

  /** The years offered in the year picker: each distinct year once, sorted. */
  function AvailableYears(years: seq<int>): (r: seq<int>)
    ensures forall i :: 0 <= i < |r| ==> r[i] in years
    ensures forall i :: 0 <= i < |years| ==> years[i] in r
    ensures forall i, j :: 0 <= i < j < |r| ==> r[i] != r[j]
  {
    var d := Distinct(years);
    var r := SortBy(d, YearTextPrecedes());
    RearrangedYears(years, d, r);
    r
  }

  /** A rearrangement of the distinct years holds each year of the rows once. */
  lemma RearrangedYears(years: seq<int>, d: seq<int>, r: seq<int>)
    requires d == Distinct(years) && multiset(r) == multiset(d)
    ensures forall i :: 0 <= i < |r| ==> r[i] in years
    ensures forall i :: 0 <= i < |years| ==> years[i] in r
    ensures forall i, j :: 0 <= i < j < |r| ==> r[i] != r[j]
  {
    forall i | 0 <= i < |r|
      ensures r[i] in years
    {
      assert r[i] in multiset(d);
    }
    forall i | 0 <= i < |years|
      ensures years[i] in r
    {
      assert years[i] in d;
      assert years[i] in multiset(r);
    }
    PermutationKeepsDistinctKeys(d, r, (y: int) => y);
  }

  /** The list is ordered by its decimal texts. */
  lemma AvailableYearsSorted(years: seq<int>)
    ensures Sorted(AvailableYears(years), YearTextPrecedes())
  {
    YearTextIsTotalPreorder();
    SortBySorted(Distinct(years), YearTextPrecedes());
  }

  lemma FourDigits(n: nat)
    requires 1000 <= n <= 9999
    ensures |NatToDecimal(n)| == 4
  {
    assert |NatToDecimal(n / 10 / 10 / 10)| == 1;
    assert |NatToDecimal(n / 10 / 10)| == 2;
    assert |NatToDecimal(n / 10)| == 3;
  }

  /** For four-digit years, such as every calendar year the data holds, text order is numeric order. */
  lemma AvailableYearsNumeric(years: seq<int>)
    requires forall i :: 0 <= i < |years| ==> 1000 <= years[i] <= 9999
    ensures var r := AvailableYears(years);
      forall i, j :: 0 <= i < j < |r| ==> r[i] < r[j]
  {
    var r := AvailableYears(years);
    AvailableYearsSorted(years);
    forall i, j | 0 <= i < j < |r|
      ensures r[i] < r[j]
    {
      var a, b := r[i], r[j];
      assert a in years && b in years;
      FourDigits(a);
      FourDigits(b);
      DecimalOrderMatchesNumeric(a, b);
      DecimalOrderMatchesNumeric(b, a);
    }
  }

  // ---------------------------------------------------------------------------
  // Growth series
  // ---------------------------------------------------------------------------

  /** A row of /analytics/employee-growth, its score already a number. */
  datatype GrowthItem = GrowthItem(skillName: string, year: int, quarter: string, score: real)

  /** A point of the line chart: its `time` is `year-quarter`. */
  datatype Point = Point(year: int, quarter: string, score: real)

  /** The `${year}-${quarter}` text a data point is keyed by. */
  function TimeKey(year: int, quarter: string): string {
    IntToDecimal(year) + "-" + quarter
  }

  lemma IntToDecimalShape(y: int)
    ensures |IntToDecimal(y)| >= 1
    ensures forall i :: 1 <= i < |IntToDecimal(y)| ==> IsDigit(IntToDecimal(y)[i])
    ensures y >= 0 <==> IsDigit(IntToDecimal(y)[0])
  {
    if y < 0 {
      var d := NatToDecimal(-y);
      assert forall i :: 1 <= i < |IntToDecimal(y)| ==> IntToDecimal(y)[i] == d[i - 1];
    }
  }

  /**
   * Two points have the same key text exactly when they have the same year
   * and quarter, so the reduce may compare the pair instead of the text.
   */
  lemma TimeKeyInjective(y1: int, q1: string, y2: int, q2: string)
    ensures TimeKey(y1, q1) == TimeKey(y2, q2) <==> y1 == y2 && q1 == q2
  {
    var d1, d2 := IntToDecimal(y1), IntToDecimal(y2);
    var s := TimeKey(y1, q1);
    if s == TimeKey(y2, q2) {
      IntToDecimalShape(y1);
      IntToDecimalShape(y2);
      assert s[|d1|] == '-' && s[|d2|] == '-';
      assert forall i :: 1 <= i < |d2| ==> s[i] == d2[i];
      assert forall i :: 1 <= i < |d1| ==> s[i] == d1[i];
      assert |d1| == |d2|;
      assert d1 == s[..|d1|] == d2;
      assert q1 == s[|d1| + 1..] == q2;
      if y1 >= 0 && y2 >= 0 {
        NatToDecimalInjective(y1, y2);
      } else if y1 < 0 && y2 < 0 {
        assert NatToDecimal(-y1) == d1[1..] == NatToDecimal(-y2);
        NatToDecimalInjective(-y1, -y2);
      }
    }
  }

  /** The key of a point, as the pair its text is printed from. */
  function PointKey(p: Point): (int, string) {
    (p.year, p.quarter)
  }

  function ItemKey(item: GrowthItem): (int, string) {
    (item.year, item.quarter)
  }

  /** The key text of a point. */
  function Time(p: Point): string {
    TimeKey(p.year, p.quarter)
  }

  /** The items of the skill, each as often as it occurs, in response order. */
  function OfSkill(items: seq<GrowthItem>, skillName: string): (r: seq<GrowthItem>)
    ensures forall k :: 0 <= k < |r| ==> r[k].skillName == skillName
    ensures forall k :: 0 <= k < |items| && items[k].skillName == skillName ==> items[k] in r
    ensures IsSubsequence(r, items)
    ensures forall x {:trigger multiset(r)[x]} :: multiset(r)[x] == if x.skillName == skillName then multiset(items)[x] else 0
  {
    Filter(items, (x: GrowthItem) => x.skillName == skillName)
  }

  /** The index of the first point with the key, if any; keys compared as (year, quarter) pairs. */
  function FindTime(acc: seq<Point>, key: (int, string)): (k: Option<nat>)
    ensures k.None? <==> forall i :: 0 <= i < |acc| ==> PointKey(acc[i]) != key
    ensures k.Some? ==> (k.value < |acc| && PointKey(acc[k.value]) == key
      && forall i :: 0 <= i < k.value ==> PointKey(acc[i]) != key)
    decreases |acc|
  {
    if acc == [] then None
    else if PointKey(acc[0]) == key then Some(0)
    else
      var rest := FindTime(acc[1..], key);
      if rest.None? then None else Some(rest.value + 1)
  }

  /** One reduce step: a new point for a new key, else the existing point takes the score. */
  function Step(acc: seq<Point>, item: GrowthItem): seq<Point> {
    var k := FindTime(acc, ItemKey(item));
    if k.None? then acc + [Point(item.year, item.quarter, item.score)]
    else acc[k.value := acc[k.value].(score := item.score)]
  }

  function Grouped(items: seq<GrowthItem>): seq<Point>
    decreases |items|
  {
    if items == [] then [] else Step(Grouped(items[..|items| - 1]), items[|items| - 1])
  }

  /** Item k is the last of `items` with this key. */
  predicate LastWithKey(items: seq<GrowthItem>, key: (int, string), k: int) {
    0 <= k < |items| && ItemKey(items[k]) == key && forall j :: k < j < |items| ==> ItemKey(items[j]) != key
  }

  /** A step keeps every existing key in place and adds at most the item's key, at the end. */
  lemma StepShape(acc: seq<Point>, item: GrowthItem)
    ensures FindTime(acc, ItemKey(item)).None? ==> (|Step(acc, item)| == |acc| + 1
      && PointKey(Step(acc, item)[|acc|]) == ItemKey(item) && Step(acc, item)[|acc|].score == item.score)
    ensures FindTime(acc, ItemKey(item)).Some? ==> (|Step(acc, item)| == |acc|
      && Step(acc, item)[FindTime(acc, ItemKey(item)).value].score == item.score)
    ensures forall i :: 0 <= i < |acc| ==> PointKey(Step(acc, item)[i]) == PointKey(acc[i])
    ensures forall i :: 0 <= i < |acc| && PointKey(acc[i]) != ItemKey(item) ==> Step(acc, item)[i] == acc[i]
  {
  }

  /** No two points of the reduce share a key. */
  lemma {:induction false} GroupedKeysDistinct(items: seq<GrowthItem>)
    ensures forall i, j :: 0 <= i < j < |Grouped(items)| ==> PointKey(Grouped(items)[i]) != PointKey(Grouped(items)[j])
    decreases |items|
  {
    if items != [] {
      var n := |items| - 1;
      var prefix, x := items[..n], items[n];
      GroupedKeysDistinct(prefix);
      var prev, g := Grouped(prefix), Grouped(items);
      StepShape(prev, x);
      var f := FindTime(prev, ItemKey(x));
      forall i, j | 0 <= i < j < |g|
        ensures PointKey(g[i]) != PointKey(g[j])
      {
        if j < |prev| {
          assert PointKey(prev[i]) != PointKey(prev[j]);
        } else {
          assert f.None? && PointKey(prev[i]) != ItemKey(x);
        }
      }
    }
  }

  /** Some point of `points` has this key. */
  predicate HasPoint(points: seq<Point>, key: (int, string)) {
    exists i :: 0 <= i < |points| && PointKey(points[i]) == key
  }

  /** `p` holds the score of the last item with its key. */
  predicate HoldsLastScore(items: seq<GrowthItem>, p: Point) {
    exists k :: 0 <= k < |items| && LastWithKey(items, PointKey(p), k) && p.score == items[k].score
  }

  /** Every item's key has a point. */
  lemma {:induction false} GroupedCoversItems(items: seq<GrowthItem>)
    ensures forall k :: 0 <= k < |items| ==> HasPoint(Grouped(items), ItemKey(items[k]))
    decreases |items|
  {
    if items != [] {
      var n := |items| - 1;
      var prefix, x := items[..n], items[n];
      GroupedCoversItems(prefix);
      var prev, g := Grouped(prefix), Grouped(items);
      StepShape(prev, x);
      var f := FindTime(prev, ItemKey(x));
      forall k | 0 <= k < |items|
        ensures HasPoint(g, ItemKey(items[k]))
      {
        if k == n {
          if f.None? {
            assert PointKey(g[|prev|]) == ItemKey(x);
          } else {
            assert PointKey(g[f.value]) == ItemKey(x);
          }
        } else {
          assert prefix[k] == items[k];
          assert HasPoint(prev, ItemKey(prefix[k]));
          var i :| 0 <= i < |prev| && PointKey(prev[i]) == ItemKey(prefix[k]);
          assert PointKey(g[i]) == PointKey(prev[i]);
        }
      }
    }
  }

  /** Every point holds the score of the last item with its key. */
  lemma {:induction false} GroupedLastScore(items: seq<GrowthItem>)
    ensures forall i :: 0 <= i < |Grouped(items)| ==> HoldsLastScore(items, Grouped(items)[i])
    decreases |items|
  {
    if items != [] {
      var n := |items| - 1;
      var prefix, x := items[..n], items[n];
      GroupedLastScore(prefix);
      GroupedKeysDistinct(prefix);
      var prev, g := Grouped(prefix), Grouped(items);
      StepShape(prev, x);
      var f := FindTime(prev, ItemKey(x));
      forall i | 0 <= i < |g|
        ensures HoldsLastScore(items, g[i])
      {
        if (f.None? && i == |prev|) || (f.Some? && i == f.value) {
          assert LastWithKey(items, PointKey(g[i]), n);
        } else {
          assert i < |prev|;
          assert PointKey(prev[i]) != ItemKey(x);
          assert g[i] == prev[i];
          assert HoldsLastScore(prefix, prev[i]);
          var k :| 0 <= k < |prefix| && LastWithKey(prefix, PointKey(prev[i]), k) && prev[i].score == prefix[k].score;
          assert items[k] == prefix[k];
          assert LastWithKey(items, PointKey(g[i]), k);
        }
      }
    }
  }

  /** The chart order: by year, and within a year by quarter text; negative, zero or positive. */
  function ComparePoints(a: Point, b: Point): int {
    if a.year - b.year != 0 then a.year - b.year
    else if StrLess(a.quarter, b.quarter) then -1
    else if StrLess(b.quarter, a.quarter) then 1
    else 0
  }

  function PointPrecedes(): (Point, Point) -> bool {
    (a: Point, b: Point) => ComparePoints(a, b) <= 0
  }

  /** Year first, numerically, then quarter label: the order of the chart's x axis. */
  predicate PointBefore(a: Point, b: Point) {
    a.year < b.year || (a.year == b.year && StrLess(a.quarter, b.quarter))
  }

  lemma PointPrecedesIsTotalPreorder()
    ensures TotalPreorder(PointPrecedes())
  {
    var le := PointPrecedes();
    forall a, b
      ensures le(a, b) || le(b, a)
    {
      StrLessTrichotomy(a.quarter, b.quarter);
    }
    forall a, b, c | le(a, b) && le(b, c)
      ensures le(a, c)
    {
      var x, y, z := a.quarter, b.quarter, c.quarter;
      StrLessTrichotomy(x, y);
      StrLessTrichotomy(y, z);
      StrLessTrichotomy(x, z);
      if a.year == b.year == c.year && StrLess(z, x) {
        if x != y && y != z {
          StrLessTransitive(x, y, z);
        }
      }
    }
  }

  /** The growth series shown for `skillName`. */
  function Series(items: seq<GrowthItem>, skillName: string): seq<Point> {
    SortBy(Grouped(OfSkill(items, skillName)), PointPrecedes())
  }

  /** The points before sorting have distinct keys, so the sorted points are strictly ordered. */
  lemma SeriesStrictlyOrdered(items: seq<GrowthItem>, skillName: string)
    ensures forall i, j :: 0 <= i < j < |Series(items, skillName)| ==>
      PointBefore(Series(items, skillName)[i], Series(items, skillName)[j])
  {
    var acc := Grouped(OfSkill(items, skillName));
    var points := SortBy(acc, PointPrecedes());
    GroupedKeysDistinct(OfSkill(items, skillName));
    PointPrecedesIsTotalPreorder();
    SortBySorted(acc, PointPrecedes());
    PermutationKeepsDistinctKeys(acc, points, PointKey);
    forall j, l | 0 <= j < l < |points|
      ensures PointBefore(points[j], points[l])
    {
      StrLessTrichotomy(points[j].quarter, points[l].quarter);
    }
  }

  /** Every `year-quarter` of an item of the skill has a point. */
  lemma SeriesCoversItems(items: seq<GrowthItem>, skillName: string)
    ensures forall k :: 0 <= k < |items| && items[k].skillName == skillName ==>
      HasPoint(Series(items, skillName), ItemKey(items[k]))
  {
    var data := OfSkill(items, skillName);
    var acc := Grouped(data);
    var points := SortBy(acc, PointPrecedes());
    GroupedCoversItems(data);
    forall k | 0 <= k < |items| && items[k].skillName == skillName
      ensures HasPoint(points, ItemKey(items[k]))
    {
      var q :| 0 <= q < |data| && data[q] == items[k];
      assert HasPoint(acc, ItemKey(data[q]));
      var a :| 0 <= a < |acc| && PointKey(acc[a]) == ItemKey(data[q]);
      assert acc[a] in multiset(points);
      var p :| 0 <= p < |points| && points[p] == acc[a];
    }
  }

  /** Every point carries the score of the last item of the skill with its `year-quarter`. */
  lemma SeriesLastScoreWins(items: seq<GrowthItem>, skillName: string)
    ensures forall i :: 0 <= i < |Series(items, skillName)| ==>
      HoldsLastScore(OfSkill(items, skillName), Series(items, skillName)[i])
  {
    var data := OfSkill(items, skillName);
    var acc := Grouped(data);
    var points := SortBy(acc, PointPrecedes());
    GroupedLastScore(data);
    forall p | 0 <= p < |points|
      ensures HoldsLastScore(data, points[p])
    {
      assert points[p] in multiset(acc);
      var a :| 0 <= a < |acc| && acc[a] == points[p];
    }
  }

  /** The linear search stops where FindTime does. */
  lemma FoundTime(acc: seq<Point>, key: (int, string), k: nat)
    requires k <= |acc|
    requires forall j :: 0 <= j < k ==> PointKey(acc[j]) != key
    requires k < |acc| ==> PointKey(acc[k]) == key
    ensures k == |acc| ==> FindTime(acc, key).None?
    ensures k < |acc| ==> FindTime(acc, key) == Some(k)
  {
  }

  /** The linear search for the point whose time text is the item's: its index, or `|acc|` when there is none. */
  method FindPoint(acc: seq<Point>, item: GrowthItem) returns (k: nat)
    ensures k <= |acc|
    ensures k == |acc| ==> FindTime(acc, ItemKey(item)).None?
    ensures k < |acc| ==> FindTime(acc, ItemKey(item)) == Some(k)
  {
    var timeKey := TimeKey(item.year, item.quarter);
    k := 0;
    while k < |acc| && Time(acc[k]) != timeKey
      invariant 0 <= k <= |acc|
      invariant forall j :: 0 <= j < k ==> PointKey(acc[j]) != ItemKey(item)
    {
      TimeKeyInjective(acc[k].year, acc[k].quarter, item.year, item.quarter);
      k := k + 1;
    }
    if k < |acc| {
      TimeKeyInjective(acc[k].year, acc[k].quarter, item.year, item.quarter);
    }
    FoundTime(acc, ItemKey(item), k);
  }

  /**
   * fetchGraphData's transform: filter, reduce into `acc` by `year-quarter`
   * (find the point, push a new one when there is none, then set its score),
   * and sort.
   */
  method GrowthSeries(items: seq<GrowthItem>, skillName: string) returns (points: seq<Point>)
    ensures points == Series(items, skillName)
  {
    var data := OfSkill(items, skillName);
    var acc: seq<Point> := [];
    var i := 0;
    while i < |data|
      invariant 0 <= i <= |data|
      invariant acc == Grouped(data[..i])
    {
      var item := data[i];
      var k := FindPoint(acc, item);
      ghost var before := acc;
      if k == |acc| {
        acc := acc + [Point(item.year, item.quarter, item.score)];
      } else {
        acc := acc[k := acc[k].(score := item.score)];
      }
      assert acc == Step(before, item);
      assert data[..i + 1][..i] == data[..i];
      i := i + 1;
    }
    assert data[..i] == data;
    points := SortBy(acc, PointPrecedes());
  }
}
