/**
 * frontend/src/pages/Reports.jsx: the shaping of two analytics responses
 * before they are charted, and the rule that decides whether the skill-level
 * pie is drawn. Numbers are `Option<real>`, `None` standing for NaN.
 */
module Reports {
  import opened Common

  // ---------------------------------------------------------------------------
  // Skill-level distribution
  // ---------------------------------------------------------------------------

  /** The bucket order of the chart. */
  const Levels: seq<string> := ["Beginner", "Intermediate", "Advanced", "Expert"]

  /** A row of the GROUP BY skill_level answer; COUNT(*) arrives as decimal text. */
  datatype LevelCountRow = LevelCountRow(skillLevel: Option<string>, count: string)

  datatype Bucket = Bucket(name: string, value: Option<real>)

  /** The index of the first row whose level is `level`, if any. */
  function FindLevel(raw: seq<LevelCountRow>, level: string): (m: Option<nat>)
    ensures m.None? <==> forall k :: 0 <= k < |raw| ==> raw[k].skillLevel != Some(level)
    ensures m.Some? ==> (m.value < |raw| && raw[m.value].skillLevel == Some(level)
      && forall k :: 0 <= k < m.value ==> raw[k].skillLevel != Some(level))
    decreases |raw|
  {
    if raw == [] then None
    else if raw[0].skillLevel == Some(level) then Some(0)
    else
      var rest := FindLevel(raw[1..], level);
      if rest.None? then None else Some(rest.value + 1)
  }

  /** The count of the first row with the level, read as a number; 0 when no row has the level. */
  function LevelValue(raw: seq<LevelCountRow>, level: string): Option<real> {
    var m := FindLevel(raw, level);
    if m.None? then Some(0.0) else ParseDecimal(raw[m.value].count)
  }

  /** fetchSkillLevelWise's transform: one bucket per level, in the fixed order. */
  function SkillLevelWise(raw: seq<LevelCountRow>): (buckets: seq<Bucket>)
    ensures |buckets| == 4
    ensures forall i :: 0 <= i < 4 ==> buckets[i].name == Levels[i]
  {
    seq(|Levels|, i requires 0 <= i < |Levels| => Bucket(Levels[i], LevelValue(raw, Levels[i])))
  }

  /**
   * Each bucket holds the count of the first row of its level, read as a
   * number, and 0 when the answer has no such row.
   */
  lemma BucketValues(raw: seq<LevelCountRow>, i: nat, k: nat, count: nat)
    requires i < 4 && k < |raw|
    requires raw[k] == LevelCountRow(Some(Levels[i]), NatToDecimal(count))
    requires forall j :: 0 <= j < k ==> raw[j].skillLevel != Some(Levels[i])
    ensures SkillLevelWise(raw)[i].value == Some(count as real)
  {
    var m := FindLevel(raw, Levels[i]);
    assert m == Some(k);
    ParseDecimalOfInteger(count);
  }

  lemma MissingLevelIsZero(raw: seq<LevelCountRow>, i: nat)
    requires i < 4
    requires forall k :: 0 <= k < |raw| ==> raw[k].skillLevel != Some(Levels[i])
    ensures SkillLevelWise(raw)[i].value == Some(0.0)
  {
  }

  /** A row whose label is none of the four levels (such as the NULL group) changes no bucket. */
  lemma OtherLabelsIgnored(a: seq<LevelCountRow>, x: LevelCountRow, b: seq<LevelCountRow>)
    requires forall level :: level in Levels ==> x.skillLevel != Some(level)
    ensures SkillLevelWise(a + [x] + b) == SkillLevelWise(a + b)
  {
    forall i | 0 <= i < 4
      ensures LevelValue(a + [x] + b, Levels[i]) == LevelValue(a + b, Levels[i])
    {
      assert Levels[i] in Levels;
      LevelValueSkips(a, x, b, Levels[i]);
    }
  }

  lemma LevelValueSkips(a: seq<LevelCountRow>, x: LevelCountRow, b: seq<LevelCountRow>, level: string)
    requires x.skillLevel != Some(level)
    ensures LevelValue(a + [x] + b, level) == LevelValue(a + b, level)
  {
    FindSkips(a, x, b, level);
    var m := FindLevel(a + b, level);
    if m.Some? {
      if m.value < |a| {
        assert (a + [x] + b)[m.value] == (a + b)[m.value];
      } else {
        assert (a + [x] + b)[m.value + 1] == (a + b)[m.value];
      }
    }
  }

  /** `find` answers the first row with the level, wherever that is. */
  lemma FindLevelIsFirst(raw: seq<LevelCountRow>, level: string, k: nat)
    requires k < |raw| && raw[k].skillLevel == Some(level)
    requires forall j :: 0 <= j < k ==> raw[j].skillLevel != Some(level)
    ensures FindLevel(raw, level) == Some(k)
  {
    var m := FindLevel(raw, level);
    assert m.Some?;
    assert !(m.value < k) && !(k < m.value);
  }

  /** Inserting a row of another label shifts the first match past it, or leaves it. */
  lemma FindSkips(a: seq<LevelCountRow>, x: LevelCountRow, b: seq<LevelCountRow>, level: string)
    requires x.skillLevel != Some(level)
    ensures var m, n := FindLevel(a + [x] + b, level), FindLevel(a + b, level);
      && (n.None? ==> m.None?)
      && (n.Some? && n.value < |a| ==> m == n)
      && (n.Some? && n.value >= |a| ==> m == Some(n.value + 1))
  {
    var s1, s2 := a + [x] + b, a + b;
    InsertedAt(a, x, b);
    var n := FindLevel(s2, level);
    if n.None? {
      forall k | 0 <= k < |s1|
        ensures s1[k].skillLevel != Some(level)
      {
        if k > |a| {
          assert s1[(k - 1) + 1] == s2[k - 1];
        }
      }
    } else if n.value < |a| {
      FindLevelIsFirst(s1, level, n.value);
    } else {
      forall j | 0 <= j < n.value + 1
        ensures s1[j].skillLevel != Some(level)
      {
        if j > |a| {
          assert s1[(j - 1) + 1] == s2[j - 1];
        }
      }
      FindLevelIsFirst(s1, level, n.value + 1);
    }
  }

  /** The positions of `a + [x] + b` against those of `a + b`. */
  lemma InsertedAt<T>(a: seq<T>, x: T, b: seq<T>)
    ensures |a + [x] + b| == |a + b| + 1
    ensures forall k :: 0 <= k < |a| ==> (a + [x] + b)[k] == (a + b)[k]
    ensures (a + [x] + b)[|a|] == x
    ensures forall k :: |a| <= k < |a + b| ==> (a + [x] + b)[k + 1] == (a + b)[k]
  {
  }

  /** The pie is drawn when some bucket holds a number above 0 (NaN is not). */
  predicate ShowDistribution(buckets: seq<Bucket>) {
    exists i :: 0 <= i < |buckets| && buckets[i].value.Some? && buckets[i].value.value > 0.0
  }

  /** Every group of a GROUP BY has at least one row, so its COUNT is a positive decimal. */
  ghost predicate CountsArePositive(raw: seq<LevelCountRow>) {
    forall k :: 0 <= k < |raw| ==> exists c: nat :: c >= 1 && raw[k].count == NatToDecimal(c)
  }

  /** With group counts as the server sends them, the pie shows iff some row has one of the four levels. */
  lemma DistributionShownIff(raw: seq<LevelCountRow>)
    requires CountsArePositive(raw)
    ensures ShowDistribution(SkillLevelWise(raw)) <==>
      exists k, i :: 0 <= k < |raw| && 0 <= i < 4 && raw[k].skillLevel == Some(Levels[i])
  {
    var buckets := SkillLevelWise(raw);
    if exists k, i :: 0 <= k < |raw| && 0 <= i < 4 && raw[k].skillLevel == Some(Levels[i]) {
      var k0, i :| 0 <= k0 < |raw| && 0 <= i < 4 && raw[k0].skillLevel == Some(Levels[i]);
      var m := FindLevel(raw, Levels[i]);
      var k := m.value;
      var c: nat :| c >= 1 && raw[k].count == NatToDecimal(c);
      BucketValues(raw, i, k, c);
      assert buckets[i].value.value > 0.0;
    }
    if ShowDistribution(buckets) {
      var i :| 0 <= i < |buckets| && buckets[i].value.Some? && buckets[i].value.value > 0.0;
      var m := FindLevel(raw, Levels[i]);
      assert m.Some?;
    }
  }

  // ---------------------------------------------------------------------------
  // Department averages
  // ---------------------------------------------------------------------------

  /** A row of the department-wise answer; ROUND(AVG(score), 1) arrives as decimal text. */
  datatype DeptAverageRow = DeptAverageRow(deptName: string, averageScore: string)

  datatype DeptAverage = DeptAverage(deptName: string, averageScore: Option<real>)

  /** Every row with its average score text read as a number. */
  function DepartmentWise(data: seq<DeptAverageRow>): (parsed: seq<DeptAverage>)
    ensures |parsed| == |data|
    ensures forall i :: 0 <= i < |data| ==> parsed[i].deptName == data[i].deptName
  {
    seq(|data|, i requires 0 <= i < |data| => DeptAverage(data[i].deptName, ParseDecimal(data[i].averageScore)))
  }

  /** An average printed with one decimal place is charted as that exact value. */
  lemma DepartmentAverageRead(data: seq<DeptAverageRow>, i: nat, whole: nat, tenth: nat)
    requires i < |data| && tenth < 10
    requires data[i].averageScore == NatToDecimal(whole) + "." + [DigitChar(tenth)]
    ensures DepartmentWise(data)[i] == DeptAverage(data[i].deptName, Some(whole as real + tenth as real / 10.0))
  {
    ParseDecimalOneDecimal(whole, tenth);
  }
}
