/**
 * backend/controllers/skillController.js: `editSkillLevel`, which rescales
 * every evaluation of one skill to a new maximum inside one transaction, and
 * `removeSkill`, which deletes a skill by a parsed id.
 */
module SkillController {
  import opened Common
  import opened EvaluationStore

  // ---------------------------------------------------------------------------
  // editSkillLevel
  // ---------------------------------------------------------------------------

  /**
   * The request guard. `maxScore` is the numeric value of the body's
   * max_score, `None` when it is absent or not a number.
   */
  predicate ValidEditRequest(skillId: string, maxScore: Option<real>) {
    skillId != "" && maxScore.Some? && maxScore.value > 0.0
  }

  /** One row under `SET score = CASE ... END, max_score = $1`. */
  function RescaleRow(e: Evaluation, newMax: real): (r: Evaluation)
    ensures r.maxScore == newMax
    ensures e.maxScore > 0.0 && newMax != 0.0 ==> r.score / r.maxScore == e.score / e.maxScore
    ensures e.maxScore <= 0.0 ==> r.score == e.score
    ensures r == e.(score := r.score, maxScore := newMax)
  {
    if e.maxScore > 0.0 then e.(score := e.score / e.maxScore * newMax, maxScore := newMax)
    else e.(maxScore := newMax)
  }

  /** The table after the UPDATE ... WHERE skill_id = `skillId`. */
  function RescaleAll(rows: seq<Evaluation>, skillId: int, newMax: real): (r: seq<Evaluation>)
    ensures |r| == |rows|
    ensures forall i :: 0 <= i < |rows| && rows[i].skillId == skillId ==> r[i] == RescaleRow(rows[i], newMax)
    ensures forall i :: 0 <= i < |rows| && rows[i].skillId != skillId ==> r[i] == rows[i]
  {
    seq(|rows|, i requires 0 <= i < |rows| =>
      if rows[i].skillId == skillId then RescaleRow(rows[i], newMax) else rows[i])
  }

  /** After the statement every row of the skill has the new maximum, with its ratio kept when it had a positive one. */
  lemma RescaleAllEffect(rows: seq<Evaluation>, skillId: int, newMax: real)
    requires newMax > 0.0
    ensures var r := RescaleAll(rows, skillId, newMax);
      forall i :: 0 <= i < |rows| && rows[i].skillId == skillId ==>
        && r[i].maxScore == newMax
        && (rows[i].maxScore > 0.0 ==> r[i].score / r[i].maxScore == rows[i].score / rows[i].maxScore)
        && (rows[i].maxScore <= 0.0 ==> r[i].score == rows[i].score)
  {
  }

  /** Applying the same maximum twice is applying it once. */
  lemma RescaleIdempotent(rows: seq<Evaluation>, skillId: int, newMax: real)
    requires newMax > 0.0
    ensures RescaleAll(RescaleAll(rows, skillId, newMax), skillId, newMax) == RescaleAll(rows, skillId, newMax)
  {
    var once := RescaleAll(rows, skillId, newMax);
    var twice := RescaleAll(once, skillId, newMax);
    forall i | 0 <= i < |rows|
      ensures twice[i] == once[i]
    {
      if rows[i].skillId == skillId {
        var s := once[i].score;
        assert once[i].maxScore == newMax;
        assert s / newMax * newMax == s;
      }
    }
  }

  /** Rescaling to the maximum the skill's rows already have changes no score. */
  lemma RescaleToCurrentMax(rows: seq<Evaluation>, skillId: int, newMax: real)
    requires forall i :: 0 <= i < |rows| && rows[i].skillId == skillId ==> rows[i].maxScore == newMax
    ensures RescaleAll(rows, skillId, newMax) == rows
  {
    var r := RescaleAll(rows, skillId, newMax);
    forall i | 0 <= i < |rows|
      ensures r[i] == rows[i]
    {
      if rows[i].skillId == skillId && newMax > 0.0 {
        assert rows[i].score / newMax * newMax == rows[i].score;
      }
    }
  }

  /**
   * Two rescales in a row are one rescale to the second maximum, provided
   * every row of the skill started with a positive maximum.
   */
  lemma RescaleComposes(rows: seq<Evaluation>, skillId: int, first: real, second: real)
    requires first > 0.0
    requires forall i :: 0 <= i < |rows| && rows[i].skillId == skillId ==> rows[i].maxScore > 0.0
    ensures RescaleAll(RescaleAll(rows, skillId, first), skillId, second) == RescaleAll(rows, skillId, second)
  {
    var a := RescaleAll(RescaleAll(rows, skillId, first), skillId, second);
    var b := RescaleAll(rows, skillId, second);
    forall i | 0 <= i < |rows|
      ensures a[i] == b[i]
    {
      if rows[i].skillId == skillId {
        var q := rows[i].score / rows[i].maxScore;
        assert q * first / first * second == q * second;
      }
    }
  }

  /** The 0-to-10 normalised score of getAvgSkillScore. */
  function Normalized(e: Evaluation): real
    requires e.maxScore != 0.0
  {
    e.score * 10.0 / e.maxScore
  }

  /** A rescale of rows with a positive maximum leaves every normalised score as it was. */
  lemma NormalizedScorePreserved(rows: seq<Evaluation>, skillId: int, newMax: real)
    requires newMax > 0.0
    ensures var r := RescaleAll(rows, skillId, newMax);
      forall i :: 0 <= i < |rows| && rows[i].maxScore > 0.0 ==> Normalized(r[i]) == Normalized(rows[i])
  {
    var r := RescaleAll(rows, skillId, newMax);
    forall i | 0 <= i < |rows| && rows[i].maxScore > 0.0
      ensures Normalized(r[i]) == Normalized(rows[i])
    {
      if rows[i].skillId == skillId {
        var q := rows[i].score / rows[i].maxScore;
        assert r[i].score == q * newMax;
        assert q * newMax * 10.0 / newMax == q * 10.0;
        assert rows[i].score * 10.0 / rows[i].maxScore == q * 10.0;
      }
    }
  }

  predicate HasSkill(rows: seq<Evaluation>, skillId: int) {
    exists i :: 0 <= i < |rows| && rows[i].skillId == skillId
  }

  /**
   * editSkillLevel. The guard answers 400 before anything is touched. Inside
   * BEGIN ... COMMIT the rows of the skill are rescaled one by one; a
   * statement error (an id the column cannot take, or a database failure at
   * row `failAt`) and an empty match both ROLLBACK to the snapshot taken at
   * BEGIN, so the table ends either fully rescaled or exactly as before.
   */
  method EditSkillLevel(t: EvaluationTable, skillIdParam: string, maxScore: Option<real>, failAt: Option<nat>)
    returns (r: Response<()>)
    modifies t
    ensures r.BadRequest? <==> !ValidEditRequest(skillIdParam, maxScore)
    ensures r.ServerError? <==> (ValidEditRequest(skillIdParam, maxScore)
      && (ParsePgInt(skillIdParam).None? || (failAt.Some? && failAt.value < |old(t.rows)|)))
    ensures r.NotFound? <==> (ValidEditRequest(skillIdParam, maxScore) && ParsePgInt(skillIdParam).Some?
      && (failAt.None? || failAt.value >= |old(t.rows)|) && !HasSkill(old(t.rows), ParsePgInt(skillIdParam).value))
    ensures !r.Ok? ==> t.rows == old(t.rows)
    ensures r.Ok? ==> t.rows == RescaleAll(old(t.rows), ParsePgInt(skillIdParam).value, maxScore.value)
  {
    if !ValidEditRequest(skillIdParam, maxScore) {
      return BadRequest;
    }
    var newMax := maxScore.value;
    // BEGIN
    var snapshot := t.rows;
    var skillId := ParsePgInt(skillIdParam);
    if skillId.None? {
      t.rows := snapshot;
      return ServerError;
    }
    var id := skillId.value;
    var rowCount := 0;
    var i := 0;
    while i < |t.rows|
      invariant 0 <= i <= |t.rows| == |snapshot|
      invariant forall j :: 0 <= j < i ==> t.rows[j] == RescaleAll(snapshot, id, newMax)[j]
      invariant forall j :: i <= j < |t.rows| ==> t.rows[j] == snapshot[j]
      invariant rowCount == 0 <==> forall j :: 0 <= j < i ==> snapshot[j].skillId != id
      invariant failAt.None? || failAt.value >= i
    {
      if failAt == Some(i) {
        // catch: ROLLBACK
        t.rows := snapshot;
        return ServerError;
      }
      if t.rows[i].skillId == id {
        t.rows := t.rows[i := RescaleRow(t.rows[i], newMax)];
        rowCount := rowCount + 1;
      }
      i := i + 1;
    }
    if rowCount == 0 {
      // ROLLBACK, 404
      t.rows := snapshot;
      return NotFound;
    }
    // COMMIT
    assert t.rows == RescaleAll(snapshot, id, newMax);
    r := Ok(());
  }

  // ---------------------------------------------------------------------------
  // removeSkill
  // ---------------------------------------------------------------------------

  /** A row of the Skill table. */
  datatype SkillRecord = SkillRecord(skillId: int, skillName: string, categoryId: Option<int>)

  class SkillTable {
    var rows: seq<SkillRecord>

    constructor (initial: seq<SkillRecord>)
      ensures rows == initial
    {
      rows := initial;
    }
  }

  /** The table after deleting the rows of one skill id: the others, each as often as before, in their order. */
  function WithoutSkill(rows: seq<SkillRecord>, skillId: int): (r: seq<SkillRecord>)
    ensures forall k :: 0 <= k < |r| ==> r[k].skillId != skillId
    ensures forall k :: 0 <= k < |rows| && rows[k].skillId != skillId ==> rows[k] in r
    ensures IsSubsequence(r, rows)
    ensures forall x {:trigger multiset(r)[x]} :: multiset(r)[x] == if x.skillId != skillId then multiset(rows)[x] else 0
  {
    Filter(rows, (x: SkillRecord) => x.skillId != skillId)
  }

  /** The delete removes some row exactly when some row has the id; otherwise the table is as it was. */
  lemma WithoutSkillCount(rows: seq<SkillRecord>, skillId: int)
    ensures |WithoutSkill(rows, skillId)| <= |rows|
    ensures |WithoutSkill(rows, skillId)| == |rows| <==> forall k :: 0 <= k < |rows| ==> rows[k].skillId != skillId
    ensures (forall k :: 0 <= k < |rows| ==> rows[k].skillId != skillId) ==> WithoutSkill(rows, skillId) == rows
  {
    FilterLength(rows, (x: SkillRecord) => x.skillId != skillId);
    if forall k :: 0 <= k < |rows| ==> rows[k].skillId != skillId {
      FilterKeepsAll(rows, (x: SkillRecord) => x.skillId != skillId);
    }
  }

  /**
   * removeSkill: parseInt of the route id, 400 when that is NaN; an integer
   * the skill_id column cannot take makes the DELETE fail (500); otherwise
   * the DELETE, answered with 404 when it removed no row.
   */
  method RemoveSkill(st: SkillTable, skillIdParam: string) returns (r: Response<()>)
    modifies st
    ensures r.BadRequest? <==> ParseInt(skillIdParam).None?
    ensures r.ServerError? <==> ParseInt(skillIdParam).Some? && !InInt4(ParseInt(skillIdParam).value)
    ensures r.BadRequest? || r.ServerError? ==> st.rows == old(st.rows)
    ensures r.Ok? || r.NotFound? ==> st.rows == WithoutSkill(old(st.rows), ParseInt(skillIdParam).value)
    ensures r.NotFound? <==> (ParsedInt4(skillIdParam).Some?
      && forall k :: 0 <= k < |old(st.rows)| ==> old(st.rows)[k].skillId != ParseInt(skillIdParam).value)
    ensures r.NotFound? ==> st.rows == old(st.rows)
  {
    var parsed := ParseInt(skillIdParam);
    if parsed.None? {
      return BadRequest;
    }
    if !InInt4(parsed.value) {
      return ServerError;
    }
    var before := st.rows;
    st.rows := WithoutSkill(st.rows, parsed.value);
    WithoutSkillCount(before, parsed.value);
    var rowCount := |before| - |st.rows|;
    if rowCount == 0 {
      return NotFound;
    }
    r := Ok(());
  }
}
