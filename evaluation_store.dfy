/**
 * The SkillEvaluation table that both back-end controllers read and write.
 * One record per evaluation of one employee on one skill in one quarter of
 * one year; the statements of the controllers reassign `rows`.
 */
module EvaluationStore {
  import opened Common

  /** The stored skill_level label; `None` in a record is SQL NULL. */
  datatype SkillLevel = Beginner | Intermediate | Advanced | Expert

  datatype Evaluation = Evaluation(
    evalId: int,
    empId: int,
    skillId: int,
    score: real,
    maxScore: real,
    quarter: string,
    year: int,
    comment: Option<string>,
    skillLevel: Option<SkillLevel>)

  class EvaluationTable {
    var rows: seq<Evaluation>

    constructor (initial: seq<Evaluation>)
      ensures rows == initial
    {
      rows := initial;
    }
  }
}
