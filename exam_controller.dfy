/**
 * `ExamController::store` carries a copy of the question import: the same
 * rules and the same insert loop over the same table.
 */
module ExamController {
  import opened Schema
  import QuestionController

  /** `store`: identical to the question import. */
  method Store(db: Database, batch: seq<QuestionController.QuestionEntry>, bounded: bool) returns (outcome: Outcome)
    requires db.Valid()
    modifies db`questions
    ensures db.Valid()
    ensures (outcome, db.questions) == QuestionController.Import(old(db.questions), batch, bounded)
  {
    outcome := QuestionController.Store(db, batch, bounded);
  }
}
