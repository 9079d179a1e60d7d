/**
 * Records shared by the pages: catalogue rows of the `exercises` table and
 * rows of the `user_progress` table, as the components receive them.
 */
module Catalogue {
  import opened Common

  /** The status of one bubble (one sub-exercise of a sheet). */
  datatype Status = Todo | Done | Review

  /**
   * One exercise sheet. A text column that is null or empty is the empty
   * string (both are falsy for the `||` defaults the pages apply);
   * `exerciseCount` is None when the column is null.
   */
  datatype Exercise = Exercise(
    id: int,
    title: string,
    chapter: string,
    niveau: string,
    exerciseCount: Option<nat>,
    isPremium: bool,
    urlEnonce: string)

  /** One stored progress row; `status` is None when the column is null or empty. */
  datatype ProgressRow = ProgressRow(exerciseId: int, index: int, status: Option<Status>)

  /** The bubble a progress entry is about: the page keys it as `"exerciseId:index"`. */
  datatype BubbleKey = BubbleKey(exerciseId: int, index: int)

  function KeyOf(row: ProgressRow): BubbleKey {
    BubbleKey(row.exerciseId, row.index)
  }

  /** `row.status === 'done'`, which is also `(row.status || 'todo') === 'done'`. */
  predicate IsDoneRow(row: ProgressRow) {
    row.status == Some(Done)
  }

  /** `e.exercise_count || 0`: the number of bubbles the sheet contributes to totals. */
  function BubblesOf(e: Exercise): nat {
    match e.exerciseCount
    case Some(n) => n
    case None => 0
  }

  /** `e.chapter || 'Autre'`: the chapter bucket of a sheet in the progress totals. */
  function ChapterKey(e: Exercise): (ch: string)
    ensures ch != ""
    ensures e.chapter != "" ==> ch == e.chapter
    ensures e.chapter == "" ==> ch == "Autre"
  {
    if e.chapter == "" then "Autre" else e.chapter
  }
}
