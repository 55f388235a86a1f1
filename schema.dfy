/** Rows of the two SQLite tables of the task ledger and the typed results of
    its operations. Timestamps are whole seconds on one clock that the caller
    passes in (the store never reads a clock itself). */
module Schema {

  datatype Option<+T> = None | Some(value: T)

  /** A row of `users`: `id` is the AUTOINCREMENT key, `telegramId` the UNIQUE
      external identity, `score` starts at 0 and `joinDate` is the time of the
      INSERT. */
  datatype User = User(id: int, telegramId: int, fullName: string, score: int, joinDate: int)

  /** A row of `tasks`. `userId` refers to `users.id`; `isDone` is the 0/1
      column `is_done`; `doneDate` is NULL (None) until the task is completed. */
  datatype Task = Task(
    id: int,
    userId: int,
    title: string,
    category: string,
    priority: int,
    createdAt: int,
    isDone: bool,
    doneDate: Option<int>)

  /** The dictionary that the task listing builds for each selected row. */
  datatype TaskRow = TaskRow(id: int, title: string, category: string, priority: int)

  /** What marking a task done reports: no such task, the minutes still to
      wait, or success with the points credited to the owner. */
  datatype DoneOutcome = NotFound | TooSoon(minutesLeft: int) | Done(points: int)

  /** The minimum age of a task before it may be marked done: 30 minutes. */
  const CompletionDelay: int := 30 * 60

  function RowOf(t: Task): TaskRow
  {
    TaskRow(t.id, t.title, t.category, t.priority)
  }

  /** The WHERE clause of the listing: owned by `userId`, and not done when
      only pending tasks are asked for. */
  predicate Listed(t: Task, userId: int, onlyPending: bool)
  {
    t.userId == userId && (!onlyPending || !t.isDone)
  }

  /** Whether a completion request is accepted (the report is `Done`). */
  predicate Succeeded(outcome: DoneOutcome)
  {
    outcome.Done?
  }
}
