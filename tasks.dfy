/** The task record (configs/models.go, models/models.go) and the outcomes of the store's operations. */
module Tasks {
  import opened Dates

  /** configs.MaxTasks: the most tasks one listing returns. */
  const MaxTasks: nat := 10

  /** A task as the handlers and the store exchange it: five strings. */
  datatype Task = Task(id: string, date: string, title: string, comment: string, repeat: string)

  /** A row of the `scheduler` table beside its integer `id` key. */
  datatype Row = Row(date: string, title: string, comment: string, repeat: string)

  /** The four stored columns of a task, without its id. */
  function RowOf(t: Task): (r: Row) {
    Row(t.date, t.title, t.comment, t.repeat)
  }

  /** The error kinds the operations report; messages and HTTP statuses are not modelled. */
  datatype Error =
    | NoTitle       // the title is empty
    | NoId          // the id is empty
    | BadDate       // the date does not parse with layout 20060102
    | BadRepeat     // NextDate refused the repeat rule
    | NotFound      // no row has the id
    | LookupFailed  // DoneTask could not read the task
    | StoreFailed   // a delete or update after a successful read reported an error
    | AddFailed     // the current PostTaskHandler's wrapping of any AddTask error

  datatype Result<T> = Ok(value: T) | Err(error: Error)

  datatype Outcome = Success | Failure(error: Error)

  /** The recurrence function `NextDate(now, date, repeat)`; its code is not part of this model. */
  type NextDateFn = (Clock, string, string) -> Result<string>
}
