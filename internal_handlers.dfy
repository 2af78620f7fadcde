/**
  The logic of the current request handlers, internal/handlers/handlers.go:
  PutTaskHandler validates and normalises the task itself before updating the
  store; PostTaskHandler and DoneTaskHandler only delegate to the store. Body
  decoding and the JSON replies are not modelled; a reply is an Outcome.
*/
module InternalHandlers {
  import opened Wrappers
  import opened Dates
  import opened Tasks
  import opened Ids
  import opened SchedulerTable
  import Lifecycle
  import InternalDatabase

  /** PostTaskHandler: AddTask, with any of its errors reported as one error. */
  method PostTask(db: Table, t: Task, now: Clock, nextDate: NextDateFn) returns (r: Result<string>)
    requires db.Valid()
    modifies db
    ensures db.Valid()
    ensures r.Err? ==> r == Err(AddFailed) && db.rows == old(db.rows) && db.nextId == old(db.nextId)
    ensures r.Ok? <==> t.title != "" && Lifecycle.AddedDate(t.date, t.repeat, now, nextDate).Ok?
    ensures r.Ok? ==>
              var id := old(db.nextId);
              && r.value == DecimalString(id)
              && db.Match(r.value) == Some(id)
              && db.rows == old(db.rows)[id := Row(Lifecycle.AddedDate(t.date, t.repeat, now, nextDate).value,
                                                   t.title, t.comment, t.repeat)]
              && db.nextId == id + 1
  {
    var added := InternalDatabase.AddTask(db, t, now, nextDate);
    if added.Err? {
      return Err(AddFailed);
    }
    return Ok(added.value);
  }

  /** PutTaskHandler: an empty id or title is refused before the store is touched;
      the date is normalised without a clamp and the whole task handed to UpdateTask once. */
  method PutTask(db: Table, t: Task, now: Clock, nextDate: NextDateFn) returns (o: Outcome)
    requires db.Valid()
    modifies db
    ensures db.Valid() && db.nextId == old(db.nextId)
    ensures t.id == "" ==> o == Failure(NoId) && db.rows == old(db.rows)
    ensures t.id != "" && t.title == "" ==> o == Failure(NoTitle) && db.rows == old(db.rows)
    ensures t.id != "" && t.title != "" ==>
              match Lifecycle.UpdatedDate(t.date, t.repeat, now, nextDate)
              case Err(e) => o == Failure(e) && db.rows == old(db.rows)
              case Ok(date) =>
                && o == (if old(db.Match(t.id)).Some? then Success else Failure(NotFound))
                && db.rows == match old(db.Match(t.id))
                              case Some(k) => old(db.rows)[k := RowOf(t.(date := date))]
                              case None => old(db.rows)
  {
    if t.id == "" {
      return Failure(NoId);
    }
    if t.title == "" {
      return Failure(NoTitle);
    }
    var today := now;
    var task := t;
    if task.date == "" {
      task := task.(date := Today(today));
    }
    var parsed := Parse(task.date);
    if parsed.None? {
      return Failure(BadDate);
    }
    if Before(parsed.value, today) {
      if task.repeat == "" {
        task := task.(date := Today(today));
      } else {
        var next := nextDate(today, task.date, task.repeat);
        if next.Err? {
          return Failure(BadRepeat);
        }
        task := task.(date := next.value);
      }
    }
    o := InternalDatabase.UpdateTask(db, task);
  }

  /** DoneTaskHandler: DoneTask, with any of its errors reported as "not found". */
  method DoneTask(db: Table, id: string, now: Clock, nextDate: NextDateFn) returns (o: Outcome)
    requires db.Valid()
    modifies db
    ensures db.Valid() && db.nextId == old(db.nextId)
    ensures o.Failure? ==> o == Failure(NotFound) && db.rows == old(db.rows)
    ensures o.Success? <==>
              id != "" && old(db.Match(id)).Some? &&
              !Lifecycle.Completed(old(db.rows)[old(db.Match(id)).value], now, nextDate).Refuse?
    ensures id != "" && old(db.Match(id)).Some? ==>
              var k := old(db.Match(id)).value;
              var row := old(db.rows)[k];
              match Lifecycle.Completed(row, now, nextDate)
              case Remove => db.rows == old(db.rows) - {k} && db.Match(id).None?
              case Reschedule(next) => db.rows == old(db.rows)[k := row.(date := next)] && db.Match(id) == Some(k)
              case Refuse => db.rows == old(db.rows)
  {
    var done := InternalDatabase.DoneTask(db, id, now, nextDate);
    if done.Failure? {
      return Failure(NotFound);
    }
    return Success;
  }
}
