/**
  The current task store, `TaskStore` in internal/database/database.go: each
  method runs its SQL against the `scheduler` table `db`. The clock and the
  recurrence function are parameters.
*/
module InternalDatabase {
  import opened Wrappers
  import opened Dates
  import opened Tasks
  import opened Ids
  import opened SchedulerTable
  import StringOrder
  import Lifecycle

  /** Full replace of the row whose id is `t.id`; no such row is an error. */
  method UpdateTask(db: Table, t: Task) returns (o: Outcome)
    requires db.Valid()
    modifies db
    ensures db.Valid() && db.nextId == old(db.nextId)
    ensures o == if old(db.Match(t.id)).Some? then Success else Failure(NotFound)
    ensures db.rows == match old(db.Match(t.id))
                       case Some(k) => old(db.rows)[k := RowOf(t)]
                       case None => old(db.rows)
  {
    var affected := db.Update(t.id, RowOf(t));
    if affected == 0 {
      return Failure(NotFound);
    }
    return Success;
  }

  /** Removes the row with that id; no such row is an error. */
  method DeleteTask(db: Table, id: string) returns (o: Outcome)
    requires db.Valid()
    modifies db
    ensures db.Valid() && db.nextId == old(db.nextId)
    ensures o == if old(db.Match(id)).Some? then Success else Failure(NotFound)
    ensures db.rows == match old(db.Match(id))
                       case Some(k) => old(db.rows) - {k}
                       case None => old(db.rows)
  {
    var affected := db.Delete(id);
    if affected == 0 {
      return Failure(NotFound);
    }
    return Success;
  }

  /** Validates and normalises the task, inserts it, and returns the new id in decimal. */
  method AddTask(db: Table, t: Task, now: Clock, nextDate: NextDateFn) returns (r: Result<string>)
    requires db.Valid()
    modifies db
    ensures db.Valid()
    ensures t.title == "" ==> r == Err(NoTitle)
    ensures t.title != "" && Lifecycle.AddedDate(t.date, t.repeat, now, nextDate).Err? ==>
              r == Err(Lifecycle.AddedDate(t.date, t.repeat, now, nextDate).error)
    ensures r.Err? ==> db.rows == old(db.rows) && db.nextId == old(db.nextId)
    ensures r.Ok? <==> t.title != "" && Lifecycle.AddedDate(t.date, t.repeat, now, nextDate).Ok?
    ensures r.Ok? ==>
              var id := old(db.nextId);
              && r.value == DecimalString(id)
              && db.Match(r.value) == Some(id)
              && id !in old(db.rows)
              && db.rows == old(db.rows)[id := Row(Lifecycle.AddedDate(t.date, t.repeat, now, nextDate).value,
                                                   t.title, t.comment, t.repeat)]
              && db.nextId == id + 1
  {
    var today := Today(now);
    if t.title == "" {
      return Err(NoTitle);
    }
    var date := t.date;
    if date == "" {
      date := today;
    }
    if Parse(date).None? {
      return Err(BadDate);
    }
    if StringOrder.Less(date, today) {
      if t.repeat != "" {
        var next := nextDate(now, date, t.repeat);
        if next.Err? {
          return Err(BadRepeat);
        }
        date := next.value;
      } else {
        date := today;
      }
    }
    var id := db.Insert(Row(date, t.title, t.comment, t.repeat));
    ParseDecimalString(id);
    return Ok(DecimalString(id));
  }

  /** The due listing: at most MaxTasks tasks dated today or later, ascending by date.
      With none due it is the empty list. */
  method GetTasks(db: Table, now: Clock) returns (tasks: seq<Task>)
    ensures db.IsDueListing(tasks, Today(now), MaxTasks)
  {
    tasks := db.SelectDue(Today(now), MaxTasks);
  }

  /** The task with that id; an empty id and an unknown id are errors. */
  method GetTask(db: Table, id: string) returns (r: Result<Task>)
    ensures id == "" ==> r == Err(NoId)
    ensures id != "" && db.Match(id).None? ==> r == Err(NotFound)
    ensures r.Ok? <==> id != "" && db.Match(id).Some?
    ensures r.Ok? ==> db.HasTask(r.value) && db.Match(r.value.id) == db.Match(id)
    ensures r.Ok? ==> RowOf(r.value) == db.rows[db.Match(id).value]
  {
    if id == "" {
      return Err(NoId);
    }
    var row := db.Select(id);
    if row.None? {
      return Err(NotFound);
    }
    return Ok(row.value);
  }

  /** Marks a task done: a one-off task is deleted, a recurring one moves to NextDate's
      date with everything else kept; any failure leaves the table as it was. */
  method DoneTask(db: Table, id: string, now: Clock, nextDate: NextDateFn) returns (o: Outcome)
    requires db.Valid()
    modifies db
    ensures db.Valid() && db.nextId == old(db.nextId)
    ensures id == "" || old(db.Match(id)).None? ==> o == Failure(LookupFailed) && db.rows == old(db.rows)
    ensures id != "" && old(db.Match(id)).Some? ==>
              var k := old(db.Match(id)).value;
              var row := old(db.rows)[k];
              match Lifecycle.Completed(row, now, nextDate)
              case Remove => o == Success && db.rows == old(db.rows) - {k} && db.Match(id).None?
              case Reschedule(next) =>
                o == Success && db.rows == old(db.rows)[k := row.(date := next)] && db.Match(id) == Some(k)
              case Refuse => o == Failure(BadRepeat) && db.rows == old(db.rows)
  {
    var today := now;
    var got := GetTask(db, id);
    if got.Err? {
      return Failure(LookupFailed);
    }
    var t := got.value;
    if t.repeat == "" {
      var deleted := DeleteTask(db, id);
      o := if deleted.Failure? then Failure(StoreFailed) else Success;
    } else {
      var next := nextDate(today, t.date, t.repeat);
      if next.Err? {
        return Failure(BadRepeat);
      }
      t := t.(date := next.value);
      var updated := UpdateTask(db, t);
      o := if updated.Failure? then Failure(StoreFailed) else Success;
    }
  }
}
