/**
  The logic of the older request handlers, handlers/handlers.go. PostTaskHandler
  normalises the date itself, clamping NextDate's result to today, and inserts
  through the store; PutTaskHandler normalises but never writes the task;
  DoneTaskHandler deletes or reschedules the row itself.
*/
module LegacyHandlers {
  import opened Dates
  import opened Tasks
  import opened SchedulerTable
  import StringOrder
  import Lifecycle
  import LegacyDatabase
  import LegacyUpdate

  /** What DoneTaskHandler sends back: `{}`, an error object, or nothing at all
      (it returns early without writing a reply). */
  datatype Reply = Done | Refused(error: Error) | Silent

  /** PostTaskHandler: a titled task gets the clamped date and is inserted; the id of the
      new row is the reply. */
  method PostTask(db: Table, t: Task, now: Clock, nextDate: NextDateFn) returns (r: Result<nat>)
    requires db.Valid()
    modifies db
    ensures db.Valid()
    ensures t.title == "" ==> r == Err(NoTitle)
    ensures t.title != "" && Lifecycle.PostedDate(t.date, t.repeat, now, nextDate).Err? ==>
              r == Err(Lifecycle.PostedDate(t.date, t.repeat, now, nextDate).error)
    ensures r.Err? ==> db.rows == old(db.rows) && db.nextId == old(db.nextId)
    ensures r.Ok? <==> t.title != "" && Lifecycle.PostedDate(t.date, t.repeat, now, nextDate).Ok?
    ensures r.Ok? ==>
              && r.value == old(db.nextId)
              && r.value !in old(db.rows)
              && db.rows == old(db.rows)[r.value := Row(Lifecycle.PostedDate(t.date, t.repeat, now, nextDate).value,
                                                        t.title, t.comment, t.repeat)]
              && db.nextId == r.value + 1
  {
    if t.title == "" {
      return Err(NoTitle);
    }
    var task := t;
    if task.date == "" {
      task := task.(date := Today(now));
    } else {
      var parsed := Parse(task.date);
      if parsed.None? {
        return Err(BadDate);
      }
      var today := now;
      if Before(parsed.value, today) {
        if task.repeat == "" {
          task := task.(date := Today(today));
        } else {
          var next := nextDate(today, task.date, task.repeat);
          if next.Err? {
            return Err(BadRepeat);
          }
          if StringOrder.Less(Today(today), next.value) {
            task := task.(date := Today(today));
          } else {
            task := task.(date := next.value);
          }
        }
      }
    }
    var id := LegacyDatabase.AddTask(db, task);
    return Ok(id);
  }

  /** PutTaskHandler: the title check and the unclamped normalisation. The task it
      computes is discarded, so the store is never written; the result is that task. */
  method PutTask(t: Task, now: Clock, nextDate: NextDateFn) returns (r: Result<Task>)
    ensures t.title == "" ==> r == Err(NoTitle)
    ensures t.title != "" ==>
              match Lifecycle.UpdatedDate(t.date, t.repeat, now, nextDate)
              case Err(e) => r == Err(e)
              case Ok(date) => r == Ok(t.(date := date))
  {
    if t.title == "" {
      return Err(NoTitle);
    }
    var today := now;
    var task := t;
    if task.date == "" {
      task := task.(date := Today(today));
    }
    var parsed := Parse(task.date);
    if parsed.None? {
      return Err(BadDate);
    }
    if Before(parsed.value, today) {
      if task.repeat == "" {
        task := task.(date := Today(today));
      } else {
        var next := nextDate(today, task.date, task.repeat);
        if next.Err? {
          return Err(BadRepeat);
        }
        task := task.(date := next.value);
      }
    }
    return Ok(task);
  }

  /** DoneTaskHandler: looks the row up, deletes a one-off task, and stores a recurring
      one with NextDate's date. A NextDate error ends the handler with no reply and the
      table untouched; the error of the final update is ignored. */
  method DoneTask(db: Table, id: string, now: Clock, nextDate: NextDateFn) returns (reply: Reply)
    requires db.Valid()
    modifies db
    ensures db.Valid() && db.nextId == old(db.nextId)
    ensures id == "" ==> reply == Refused(NoId) && db.rows == old(db.rows)
    ensures id != "" && old(db.Match(id)).None? ==> reply == Refused(NotFound) && db.rows == old(db.rows)
    ensures id != "" && old(db.Match(id)).Some? ==>
              var k := old(db.Match(id)).value;
              var row := old(db.rows)[k];
              match Lifecycle.Completed(row, now, nextDate)
              case Remove => reply == Done && db.rows == old(db.rows) - {k}
              case Reschedule(next) => reply == Done && db.rows == old(db.rows)[k := row.(date := next)]
              case Refuse => reply == Silent && db.rows == old(db.rows)
  {
    if id == "" {
      return Refused(NoId);
    }
    var today := now;
    var found := db.Select(id);
    if found.None? {
      return Refused(NotFound);
    }
    var t := found.value;
    if t.repeat == "" {
      var affected := db.Delete(t.id);
    } else {
      var next := nextDate(today, t.date, t.repeat);
      if next.Err? {
        return Silent;
      }
      t := t.(date := next.value);
      var ignored := LegacyUpdate.UpdateTask(db, t);
    }
    return Done;
  }
}
