/**
  The older task store, `TaskStore` in database/database.go. Its row-count
  checks return the `err` variable, which is nil by then, so an update or a
  delete of a missing row reports success.
*/
module LegacyDatabase {
  import opened Wrappers
  import opened Dates
  import opened Tasks
  import opened SchedulerTable

  /** Full replace of the row whose id is `t.id`; a missing row is silently a success. */
  method UpdateTask(db: Table, t: Task) returns (o: Outcome)
    requires db.Valid()
    modifies db
    ensures db.Valid() && db.nextId == old(db.nextId)
    ensures o == Success
    ensures db.rows == match old(db.Match(t.id))
                       case Some(k) => old(db.rows)[k := RowOf(t)]
                       case None => old(db.rows)
  {
    var affected := db.Update(t.id, RowOf(t));
    o := Success;
  }

  /** Removes the row with that id. The `sql.Result` is returned (`deleted`) only when a
      row went; the error is nil either way. */
  method DeleteTask(db: Table, id: string) returns (deleted: bool, o: Outcome)
    requires db.Valid()
    modifies db
    ensures db.Valid() && db.nextId == old(db.nextId)
    ensures o == Success
    ensures deleted <==> old(db.Match(id)).Some?
    ensures db.rows == match old(db.Match(id))
                       case Some(k) => old(db.rows) - {k}
                       case None => old(db.rows)
  {
    var affected := db.Delete(id);
    deleted := affected != 0;
    o := Success;
  }

  /** Inserts the four fields as given, with no validation, and returns the new id. */
  method AddTask(db: Table, t: Task) returns (id: nat)
    requires db.Valid()
    modifies db
    ensures db.Valid()
    ensures id == old(db.nextId) && id !in old(db.rows)
    ensures db.rows == old(db.rows)[id := RowOf(t)] && db.nextId == id + 1
  {
    id := db.Insert(RowOf(t));
  }

  /** `oper` "select" reads the row (an error when it is missing; what it reads is
      discarded), "update" sets only the date of the row with `id` (no error when it is
      missing), and anything else does nothing. */
  method DoneTask(db: Table, oper: string, t: Task, id: string) returns (o: Outcome)
    requires db.Valid()
    modifies db
    ensures db.Valid() && db.nextId == old(db.nextId)
    ensures oper == "select" ==>
              o == (if old(db.Match(id)).Some? then Success else Failure(NotFound)) && db.rows == old(db.rows)
    ensures oper == "update" ==>
              && o == Success
              && db.rows == match old(db.Match(id))
                            case Some(k) => old(db.rows)[k := old(db.rows)[k].(date := t.date)]
                            case None => old(db.rows)
    ensures oper != "select" && oper != "update" ==> o == Success && db.rows == old(db.rows)
  {
    if oper == "select" {
      var row := db.Select(id);
      return if row.Some? then Success else Failure(NotFound);
    }
    if oper == "update" {
      var affected := db.UpdateDate(id, t.date);
      return Success;
    }
    return Success;
  }

  /** The due listing: at most MaxTasks tasks dated today or later, ascending by date. */
  method GetTasks(db: Table, now: Clock) returns (tasks: seq<Task>)
    ensures db.IsDueListing(tasks, Today(now), MaxTasks)
  {
    tasks := db.SelectDue(Today(now), MaxTasks);
  }

  /** Looks the id up without changing anything: an error when no row has it. The row read
      goes into a copy of `t`, so nothing of it is returned. */
  method GetTask(db: Table, t: Task, id: string) returns (o: Outcome)
    ensures o == if db.Match(id).Some? then Success else Failure(NotFound)
  {
    var row := db.Select(id);
    o := if row.Some? then Success else Failure(NotFound);
  }
}
