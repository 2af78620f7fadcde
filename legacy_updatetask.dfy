/** database/updatetask.go: the older full-row update the older handlers call. */
module LegacyUpdate {
  import opened Tasks
  import opened SchedulerTable

  /** Replaces date, title, comment and repeat of the row whose id is `t.id`, storing
      them without any check; no such row is an error. */
  method UpdateTask(db: Table, t: Task) returns (o: Outcome)
    requires db.Valid()
    modifies db
    ensures db.Valid() && db.nextId == old(db.nextId)
    ensures o == if old(db.Match(t.id)).Some? then Success else Failure(NotFound)
    ensures db.rows == match old(db.Match(t.id))
                       case Some(k) => old(db.rows)[k := RowOf(t)]
                       case None => old(db.rows)
  {
    var affected := db.Update(t.id, RowOf(t));
    if affected == 0 {
      return Failure(NotFound);
    }
    return Success;
  }
}
