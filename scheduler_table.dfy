/**
  The `scheduler` table (internal/database/handlersDatabase.go:46-53) as an
  in-memory table: rows keyed by an `INTEGER PRIMARY KEY AUTOINCREMENT` id, and
  the counter that AUTOINCREMENT keeps, so an id is never handed out twice even
  after its row is deleted. Insert, Update, UpdateDate, Delete, Select and
  SelectDue are each one SQL statement the Go code runs; Earliest and DueKeys
  carry out SelectDue's ordering and limit.
*/
module SchedulerTable {
  import opened Wrappers
  import opened Tasks
  import opened Ids
  import StringOrder

  class Table {
    var rows: map<nat, Row>
    /** The id the next insert receives: one more than every id handed out so far. */
    var nextId: nat

    ghost predicate Valid()
      reads this
    {
      1 <= nextId && forall k | k in rows :: 1 <= k < nextId
    }

    constructor ()
      ensures Valid() && rows == map[] && nextId == 1
    {
      rows := map[];
      nextId := 1;
    }

    /** The key a `WHERE id = ?` parameter selects, when a row has it. */
    function Match(id: string): (r: Option<nat>)
      reads this
      ensures r.Some? <==> ParseDecimal(id).Some? && ParseDecimal(id).value in rows
      ensures r.Some? ==> ParseDecimal(id) == r
    {
      match ParseDecimal(id)
      case Some(k) => if k in rows then Some(k) else None
      case None => None
    }

    /** The row with key k as `SELECT id, date, title, comment, repeat` scans it into a Task. */
    function TaskAt(k: nat): (t: Task)
      reads this
      requires k in rows
      ensures Match(t.id) == Some(k) && RowOf(t) == rows[k]
    {
      ParseDecimalString(k);
      var r := rows[k];
      Task(DecimalString(k), r.date, r.title, r.comment, r.repeat)
    }

    /** `t` is the scan of one row of the table. */
    ghost predicate HasTask(t: Task)
      reads this
    {
      Match(t.id).Some? && TaskAt(Match(t.id).value) == t
    }

    ghost function Due(today: string): set<nat>
      reads this
    {
      set k | k in rows && !StringOrder.Less(rows[k].date, today)
    }

    /** What `SELECT … WHERE date >= today ORDER BY date ASC LIMIT limit` may return:
        rows of the table, each once, due today or later, ascending by date, and the
        earliest ones: a due row is left out only once the limit is reached, and then
        it is no earlier than any listed row. Rows with equal dates may come in any order. */
    ghost predicate IsDueListing(tasks: seq<Task>, today: string, limit: nat)
      reads this
    {
      && |tasks| <= limit
      && (forall i | 0 <= i < |tasks| :: HasTask(tasks[i]) && !StringOrder.Less(tasks[i].date, today))
      && (forall i, j | 0 <= i < j < |tasks| :: tasks[i].id != tasks[j].id)
      && (forall i, j | 0 <= i < j < |tasks| :: !StringOrder.Less(tasks[j].date, tasks[i].date))
      && (forall k | k in Due(today) && TaskAt(k) !in tasks ::
            |tasks| == limit && forall i | 0 <= i < |tasks| :: !StringOrder.Less(rows[k].date, tasks[i].date))
    }

    /** `INSERT INTO scheduler (date, title, comment, repeat) VALUES (…)`, then `LastInsertId`. */
    method Insert(row: Row) returns (id: nat)
      requires Valid()
      modifies this
      ensures Valid()
      ensures id == old(nextId) && forall k | k in old(rows) :: k < id
      ensures rows == old(rows)[id := row] && nextId == old(nextId) + 1
    {
      id := nextId;
      rows := rows[id := row];
      nextId := nextId + 1;
    }

    /** `UPDATE scheduler SET date=?, title=?, comment=?, repeat=? WHERE id=?`, then `RowsAffected`. */
    method Update(id: string, row: Row) returns (affected: nat)
      requires Valid()
      modifies this
      ensures Valid() && nextId == old(nextId)
      ensures affected == if old(Match(id)).Some? then 1 else 0
      ensures rows == match old(Match(id))
                      case Some(k) => old(rows)[k := row]
                      case None => old(rows)
    {
      match Match(id)
      case Some(k) =>
        rows := rows[k := row];
        affected := 1;
      case None =>
        affected := 0;
    }

    /** `UPDATE scheduler SET date = ? WHERE id = ?`. */
    method UpdateDate(id: string, date: string) returns (affected: nat)
      requires Valid()
      modifies this
      ensures Valid() && nextId == old(nextId)
      ensures affected == if old(Match(id)).Some? then 1 else 0
      ensures rows == match old(Match(id))
                      case Some(k) => old(rows)[k := old(rows)[k].(date := date)]
                      case None => old(rows)
    {
      match Match(id)
      case Some(k) =>
        rows := rows[k := rows[k].(date := date)];
        affected := 1;
      case None =>
        affected := 0;
    }

    /** `DELETE FROM scheduler WHERE id = ?`, then `RowsAffected`. */
    method Delete(id: string) returns (affected: nat)
      requires Valid()
      modifies this
      ensures Valid() && nextId == old(nextId)
      ensures affected == if old(Match(id)).Some? then 1 else 0
      ensures rows == match old(Match(id))
                      case Some(k) => old(rows) - {k}
                      case None => old(rows)
    {
      match Match(id)
      case Some(k) =>
        rows := rows - {k};
        affected := 1;
      case None =>
        affected := 0;
    }

    /** `SELECT id, date, title, comment, repeat FROM scheduler WHERE id = ?` and its `Scan`:
        the scanned task, or nothing (`sql.ErrNoRows`). */
    method Select(id: string) returns (t: Option<Task>)
      ensures t.Some? <==> Match(id).Some?
      ensures t.Some? ==> HasTask(t.value) && Match(t.value.id) == Match(id)
      ensures t.Some? ==> RowOf(t.value) == rows[Match(id).value]
    {
      match Match(id)
      case Some(k) => t := Some(TaskAt(k));
      case None => t := None;
    }

    /** A row among `candidates` with the earliest date. */
    method Earliest(candidates: set<nat>) returns (m: nat)
      requires candidates != {} && forall k | k in candidates :: k in rows
      ensures m in candidates
      ensures forall k | k in candidates :: !StringOrder.Less(rows[k].date, rows[m].date)
    {
      m :| m in candidates;
      StringOrder.LessIrreflexive(rows[m].date);
      var rest := candidates - {m};
      while rest != {}
        invariant rest <= candidates && m in candidates
        invariant forall k | k in candidates && k !in rest :: !StringOrder.Less(rows[k].date, rows[m].date)
        decreases rest
      {
        var k :| k in rest;
        if StringOrder.Less(rows[k].date, rows[m].date) {
          forall j | j in candidates && j !in rest
            ensures !StringOrder.Less(rows[j].date, rows[k].date)
          {
            if StringOrder.Less(rows[j].date, rows[k].date) {
              StringOrder.LessTransitive(rows[j].date, rows[k].date, rows[m].date);
            }
          }
          StringOrder.LessIrreflexive(rows[k].date);
          m := k;
        }
        rest := rest - {k};
      }
    }

    /** The keys of a due listing: distinct due rows, ascending by date, the earliest ones. */
    ghost predicate IsDueKeys(keys: seq<nat>, today: string, limit: nat)
      reads this
    {
      && |keys| <= limit
      && (forall i | 0 <= i < |keys| :: keys[i] in Due(today))
      && (forall i, j | 0 <= i < j < |keys| :: keys[i] != keys[j])
      && (forall i, j | 0 <= i < j < |keys| :: !StringOrder.Less(rows[keys[j]].date, rows[keys[i]].date))
      && (forall k | k in Due(today) && k !in keys ::
            |keys| == limit && forall i | 0 <= i < |keys| :: !StringOrder.Less(rows[k].date, rows[keys[i]].date))
    }

    /** The ordering and limiting part of the due query: repeatedly take the
        earliest due row not yet taken. */
    method DueKeys(today: string, limit: nat) returns (picked: seq<nat>)
      ensures IsDueKeys(picked, today, limit)
    {
      var remaining := set k | k in rows && !StringOrder.Less(rows[k].date, today);
      picked := [];
      while |picked| < limit && remaining != {}
        invariant |picked| <= limit
        invariant remaining <= Due(today)
        invariant forall i | 0 <= i < |picked| :: picked[i] in Due(today) && picked[i] !in remaining
        invariant forall k | k in Due(today) :: k in remaining || k in picked
        invariant forall i, j | 0 <= i < j < |picked| :: picked[i] != picked[j]
        invariant forall i, j | 0 <= i < j < |picked| ::
                    !StringOrder.Less(rows[picked[j]].date, rows[picked[i]].date)
        invariant forall i, k | 0 <= i < |picked| && k in remaining ::
                    !StringOrder.Less(rows[k].date, rows[picked[i]].date)
        decreases remaining
      {
        var m := Earliest(remaining);
        picked := picked + [m];
        remaining := remaining - {m};
      }
    }

    /** `SELECT id, date, title, comment, repeat FROM scheduler WHERE date >= ? ORDER BY date ASC LIMIT ?`. */
    method SelectDue(today: string, limit: nat) returns (tasks: seq<Task>)
      ensures IsDueListing(tasks, today, limit)
    {
      var picked := DueKeys(today, limit);
      tasks := [];
      for i := 0 to |picked|
        invariant |tasks| == i
        invariant forall j | 0 <= j < i :: tasks[j] == TaskAt(picked[j])
      {
        tasks := tasks + [TaskAt(picked[i])];
      }
      DueKeysAsTasks(picked, tasks, today, limit);
    }

    lemma DueKeysAsTasks(keys: seq<nat>, tasks: seq<Task>, today: string, limit: nat)
      requires IsDueKeys(keys, today, limit)
      requires |tasks| == |keys| && forall i | 0 <= i < |keys| :: keys[i] in rows && tasks[i] == TaskAt(keys[i])
      ensures IsDueListing(tasks, today, limit)
    {
      forall i, j | 0 <= i < j < |tasks| ensures tasks[i].id != tasks[j].id {
        DecimalStringInjective(keys[i], keys[j]);
      }
      forall i | 0 <= i < |keys| ensures TaskAt(keys[i]) in tasks {
        assert tasks[i] == TaskAt(keys[i]);
      }
    }
  }
}
