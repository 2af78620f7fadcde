# Task scheduler core in Dafny

This project models the core of a small Go task scheduler (`go_final_project`). The
scheduler stores tasks in one SQLite table, `scheduler`. Each task has an id, a date in
the layout `20060102`, a title, a comment and a repeat rule. The model covers:

- date normalisation when a task is created or updated, in the three variants the
  repository has (`Lifecycle.AddedDate`, `Lifecycle.UpdatedDate`,
  `Lifecycle.PostedDate`). The `PutTaskHandler`s of both handler packages share the
  update rule;
- the "done" transition: a one-off task is deleted, and a recurring task is moved to
  the date its rule gives next (`Lifecycle.Completed`);
- the task store, as the class `SchedulerTable.Table`. It holds a map from integer keys
  to rows and the `AUTOINCREMENT` counter. `Insert`, `Update`, `UpdateDate`, `Delete`,
  `Select` and `SelectDue` are each one SQL statement the Go code runs; `Earliest` and
  `DueKeys` carry out `SelectDue`'s ordering and limit;
- both generations of the store and the handlers written against it:
  - `InternalDatabase` and `InternalHandlers` model `internal/`;
  - `LegacyDatabase`, `LegacyUpdate` and `LegacyHandlers` model the older `database/`
    and `handlers/` packages.

Supporting modules:

- `Digits`: digit strings and their values.
- `StringOrder`: Go's byte-wise `<` on strings. It is proved to be a strict total order
  that agrees with numeric order on equal-length digit strings.
- `Dates`: parsing and formatting of `20060102`, with both round trips. It proves that
  string order on valid date strings is chronological order, and it models
  `time.Before` against the current instant.
- `Ids`: the decimal ids the store returns, and how a string id selects a row.

The functions `AddedDate`, `UpdatedDate` and `PostedDate` each have a body that follows
its Go code: string `<` in `AddTask`, and `time.Parse` plus `Before` in the handlers. Each
contract is stated in the other vocabulary, so every contract rests on the order lemmas.

The recurrence function (`NextDate`) is a parameter of type `NextDateFn`. The clock is a
parameter of type `Clock`: a valid UTC date plus the nanoseconds since midnight.

Behaviour of the code that is easy to misread, which the model keeps as written:

- The handlers call `parsedDate.Before(time.Now())`. The parsed date is midnight UTC, so
  a task dated today counts as overdue at any time after midnight, not only an earlier
  day. `Dates.BeforeByDay` and `Lifecycle.SameDayAfterMidnight` state this.
- `AddTask` of the current store compares strings instead. `Lifecycle.AddAgreesWithUpdate`
  gives a condition under which the create path and the update path store the same date:
  at midnight, or for a non-empty date other than today's. The case where they part is a
  recurring task dated today, after midnight (`Lifecycle.SameDayAfterMidnight`). The
  create path keeps today's date; the update path stores whatever NextDate returns, so
  the two differ unless NextDate returns today itself.
- The current `AddTask` does not clamp its NextDate result to today. Only the older
  `PostTaskHandler` does (`Lifecycle.PostIsClampedUpdate`,
  `LifecycleScenario.OverdueRecurringOnMarchTenth`).
- The older store's `UpdateTask` and `DeleteTask` report success when no row matched.
  Their zero-rows branches return the `err` variable, which is nil by then.

## Model

| member | source | states |
|---|---|---|
| Digits.ValueOfPadded | internal/database/database.go:81 | a number below 10^width, zero-padded to that width, reads back as the same number |
| Digits.PaddedOfValue | internal/database/database.go:81 | a digit string is the zero-padded rendering of its own value |
| Digits.ValueBound | configs/models.go:4 | a digit string of length n denotes a value below 10^n |
| Digits.ValueConcat | configs/models.go:4 | the value of a concatenation is the value of the head shifted by the tail's length, plus the tail's value |
| StringOrder.Less | internal/database/database.go:89 | Go's string `<`, also SQLite's BINARY comparison in `date >= ?` and `ORDER BY date` (internal/database/database.go:120); defined on the first byte, and characterised by LessIsFirstDifference |
| StringOrder.LessIsFirstDifference | handlers/handlers.go:90 | string `<` holds exactly when, at the first position where the strings differ, the left byte is smaller, or the left string is a proper prefix of the right |
| StringOrder.LessIrreflexive | internal/database/database.go:89 | Go's string `<` never holds between a string and itself |
| StringOrder.LessTransitive | internal/database/database.go:89 | Go's string `<` is transitive |
| StringOrder.LessTotal | internal/database/database.go:89 | of two distinct strings, one is below the other |
| StringOrder.LessAsymmetric | internal/database/database.go:89 | `<` never holds in both directions |
| StringOrder.LessOnDigits | internal/database/database.go:89 | on digit strings of equal length, string `<` is exactly numeric `<` on their values |
| Dates.Parse | internal/database/database.go:84-87 | `time.Parse` with layout `20060102` succeeds exactly on 8-digit strings naming a real Gregorian date (month 1-12, day in that month, leap years); its result is a valid date |
| Dates.Format | internal/database/database.go:81 | `Format` yields 8 digits |
| Dates.ParseFormat | internal/database/database.go:81-87 | parsing a formatted valid date gives that date back |
| Dates.FormatParse | internal/database/database.go:84-87 | formatting a parsed date string gives the same string back |
| Dates.DateKey | configs/models.go:4 | the value of a date string is year*10000 + month*100 + day |
| Dates.StringOrderIsChronological | internal/database/database.go:89 | on valid date strings, string `<` is exactly "earlier calendar day" |
| Dates.Today | internal/database/database.go:74-81 | today's formatted date is a valid date string that parses back to the clock's date |
| Dates.Before | internal/handlers/handlers.go:160 | `time.Time.Before` of midnight UTC of a parsed date against the current instant, both placed on one nanosecond time line (also handlers/handlers.go:81 and 251); characterised by BeforeByDay |
| Dates.DayNumberIncreasing | internal/handlers/handlers.go:152-160 | on valid dates, an earlier calendar day has a smaller position on the time line, counted in Gregorian days from year 0 |
| Dates.MonthsFillYear | internal/handlers/handlers.go:152 | the twelve months of a year add up to its 365 or 366 days |
| Dates.BeforeByDay | internal/handlers/handlers.go:160 | midnight of a valid date is before now exactly when it is an earlier day, or is today's date once any time of the day has passed |
| Dates.BeforeAsStrings | internal/handlers/handlers.go:152-160 | midnight of a parsed date is before now exactly when its string is below today's, or is today's after midnight |
| Ids.DecimalString | internal/database/database.go:112 | `%d` of an id is a non-empty digit string |
| Ids.ParseDecimal | internal/database/handlersDatabase.go:48 | a string id names an integer key exactly when it is a non-empty digit string |
| Ids.ParseDecimalString | internal/database/database.go:107-112 | the id string returned for key n selects key n again |
| Ids.DecimalStringInjective | internal/database/database.go:112 | distinct keys have distinct id strings |
| Lifecycle.AddedDate | internal/database/database.go:80-99 | empty date becomes today; an unparsable date is an error; a date not before today is kept; an earlier date becomes today without a rule, or NextDate's result with one (a NextDate error is an error) |
| Lifecycle.UpdatedDate | internal/handlers/handlers.go:146-171 | empty date becomes today and then goes through the same test; an unparsable date is an error; a date that is not overdue by `time.Before` (stated on strings) is kept; an overdue one becomes today without a rule, or NextDate's unclamped result |
| Lifecycle.PostedDate | handlers/handlers.go:71-98 | empty date becomes today with no further test; an unparsable date is an error; a date not overdue is kept; an overdue date is never stored later than today: today without a rule, NextDate's result or today when that is later |
| Lifecycle.RuleResult | internal/database/database.go:91-95 | a NextDate error becomes the repeat-rule error; a NextDate date is passed on unchanged |
| Lifecycle.Completed | internal/database/database.go:165-181 | the done decision (also handlers/handlers.go:297-311): a task without a rule is removed; a recurring task is refused exactly when NextDate fails on its stored date, and otherwise moves to the date NextDate returns |
| Lifecycle.CompareWithToday | internal/handlers/handlers.go:160 | on a valid date string, string `<` against today is calendar order, and `time.Before` is the string test `OverdueString` |
| Lifecycle.AddAgreesWithUpdate | internal/database/database.go:89 | at midnight, or for a non-empty date other than today's, the create rule and the update rule store the same date |
| Lifecycle.SameDayAfterMidnight | internal/handlers/handlers.go:160-170 | after midnight a recurring task dated today is kept by AddTask but moved on by the update rule |
| Lifecycle.PostIsClampedUpdate | handlers/handlers.go:81-96 | for a non-empty date the older create rule is the update rule with a changed date later than today clamped back to today |
| Lifecycle.AddedOneOffIsStable | internal/database/database.go:80-98 | for a task without a rule, applying the create rule to its stored date changes nothing |
| LifecycleScenario.OverdueRecurringOnMarchTenth | handlers/handlers.go:90-94 | on 10 March 2024 a task dated 1 March whose rule gives 11 March gets 10 March from the older create path and 11 March from the current create and update paths |
| SchedulerTable.Table.constructor | internal/database/handlersDatabase.go:46-53 | a new table is empty and its first id will be 1 |
| SchedulerTable.Table.Match | internal/database/database.go:149-150 | `WHERE id = ?` selects a row exactly when the string spells a key present in the table, and then that key |
| SchedulerTable.Table.TaskAt | internal/database/database.go:149-151 | scanning row k gives a task whose id selects k again and whose fields are the row's |
| SchedulerTable.Table.Insert | internal/database/database.go:101-107 | the new row gets the next counter value, above every key, and nothing else changes |
| SchedulerTable.Table.Update | internal/database/database.go:34-36 | a full update replaces the matched row (one affected row) or changes nothing (zero) |
| SchedulerTable.Table.UpdateDate | database/database.go:105-106 | the date-only update changes the matched row's date and nothing else |
| SchedulerTable.Table.Delete | internal/database/database.go:54-55 | the matched row is removed (one affected row) or nothing changes (zero) |
| SchedulerTable.Table.Select | internal/database/database.go:149-155 | a lookup finds a task exactly when the id matches, and it is the scan of that row |
| SchedulerTable.Table.Earliest | internal/database/database.go:120 | of a non-empty set of rows, one whose date no other row's date is below |
| SchedulerTable.Table.DueKeys | internal/database/database.go:120-122 | the keys of `WHERE date >= ? ORDER BY date ASC LIMIT ?`: distinct, due, ascending by date, and no omitted due row unless the limit is reached and it is no earlier than those listed |
| SchedulerTable.Table.SelectDue | internal/database/database.go:120-134 | the scanned due listing: at most `limit` tasks of the table, none dated before today, distinct ids, ascending by date, and any due row left out only because the limit was reached by rows no later than it |
| SchedulerTable.Table.DueKeysAsTasks | internal/database/database.go:128-134 | scanning a due key listing gives a due task listing |
| InternalDatabase.UpdateTask | internal/database/database.go:33-51 | full replace of the matched row; no match is a not-found error with the table unchanged |
| InternalDatabase.DeleteTask | internal/database/database.go:53-70 | the matched row is removed; no match is a not-found error with the table unchanged |
| InternalDatabase.AddTask | internal/database/database.go:72-113 | an untitled task, a bad date or a failing rule is an error that leaves the table unchanged; otherwise exactly one row holding AddedDate's date is added, and the returned decimal id selects it |
| InternalDatabase.GetTasks | internal/database/database.go:115-141 | the due listing for today with MaxTasks = 10; empty when nothing is due |
| InternalDatabase.GetTask | internal/database/database.go:143-156 | an empty id and an unknown id are errors; otherwise the scan of the matched row |
| InternalDatabase.DoneTask | internal/database/database.go:158-183 | a failed lookup changes nothing; a one-off task's row is deleted and its id then matches nothing; a recurring one keeps its id and gets NextDate's date with all other fields kept; a NextDate error changes nothing |
| InternalHandlers.PostTask | internal/handlers/handlers.go:65-77 | AddTask's outcome: on success the same new row, the decimal id of the new key, which selects it, and the counter advanced by one; every error is reported as one error with the table unchanged |
| InternalHandlers.PutTask | internal/handlers/handlers.go:119-183 | an empty id or title is refused before the store is touched; otherwise UpdatedDate's error, or a full update of the matched row with UpdatedDate's date |
| InternalHandlers.DoneTask | internal/handlers/handlers.go:185-198 | succeeds exactly when the id is non-empty, matches a row and the rule does not fail; then a one-off task's row is removed and its id matches nothing, and a recurring one keeps its id and gets NextDate's date; every failure is reported as not found with the table unchanged |
| LegacyUpdate.UpdateTask | database/updatetask.go:9-31 | full replace of the matched row; no match is an error with the table unchanged |
| LegacyDatabase.UpdateTask | database/database.go:37-58 | full replace of the matched row; reports success even when no row matched |
| LegacyDatabase.DeleteTask | database/database.go:60-80 | removes the matched row; the result is returned only when a row went, and the error is nil either way |
| LegacyDatabase.AddTask | database/database.go:82-94 | inserts the task's fields unchecked and returns the new key |
| LegacyDatabase.DoneTask | database/database.go:96-111 | "select" reports whether the id matches and changes nothing; "update" sets only the matched row's date; any other operation does nothing |
| LegacyDatabase.GetTasks | database/database.go:113-148 | the due listing for today with MaxTasks = 10 |
| LegacyDatabase.GetTask | database/database.go:150-158 | not found exactly when the id matches no row; nothing changes |
| LegacyHandlers.PostTask | handlers/handlers.go:66-111 | an untitled task and a PostedDate error are errors that leave the table unchanged; otherwise one row holding PostedDate's date is added under the returned key |
| LegacyHandlers.PutTask | handlers/handlers.go:230-269 | an untitled task is refused; otherwise UpdatedDate's error or the task with UpdatedDate's date, which is never written to the store |
| LegacyHandlers.DoneTask | handlers/handlers.go:272-319 | an empty or unknown id is refused; a one-off task's row is deleted; a recurring one gets NextDate's date; a NextDate error ends the handler with no reply and the table unchanged |

## Left out

- HTTP plumbing is not modelled: request decoding, JSON replies, status codes, logging and `openTaskStore`. A reply is an `Outcome`, a `Result` or a `Reply`.
- The older `GetNextDate` (handlers/handlers.go:24-45) and the current `API.GetNextDate` (internal/handlers/handlers.go:29-51) are left out: both only wrap NextDate in HTTP.
- The `TaskStore` value that the older `GetTask` and `DoneTask` return (database/database.go:96-111, 150-158) is not modelled; no caller uses it. `GetTask` returns an empty store on error.
- The older `GetTasksHandler`, `GetTaskHandler` and `DeleteTaskHandler`, and the current handlers' `GetTasksHandler`, `GetTaskHandler` and `DeleteTaskHandler`, are left out: they only delegate to the store operations modelled here, or are HTTP plumbing.
- NextDate's own rules (daily and yearly steps, rule parsing) are left out. Its code is not part of this model, so every caller receives it as a `NextDateFn` parameter.
- The clock is a parameter, and the model works in UTC only, with years 0..9999. `AddTask` reads `time.Now()` twice (internal/database/database.go:74 and 91); both reads are one clock here.
- Storage-layer failures are left out: `Exec` errors, `RowsAffected` and `LastInsertId` failures, and scan errors. The model's SQL statements always complete.
- Other error branches depend on those storage failures and never trigger in the model:
  - the "StoreFailed" outcome of `InternalDatabase.DoneTask`;
  - the delete-error early return of the older `DoneTaskHandler`;
  - the ignored error of its final update.
- `InternalDatabase.GetTasks` and `LegacyDatabase.GetTasks` leave out the scan-error branch. In the current store that check inspects `rows.Err()` instead of the scan error (internal/database/database.go:129-130).
- `Ids.ParseDecimal` covers only how SQLite matches an id string made of plain digits. Other forms that SQLite's integer affinity would also convert, such as signs, surrounding spaces or "5.0", select nothing in the model.
- `LegacyHandlers.DoneTask` deletes through `database.DeleteTask(datab, t.ID)`, a package-level function whose code is not part of this model. It is modelled as a plain delete of the row that id selects.
- `LegacyHandlers.PostTask` inserts through `TaskStore.Add` (handlers/handlers.go:121-133). That function runs the same insert as `LegacyDatabase.AddTask`, so one member models both.
- `database.StartDB`, opening the database file and creating the table and its date index are left out. They are set-up, not behaviour of the core; the starting state is `SchedulerTable.Table.constructor`.
- Concurrency is left out. The "done" operation is a read followed by a delete or an update, and is not atomic against a concurrent completion; the model executes requests one at a time.
