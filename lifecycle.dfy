/**
  The date a task is stored with on create and on update, in the three variants
  the repository has, and the decision taken when a task is marked done.

  - AddedDate: `AddTask` of the current store (internal/database/database.go:80-99):
    compares date strings, takes NextDate's result unclamped.
  - UpdatedDate: both `PutTaskHandler`s (internal/handlers/handlers.go:146-171,
    handlers/handlers.go:237-262): `time.Before` against the current instant, unclamped.
  - PostedDate: the older `PostTaskHandler` (handlers/handlers.go:71-98):
    `time.Before`, and a NextDate result later than today is clamped back to today.

  Each body follows its source; each contract is stated in the other vocabulary
  (calendar order for the string comparison, strings for `time.Before`), so the
  contracts rest on StringOrderIsChronological and BeforeAsStrings.
*/
module Lifecycle {
  import opened Dates
  import opened Tasks
  import StringOrder

  /** What a failed or successful NextDate call turns into. */
  function RuleResult(next: Result<string>): (r: Result<string>)
    ensures r.Err? <==> next.Err?
    ensures r.Err? ==> r.error == BadRepeat
    ensures next.Ok? ==> r == next
  {
    match next
    case Ok(d) => Ok(d)
    case Err(_) => Err(BadRepeat)
  }

  /** The handlers' "before now" on strings: below today's string, or today's string after midnight. */
  predicate OverdueString(date: string, now: Clock) {
    StringOrder.Less(date, Today(now)) || (date == Today(now) && now.nanos > 0)
  }

  lemma CompareWithToday(date: string, now: Clock)
    ensures IsDateString(date) ==>
              (StringOrder.Less(date, Today(now)) <==> DateLess(Parse(date).value, now.date))
    ensures IsDateString(date) ==> (Before(Parse(date).value, now) <==> OverdueString(date, now))
  {
    if IsDateString(date) {
      StringOrderIsChronological(date, Today(now));
      BeforeAsStrings(date, now);
    }
  }

  /** The date the current store's AddTask stores for a titled task. */
  function AddedDate(date: string, repeat: string, now: Clock, nextDate: NextDateFn): (r: Result<string>)
    ensures date == "" ==> r == Ok(Today(now))
    ensures date != "" && !IsDateString(date) ==> r == Err(BadDate)
    ensures IsDateString(date) && !DateLess(Parse(date).value, now.date) ==> r == Ok(date)
    ensures IsDateString(date) && DateLess(Parse(date).value, now.date) && repeat == "" ==>
              r == Ok(Today(now))
    ensures IsDateString(date) && DateLess(Parse(date).value, now.date) && repeat != "" ==>
              r == RuleResult(nextDate(now, date, repeat))
  {
    CompareWithToday(date, now);
    StringOrder.LessIrreflexive(Today(now));
    var d := if date == "" then Today(now) else date;
    if !IsDateString(d) then Err(BadDate)
    else if !StringOrder.Less(d, Today(now)) then Ok(d)
    else if repeat == "" then Ok(Today(now))
    else RuleResult(nextDate(now, d, repeat))
  }

  /** The date both PutTaskHandlers hand on for a titled task. */
  function UpdatedDate(date: string, repeat: string, now: Clock, nextDate: NextDateFn): (r: Result<string>)
    ensures date == "" && (repeat == "" || now.nanos == 0) ==> r == Ok(Today(now))
    ensures date == "" && repeat != "" && now.nanos > 0 ==>
              r == RuleResult(nextDate(now, Today(now), repeat))
    ensures date != "" && !IsDateString(date) ==> r == Err(BadDate)
    ensures IsDateString(date) && !OverdueString(date, now) ==> r == Ok(date)
    ensures IsDateString(date) && OverdueString(date, now) && repeat == "" ==> r == Ok(Today(now))
    ensures IsDateString(date) && OverdueString(date, now) && repeat != "" ==>
              r == RuleResult(nextDate(now, date, repeat))
  {
    CompareWithToday(date, now);
    CompareWithToday(Today(now), now);
    var d := if date == "" then Today(now) else date;
    match Parse(d)
    case None => Err(BadDate)
    case Some(day) =>
      if !Before(day, now) then Ok(d)
      else if repeat == "" then Ok(Today(now))
      else RuleResult(nextDate(now, d, repeat))
  }

  /** The date the older PostTaskHandler stores for a titled task. */
  function PostedDate(date: string, repeat: string, now: Clock, nextDate: NextDateFn): (r: Result<string>)
    ensures date == "" ==> r == Ok(Today(now))
    ensures date != "" && !IsDateString(date) ==> r == Err(BadDate)
    ensures IsDateString(date) && !OverdueString(date, now) ==> r == Ok(date)
    // An overdue task is never stored with a date later than today.
    ensures IsDateString(date) && OverdueString(date, now) && r.Ok? ==>
              !StringOrder.Less(Today(now), r.value)
    ensures IsDateString(date) && OverdueString(date, now) && repeat == "" ==> r == Ok(Today(now))
    ensures IsDateString(date) && OverdueString(date, now) && repeat != "" ==>
              match nextDate(now, date, repeat)
              case Err(_) => r == Err(BadRepeat)
              case Ok(next) => r == Ok(if StringOrder.Less(Today(now), next) then Today(now) else next)
  {
    CompareWithToday(date, now);
    StringOrder.LessIrreflexive(Today(now));
    if date == "" then Ok(Today(now))
    else match Parse(date)
      case None => Err(BadDate)
      case Some(day) =>
        if !Before(day, now) then Ok(date)
        else if repeat == "" then Ok(Today(now))
        else match nextDate(now, date, repeat)
          case Err(_) => Err(BadRepeat)
          case Ok(next) => if StringOrder.Less(Today(now), next) then Ok(Today(now)) else Ok(next)
  }

  /** Away from today's own date (or at exactly midnight), AddTask's string test and
      the handlers' `time.Before` store the same date. */
  lemma AddAgreesWithUpdate(date: string, repeat: string, now: Clock, nextDate: NextDateFn)
    requires now.nanos == 0 || (date != "" && date != Today(now))
    ensures AddedDate(date, repeat, now, nextDate) == UpdatedDate(date, repeat, now, nextDate)
  {
    CompareWithToday(date, now);
    if IsDateString(date) {
      FormatParse(date);
      assert date != Today(now) ==> Parse(date).value != now.date;
    }
  }

  /** On today's own date after midnight the two tests part: AddTask keeps the date,
      an update moves a recurring task on to NextDate's result. */
  lemma SameDayAfterMidnight(repeat: string, now: Clock, nextDate: NextDateFn)
    requires now.nanos > 0 && repeat != ""
    ensures AddedDate(Today(now), repeat, now, nextDate) == Ok(Today(now))
    ensures UpdatedDate(Today(now), repeat, now, nextDate) == RuleResult(nextDate(now, Today(now), repeat))
  {
    CompareWithToday(Today(now), now);
  }

  /** The older create path is the update path with NextDate's result clamped to today. */
  lemma PostIsClampedUpdate(date: string, repeat: string, now: Clock, nextDate: NextDateFn)
    requires date != ""
    ensures PostedDate(date, repeat, now, nextDate) ==
              match UpdatedDate(date, repeat, now, nextDate)
              case Err(e) => Err(e)
              case Ok(d) => if d != date && StringOrder.Less(Today(now), d) then Ok(Today(now)) else Ok(d)
  {
    CompareWithToday(date, now);
    if IsDateString(date) && OverdueString(date, now) {
      if StringOrder.Less(Today(now), date) {
        StringOrder.LessAsymmetric(Today(now), date);
      }
    }
  }

  /** A one-off task's stored date is a fixed point of AddTask's rule. */
  lemma AddedOneOffIsStable(date: string, now: Clock, nextDate: NextDateFn)
    requires AddedDate(date, "", now, nextDate).Ok?
    ensures AddedDate(AddedDate(date, "", now, nextDate).value, "", now, nextDate) ==
              AddedDate(date, "", now, nextDate)
  {
    CompareWithToday(Today(now), now);
  }

  /** What marking a task done does to its row. */
  datatype Completion = Remove | Reschedule(date: string) | Refuse

  /** A one-off task is removed; a recurring one moves to NextDate's date from its
      stored date, and a NextDate error refuses the transition. */
  function Completed(row: Row, now: Clock, nextDate: NextDateFn): (c: Completion)
    ensures c.Remove? <==> row.repeat == ""
    ensures c.Refuse? <==> row.repeat != "" && nextDate(now, row.date, row.repeat).Err?
    ensures c.Reschedule? ==> nextDate(now, row.date, row.repeat) == Ok(c.date)
  {
    if row.repeat == "" then Remove
    else match nextDate(now, row.date, row.repeat)
      case Ok(next) => Reschedule(next)
      case Err(_) => Refuse
  }
}
