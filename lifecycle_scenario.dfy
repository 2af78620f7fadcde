/** A worked case of the three create and update rules. */
module LifecycleScenario {
  import opened Digits
  import opened Dates
  import opened Tasks
  import opened Lifecycle
  import StringOrder

  /** 09:00 UTC on 10 March 2024. */
  const MarchTenth: Clock := Instant(Date(2024, 3, 10), 9 * 3600 * 1_000_000_000)

  lemma PaddedOne(n: nat)
    requires n < 10
    ensures Padded(n, 1) == [DigitChar(n)]
  {
    assert Padded(n, 1) == Padded(n / 10, 0) + [DigitChar(n % 10)];
  }

  lemma PaddedTwo(n: nat)
    requires n < 100
    ensures Padded(n, 2) == [DigitChar(n / 10), DigitChar(n % 10)]
  {
    PaddedOne(n / 10);
    assert Padded(n, 2) == Padded(n / 10, 1) + [DigitChar(n % 10)];
  }

  lemma MarchDates()
    ensures Format(Date(2024, 3, 10)) == "20240310"
    ensures Format(Date(2024, 3, 1)) == "20240301"
    ensures Format(Date(2024, 3, 11)) == "20240311"
  {
    PaddedTwo(20);
    assert Padded(202, 3) == Padded(20, 2) + [DigitChar(2)];
    assert Padded(2024, 4) == Padded(202, 3) + [DigitChar(4)];
    assert Padded(2024, 4) == "2024";
    PaddedTwo(3);
    PaddedTwo(1);
    PaddedTwo(10);
    PaddedTwo(11);
  }

  /** A task dated 1 March 2024 whose rule next falls on 11 March, created or updated on
      10 March: the older create path stores 10 March, the current create path and the
      update path store 11 March. */
  lemma OverdueRecurringOnMarchTenth(nextDate: NextDateFn)
    requires nextDate(MarchTenth, "20240301", "d 10") == Ok("20240311")
    ensures PostedDate("20240301", "d 10", MarchTenth, nextDate) == Ok("20240310")
    ensures AddedDate("20240301", "d 10", MarchTenth, nextDate) == Ok("20240311")
    ensures UpdatedDate("20240301", "d 10", MarchTenth, nextDate) == Ok("20240311")
  {
    MarchDates();
    ParseFormat(Date(2024, 3, 1));
    ParseFormat(Date(2024, 3, 11));
    var today := Today(MarchTenth);
    assert today == "20240310";
    assert IsDateString("20240301") && Parse("20240301").value == Date(2024, 3, 1);
    assert DateLess(Date(2024, 3, 1), MarchTenth.date);
    CompareWithToday("20240301", MarchTenth);
    assert OverdueString("20240301", MarchTenth);
    StringOrderIsChronological(today, "20240311");
    assert StringOrder.Less(today, "20240311");
  }
}
