/** Two helpers of `ReportService` in `services/report_service.py`: the
    overdue report's grouping of loans by days overdue, and the monthly
    report's most active month. The queries that feed them are outside the
    model; their results are the inputs here. */
module Reports {
  import opened Store
  import LegacyLoanService

  // ---------------------------------------------------------------------------
  // _group_by_days_overdue

  /** The four ranges of the overdue report, from "1-7 días" to "Más de 30 días". */
  datatype Bucket = OneToSeven | EightToFifteen | SixteenToThirty | OverThirty

  /** The range a loan `daysOverdue` days past its due date is counted in.
      Anything up to seven days, zero and negative included, is counted in
      the first one. */
  function BucketOf(daysOverdue: int): (b: Bucket)
    ensures b == OneToSeven <==> daysOverdue <= 7
    ensures b == EightToFifteen <==> 8 <= daysOverdue <= 15
    ensures b == SixteenToThirty <==> 16 <= daysOverdue <= 30
    ensures b == OverThirty <==> daysOverdue > 30
  {
    if daysOverdue <= 7 then OneToSeven
    else if daysOverdue <= 15 then EightToFifteen
    else if daysOverdue <= 30 then SixteenToThirty
    else OverThirty
  }

  /** How many of the due dates fall in range `b` on day `today`. */
  function CountIn(dueDates: seq<int>, today: int, b: Bucket): nat
  {
    if dueDates == [] then 0
    else CountIn(dueDates[..|dueDates| - 1], today, b)
         + (if BucketOf(today - dueDates[|dueDates| - 1]) == b then 1 else 0)
  }

  /** Every loan is counted in exactly one range. */
  lemma {:induction false} CountsAddUp(dueDates: seq<int>, today: int)
    ensures CountIn(dueDates, today, OneToSeven) + CountIn(dueDates, today, EightToFifteen)
          + CountIn(dueDates, today, SixteenToThirty) + CountIn(dueDates, today, OverThirty)
         == |dueDates|
  {
    if dueDates != [] {
      CountsAddUp(dueDates[..|dueDates| - 1], today);
    }
  }

  /** Counting a concatenation counts each part. */
  lemma {:induction false} CountInAppend(front: seq<int>, back: seq<int>, today: int, b: Bucket)
    ensures CountIn(front + back, today, b) == CountIn(front, today, b) + CountIn(back, today, b)
    decreases |back|
  {
    if back == [] {
      assert front + back == front;
    } else {
      var init := back[..|back| - 1];
      assert (front + back)[..|front + back| - 1] == front + init;
      CountInAppend(front, init, today, b);
    }
  }

  /** Taking one loan out of a list takes its range's count down by one. */
  lemma CountWithout(others: seq<int>, j: int, today: int, b: Bucket)
    requires 0 <= j < |others|
    ensures multiset(others[..j] + others[j + 1..]) == multiset(others) - multiset{others[j]}
    ensures CountIn(others, today, b)
         == CountIn(others[..j] + others[j + 1..], today, b) + (if BucketOf(today - others[j]) == b then 1 else 0)
  {
    var before, after := others[..j], others[j + 1..];
    assert others == before + [others[j]] + after;
    CountInAppend(before, after, today, b);
    CountInAppend(before + [others[j]], after, today, b);
    CountInAppend(before, [others[j]], today, b);
    assert [others[j]][..0] == [];
  }

  /** The range counts do not depend on the order in which the query yields
      the loans: any two lists with the same due dates, counted with
      multiplicity, give the same counts. */
  lemma {:induction false} CountsIgnoreOrder(dueDates: seq<int>, others: seq<int>, today: int, b: Bucket)
    requires multiset(dueDates) == multiset(others)
    ensures CountIn(dueDates, today, b) == CountIn(others, today, b)
    decreases |dueDates|
  {
    if dueDates == [] {
      assert |others| == |multiset(others)| == 0;
    } else {
      var init, last := dueDates[..|dueDates| - 1], dueDates[|dueDates| - 1];
      assert dueDates == init + [last];
      assert multiset(init) == multiset(dueDates) - multiset{last};
      assert last in multiset(others);
      var j :| 0 <= j < |others| && others[j] == last;
      CountWithout(others, j, today, b);
      CountsIgnoreOrder(init, others[..j] + others[j + 1..], today, b);
    }
  }

  /** The report as a dict: the four ranges, each with its count. */
  method GroupByDaysOverdue(dueDates: seq<int>, today: int) returns (ranges: map<Bucket, nat>)
    ensures ranges.Keys == {OneToSeven, EightToFifteen, SixteenToThirty, OverThirty}
    ensures forall b :: b in ranges ==> ranges[b] == CountIn(dueDates, today, b)
  {
    ranges := map[OneToSeven := 0, EightToFifteen := 0, SixteenToThirty := 0, OverThirty := 0];
    for i := 0 to |dueDates|
      invariant ranges.Keys == {OneToSeven, EightToFifteen, SixteenToThirty, OverThirty}
      invariant forall b :: b in ranges ==> ranges[b] == CountIn(dueDates[..i], today, b)
    {
      assert dueDates[..i + 1][..i] == dueDates[..i];
      var daysOverdue := today - dueDates[i];
      var b := BucketOf(daysOverdue);
      ranges := ranges[b := ranges[b] + 1];
    }
    assert dueDates[..|dueDates|] == dueDates;
  }

  /** The report and the daily notices draw the line at thirty days
      differently: a loan exactly thirty days late is warned as long overdue
      but reported in the 16-30 days range. */
  lemma ThirtyDaysLate(loan: Loan, today: int)
    requires today - loan.dueDate == 30
    ensures LegacyLoanService.LongOverdue(loan, today)
    ensures BucketOf(today - loan.dueDate) == SixteenToThirty
  {
  }

  // ---------------------------------------------------------------------------
  // _get_most_active_month

  /** One row of the monthly breakdown. */
  datatype MonthRow = MonthRow(month: int, totalLoans: nat)

  /** Python's `max(rows, key=total_loans)`: the index of the first row with
      the largest total. */
  function MostActiveIndex(rows: seq<MonthRow>): (k: nat)
    requires rows != []
    ensures k < |rows|
    ensures forall i :: 0 <= i < |rows| ==> rows[i].totalLoans <= rows[k].totalLoans
    ensures forall i :: 0 <= i < k ==> rows[i].totalLoans < rows[k].totalLoans
  {
    if |rows| == 1 then 0
    else
      var j := MostActiveIndex(rows[..|rows| - 1]);
      if rows[|rows| - 1].totalLoans > rows[j].totalLoans then |rows| - 1 else j
  }

  /** `_get_most_active_month`: no month for an empty breakdown, otherwise the
      first of the busiest months. */
  function MostActiveMonth(rows: seq<MonthRow>): (r: Option<MonthRow>)
    ensures r.None? <==> rows == []
    ensures r.Some? ==>
      exists k ::
        && 0 <= k < |rows| && rows[k] == r.value
        && (forall i :: 0 <= i < |rows| ==> rows[i].totalLoans <= rows[k].totalLoans)
        && (forall i :: 0 <= i < k ==> rows[i].totalLoans < rows[k].totalLoans)
  {
    if rows == [] then None else Some(rows[MostActiveIndex(rows)])
  }
}
