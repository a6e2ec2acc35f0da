/** Federal Reserve business days. A date is its proleptic Gregorian ordinal
    (1 is 1 January of year 1, a Monday). */
module Calendar {
  import opened Prelude

  type Date = d: int | 1 <= d witness 1

  predicate Leap(year: int) {
    year % 4 == 0 && (year % 100 != 0 || year % 400 == 0)
  }

  function LeapDay(year: int): int {
    if Leap(year) then 1 else 0
  }

  /** The first day of a year: year 1 starts on day 1, and every year is 365
      days long, or 366 when it is a leap year. */
  function Jan1(year: int): int
    requires year >= 1
  {
    if year == 1 then 1 else Jan1(year - 1) + 365 + LeapDay(year - 1)
  }

  lemma {:induction false} YearsInOrder(a: int, b: int)
    requires 1 <= a < b
    ensures Jan1(a) + 365 <= Jan1(b)
    decreases b - a
  {
    if a < b - 1 {
      YearsInOrder(a, b - 1);
    }
  }

  /** `day.year`: the year whose days include this one. */
  function Year(d: Date): (y: int)
    ensures y >= 1 && Jan1(y) <= d < Jan1(y + 1)
  {
    YearFrom(1, d)
  }

  function YearFrom(y: int, d: int): (r: int)
    requires 1 <= y && Jan1(y) <= d
    ensures y <= r && Jan1(r) <= d < Jan1(r + 1)
    decreases d - Jan1(y)
  {
    if d < Jan1(y + 1) then y else YearFrom(y + 1, d)
  }

  lemma YearUnique(d: Date, y: int)
    requires y >= 1 && Jan1(y) <= d < Jan1(y + 1)
    ensures Year(d) == y
  {
    if y < Year(d) {
      if y + 1 < Year(d) { YearsInOrder(y + 1, Year(d)); }
    } else if Year(d) < y {
      if Year(d) + 1 < y { YearsInOrder(Year(d) + 1, y); }
    }
  }

  /** Monday is 0. */
  function Weekday(d: int): int {
    (d + 6) % 7
  }

  /** Days of the year before the first of a month. */
  function DaysBefore(year: int, month: int): int
    requires 1 <= month <= 12
  {
    match month
    case 1 => 0
    case 2 => 31
    case _ =>
      LeapDay(year) + match month
        case 3 => 59 case 4 => 90 case 5 => 120 case 6 => 151 case 7 => 181
        case 8 => 212 case 9 => 243 case 10 => 273 case 11 => 304 case _ => 334
  }

  function DateOf(year: int, month: int, day: int): int
    requires year >= 1 && 1 <= month <= 12
  {
    Jan1(year) + DaysBefore(year, month) + day - 1
  }

  /** The first of the month after. */
  function NextMonth(year: int, month: int): int
    requires year >= 1 && 1 <= month <= 12
  {
    DateOf(if month == 12 then year + 1 else year, month % 12 + 1, 1)
  }

  /** The n-th weekday of a month; the last when n is not positive. */
  function NthWeekday(year: int, month: int, weekday: int, n: int): int
    requires year >= 1 && 1 <= month <= 12
  {
    if n > 0 then
      var first := DateOf(year, month, 1);
      first + (weekday - Weekday(first)) % 7 + 7 * (n - 1)
    else
      var last := NextMonth(year, month) - 1;
      last - (Weekday(last) - weekday) % 7
  }

  lemma Congruent(a: int, weeks: int, w: int)
    requires 0 <= w < 7 && a == 7 * weeks + w
    ensures a % 7 == w
  {
  }

  lemma WeekdayAfter(d: int, weekday: int)
    requires 0 <= weekday < 7
    ensures Weekday(d + (weekday - Weekday(d)) % 7) == weekday
    ensures Weekday(d - (Weekday(d) - weekday) % 7) == weekday
  {
    var weeks, w := (d + 6) / 7, (d + 6) % 7;
    var ahead, back := weekday - w, w - weekday;
    assert ahead == 7 * (ahead / 7) + ahead % 7 && back == 7 * (back / 7) + back % 7;
    Congruent(d + ahead % 7 + 6, weeks - ahead / 7, weekday);
    Congruent(d - back % 7 + 6, weeks + back / 7, weekday);
  }

  lemma WeekdayWeeks(d: int, weeks: int)
    ensures Weekday(d + 7 * weeks) == Weekday(d)
  {
    var n, w := (d + 6) / 7, (d + 6) % 7;
    Congruent(d + 7 * weeks + 6, n + weeks, w);
  }

  lemma NthFrom(first: int, weekday: int, n: int)
    requires 0 <= weekday < 7
    ensures var d := first + (weekday - Weekday(first)) % 7 + 7 * (n - 1);
            Weekday(d) == weekday && 0 <= d - first - 7 * (n - 1) < 7
  {
    WeekdayAfter(first, weekday);
    WeekdayWeeks(first + (weekday - Weekday(first)) % 7, n - 1);
  }

  lemma LastFrom(last: int, weekday: int)
    requires 0 <= weekday < 7
    ensures var d := last - (Weekday(last) - weekday) % 7;
            Weekday(d) == weekday && 0 <= last - d < 7
  {
    WeekdayAfter(last, weekday);
  }

  /** The n-th: it has the weekday, and lies in the month's n-th run of seven
      days; the last lies in the month's last seven. */
  lemma NthWeekdayIsNth(year: int, month: int, weekday: int, n: int)
    requires year >= 1 && 1 <= month <= 12 && 0 <= weekday < 7
    ensures Weekday(NthWeekday(year, month, weekday, n)) == weekday
    ensures n > 0 ==> 0 <= NthWeekday(year, month, weekday, n) - DateOf(year, month, 1) - 7 * (n - 1) < 7
    ensures n <= 0 ==> 0 < NextMonth(year, month) - NthWeekday(year, month, weekday, n) <= 7
  {
    if n > 0 {
      NthFrom(DateOf(year, month, 1), weekday, n);
    } else {
      LastFrom(NextMonth(year, month) - 1, weekday);
    }
  }

  /** Sunday moves to Monday; a Saturday holiday is not observed. */
  function Observed(d: int): Option<int> {
    if Weekday(d) == 6 then Some(d + 1) else if Weekday(d) == 5 then None else Some(d)
  }

  function Fixed(year: int): seq<int>
    requires year >= 1
  {
    [DateOf(year, 1, 1), DateOf(year, 7, 4), DateOf(year, 11, 11), DateOf(year, 12, 25)]
    + if year >= 2022 then [DateOf(year, 6, 19)] else []
  }

  /** A year's table: fixed dates where they are kept, and six that float. */
  function Holidays(year: int): set<int>
    requires year >= 1
  {
    (set f | f in Fixed(year) && Observed(f).Some? :: Observed(f).value)
    + {NthWeekday(year, 1, 0, 3), NthWeekday(year, 2, 0, 3), NthWeekday(year, 5, 0, -1),
       NthWeekday(year, 9, 0, 1), NthWeekday(year, 10, 0, 2), NthWeekday(year, 11, 3, 4)}
  }

  predicate IsBusinessDay(d: Date) {
    Weekday(d) < 5 && d !in Holidays(Year(d))
  }

  // ── the year laid out in slots, one holiday each ──

  /** The stretch of the year, in days from 0, in which holiday `i` of
      the calendar can be observed. */
  function SlotStart(i: nat, leap: int): int {
    match i
    case 0 => 0
    case 1 => 14
    case 2 => 45
    case _ =>
      leap + match i
        case 3 => 144 case 4 => 169 case 5 => 184 case 6 => 243 case 7 => 280
        case 8 => 314 case 9 => 325 case _ => 358
  }

  function SlotEnd(i: nat, leap: int): int {
    SlotStart(i, leap) + if i in {1, 2, 3, 6, 7, 9} then 6 else 1
  }

  ghost predicate InSlot(year: int, h: int, i: nat)
    requires year >= 1
  {
    && i < 11
    && Weekday(h) < 5
    && SlotStart(i, LeapDay(year)) <= h - Jan1(year) <= SlotEnd(i, LeapDay(year))
  }

  /** The holiday of slot `i`, when it is observed at all. */
  function HolidayIn(year: int, i: nat): Option<int>
    requires year >= 1 && i < 11
  {
    match i
    case 0 => Observed(DateOf(year, 1, 1))
    case 1 => Some(NthWeekday(year, 1, 0, 3))
    case 2 => Some(NthWeekday(year, 2, 0, 3))
    case 3 => Some(NthWeekday(year, 5, 0, -1))
    case 4 => if year >= 2022 then Observed(DateOf(year, 6, 19)) else None
    case 5 => Observed(DateOf(year, 7, 4))
    case 6 => Some(NthWeekday(year, 9, 0, 1))
    case 7 => Some(NthWeekday(year, 10, 0, 2))
    case 8 => Observed(DateOf(year, 11, 11))
    case 9 => Some(NthWeekday(year, 11, 3, 4))
    case _ => Observed(DateOf(year, 12, 25))
  }

  function FloatingSlot(year: int, h: int): nat
    requires year >= 1
  {
    if h == NthWeekday(year, 1, 0, 3) then 1
    else if h == NthWeekday(year, 2, 0, 3) then 2
    else if h == NthWeekday(year, 5, 0, -1) then 3
    else if h == NthWeekday(year, 9, 0, 1) then 6
    else if h == NthWeekday(year, 10, 0, 2) then 7
    else 9
  }

  lemma FixedHasSlot(year: int, f: int) returns (i: nat)
    requires year >= 1 && f in Fixed(year)
    ensures i < 11 && HolidayIn(year, i) == Observed(f)
  {
    if f == DateOf(year, 1, 1) { i := 0; }
    else if f == DateOf(year, 7, 4) { i := 5; }
    else if f == DateOf(year, 11, 11) { i := 8; }
    else if f == DateOf(year, 12, 25) { i := 10; }
    else { i := 4; }
  }

  lemma HolidayHasSlot(year: int, h: int) returns (i: nat)
    requires year >= 1 && h in Holidays(year)
    ensures i < 11 && HolidayIn(year, i) == Some(h)
  {
    if f :| f in Fixed(year) && Observed(f) == Some(h) {
      i := FixedHasSlot(year, f);
    } else {
      i := FloatingSlot(year, h);
    }
  }

  lemma ObservedShape(d: int)
    ensures Observed(d).Some? ==> d <= Observed(d).value <= d + 1 && Weekday(Observed(d).value) < 5
  {
  }

  lemma SlotHolds(year: int, i: nat)
    requires year >= 1 && i < 11 && HolidayIn(year, i).Some?
    ensures InSlot(year, HolidayIn(year, i).value, i)
  {
    if i in {1, 2, 3, 6, 7, 9} {
      FloatingHolds(year, i);
    } else {
      FixedHolds(year, i);
    }
  }

  lemma FixedHolds(year: int, i: nat)
    requires year >= 1 && i in {0, 4, 5, 8, 10} && HolidayIn(year, i).Some?
    ensures InSlot(year, HolidayIn(year, i).value, i)
  {
    var fixed := DateOf(year, FixedDate(i).0, FixedDate(i).1);
    FixedIs(year, i);
    FixedFrom(year, i);
    ObservedInSlot(year, fixed, i);
  }

  lemma FixedIs(year: int, i: nat)
    requires year >= 1 && i in {0, 4, 5, 8, 10} && HolidayIn(year, i).Some?
    ensures HolidayIn(year, i) == Observed(DateOf(year, FixedDate(i).0, FixedDate(i).1))
  {
  }

  lemma ObservedInSlot(year: int, fixed: int, i: nat)
    requires year >= 1 && i in {0, 4, 5, 8, 10} && fixed == Jan1(year) + SlotStart(i, LeapDay(year))
    requires Observed(fixed).Some?
    ensures InSlot(year, Observed(fixed).value, i)
  {
    ObservedShape(fixed);
    assert SlotEnd(i, LeapDay(year)) == SlotStart(i, LeapDay(year)) + 1;
  }

  lemma FixedFrom(year: int, i: nat)
    requires year >= 1 && i in {0, 4, 5, 8, 10}
    ensures DateOf(year, FixedDate(i).0, FixedDate(i).1) == Jan1(year) + SlotStart(i, LeapDay(year))
  {
    match i
    case 0 => assert DateOf(year, 1, 1) == Jan1(year);
    case 4 => assert DateOf(year, 6, 19) == Jan1(year) + LeapDay(year) + 169;
    case 5 => assert DateOf(year, 7, 4) == Jan1(year) + LeapDay(year) + 184;
    case 8 => assert DateOf(year, 11, 11) == Jan1(year) + LeapDay(year) + 314;
    case _ => assert DateOf(year, 12, 25) == Jan1(year) + LeapDay(year) + 358;
  }

  function FixedDate(i: nat): (md: (int, int))
    requires i in {0, 4, 5, 8, 10}
    ensures 1 <= md.0 <= 12
  {
    match i
    case 0 => (1, 1)
    case 4 => (6, 19)
    case 5 => (7, 4)
    case 8 => (11, 11)
    case _ => (12, 25)
  }

  /** A floating holiday is an n-th weekday; its slot is the n-th seven days of
      its month, or the last. */
  function FloatingRule(i: nat): (r: (int, int, int))
    requires i in {1, 2, 3, 6, 7, 9}
    ensures 1 <= r.0 <= 12 && 0 <= r.1 < 7
  {
    match i
    case 1 => (1, 0, 3)
    case 2 => (2, 0, 3)
    case 3 => (5, 0, -1)
    case 6 => (9, 0, 1)
    case 7 => (10, 0, 2)
    case _ => (11, 3, 4)
  }

  /** Where that run of seven days begins, in days of the year. */
  function FloatingStart(i: nat, leap: int): int
    requires i in {1, 2, 3, 6, 7, 9}
  {
    match i
    case 1 => 0 + 14
    case 2 => 31 + 14
    case 3 => leap + 151 - 7
    case 6 => leap + 243
    case 7 => leap + 273 + 7
    case _ => leap + 304 + 21
  }

  lemma FloatingHolds(year: int, i: nat)
    requires year >= 1 && i in {1, 2, 3, 6, 7, 9}
    ensures HolidayIn(year, i).Some? && InSlot(year, HolidayIn(year, i).value, i)
  {
    var (month, weekday, n) := FloatingRule(i);
    var h := NthWeekday(year, month, weekday, n);
    assert HolidayIn(year, i) == Some(h);
    NthWeekdayIsNth(year, month, weekday, n);
    FloatingFrom(year, i);
    assert SlotStart(i, LeapDay(year)) == FloatingStart(i, LeapDay(year));
    assert SlotEnd(i, LeapDay(year)) == FloatingStart(i, LeapDay(year)) + 6;
  }

  lemma FloatingFrom(year: int, i: nat)
    requires year >= 1 && i in {1, 2, 3, 6, 7, 9}
    ensures var (month, _, n) := FloatingRule(i);
            Jan1(year) + FloatingStart(i, LeapDay(year))
                == if n > 0 then DateOf(year, month, 1) + 7 * (n - 1) else NextMonth(year, month) - 7
  {
    match i
    case 1 => assert DateOf(year, 1, 1) == Jan1(year);
    case 2 => assert DateOf(year, 2, 1) == Jan1(year) + 31;
    case 3 => assert NextMonth(year, 5) == DateOf(year, 6, 1) == Jan1(year) + LeapDay(year) + 151;
    case 6 => assert DateOf(year, 9, 1) == Jan1(year) + LeapDay(year) + 243;
    case 7 => assert DateOf(year, 10, 1) == Jan1(year) + LeapDay(year) + 273;
    case _ => assert DateOf(year, 11, 1) == Jan1(year) + LeapDay(year) + 304;
  }

  lemma SlotsApart(year: int, a: int, b: int, i: nat, j: nat)
    requires year >= 1 && InSlot(year, a, i) && InSlot(year, b, j) && i != j
    ensures Abs(a - b) >= 4
  {
  }

  /** What the rest needs to know about a table of holidays by year: they are
      weekdays before the year's last five days, at least four days apart. */
  ghost predicate WellSpaced(table: int -> set<int>) {
    && (forall y, h :: y >= 1 && h in table(y) ==>
          Weekday(h) < 5 && Jan1(y) <= h < Jan1(y + 1) - 5)
    && (forall y, a, b :: y >= 1 && a in table(y) && b in table(y) && a < b ==> b - a >= 4)
  }

  function HolidayTable(year: int): set<int> {
    if year >= 1 then Holidays(year) else {}
  }

  lemma HolidayInYear(year: int, h: int)
    requires year >= 1 && h in Holidays(year)
    ensures Weekday(h) < 5 && Jan1(year) <= h < Jan1(year + 1) - 5
  {
    var i := HolidayHasSlot(year, h);
    SlotHolds(year, i);
    SlotInYear(i, LeapDay(year));
  }

  lemma SlotInYear(i: nat, leap: int)
    requires i < 11 && 0 <= leap <= 1
    ensures 0 <= SlotStart(i, leap) && SlotEnd(i, leap) < 360 + leap
  {
  }

  lemma HolidaysApart(year: int, a: int, b: int)
    requires year >= 1 && a in Holidays(year) && b in Holidays(year) && a != b
    ensures Abs(a - b) >= 4
  {
    var i := HolidayHasSlot(year, a);
    var j := HolidayHasSlot(year, b);
    SlotHolds(year, i);
    SlotHolds(year, j);
    SlotsApart(year, a, b, i, j);
  }

  /** Every observed holiday is a weekday of its own year, and no two are
      fewer than four days apart. */
  lemma HolidaysWellSpaced()
    ensures WellSpaced(HolidayTable)
  {
    forall y, h | y >= 1 && h in HolidayTable(y)
      ensures Weekday(h) < 5 && Jan1(y) <= h < Jan1(y + 1) - 5
    {
      HolidayInYear(y, h);
    }
    forall y, a, b | y >= 1 && a in HolidayTable(y) && b in HolidayTable(y) && a < b
      ensures b - a >= 4
    {
      HolidaysApart(y, a, b);
    }
  }

  ghost predicate Listed(table: int -> set<int>, d: Date) {
    d in table(Year(d))
  }

  /** Looking a day up under its own year alone misses no holiday. */
  lemma OwnYearSuffices(table: int -> set<int>, d: Date, y: int)
    requires WellSpaced(table) && y >= 1 && d in table(y)
    ensures y == Year(d)
  {
    YearUnique(d, y);
  }

  lemma ListedApart(table: int -> set<int>, a: Date, b: Date)
    requires WellSpaced(table) && a < b && Listed(table, a) && Listed(table, b)
    ensures b - a >= 4
  {
    var y, z := Year(a), Year(b);
    if z > y {
      if z > y + 1 { YearsInOrder(y + 1, z); }
    } else if z < y {
      if z + 1 < y { YearsInOrder(z + 1, y); }
    }
  }

  ghost predicate Working(table: int -> set<int>, d: Date) {
    Weekday(d) < 5 && !Listed(table, d)
  }

  /** Four days in a row hold two weekdays. */
  lemma TwoWeekdays(d: Date) returns (a: Date, b: Date)
    ensures d <= a < b <= d + 3 && Weekday(a) < 5 && Weekday(b) < 5
  {
    var w := Weekday(d);
    a := if w <= 4 then d else d + (7 - w);
    b := if w == 4 then d + 3 else a + 1;
  }

  lemma FourDays(table: int -> set<int>, d: Date)
    requires WellSpaced(table)
    ensures Working(table, d) || Working(table, d + 1) || Working(table, d + 2) || Working(table, d + 3)
  {
    var a, b := TwoWeekdays(d);
    if !Listed(table, a) {
      OneOfFour(table, d, a);
    } else {
      if Listed(table, b) {
        ListedApart(table, a, b);
      }
      OneOfFour(table, d, b);
    }
  }

  lemma OneOfFour(table: int -> set<int>, d: Date, x: Date)
    requires d <= x <= d + 3 && Working(table, x)
    ensures Working(table, d) || Working(table, d + 1) || Working(table, d + 2) || Working(table, d + 3)
  {
    assert x == d || x == d + 1 || x == d + 2 || x == d + 3;
  }

  /** `day.year` finds every holiday: a business day is a weekday that no
      year's table names. */
  lemma LookupIsComplete(d: Date)
    ensures IsBusinessDay(d) <==> Weekday(d) < 5 && forall y :: d !in HolidayTable(y)
  {
    HolidaysWellSpaced();
    forall y | d in HolidayTable(y) ensures y == Year(d) {
      OwnYearSuffices(HolidayTable, d, y);
    }
    assert IsBusinessDay(d) == Working(HolidayTable, d);
  }

  /** Any four days in a row hold a business day. */
  lemma NoFourIdle(d: Date)
    ensures IsBusinessDay(d) || IsBusinessDay(d + 1) || IsBusinessDay(d + 2) || IsBusinessDay(d + 3)
  {
    HolidaysWellSpaced();
    FourDays(HolidayTable, d);
    assert forall x: Date :: Working(HolidayTable, x) ==> IsBusinessDay(x);
  }

  // ── counting ──

  /** The days in (start, end] that `open` holds of. */
  ghost function OpenDays(open: Date -> bool, start: Date, end: Date): set<Date> {
    set d: Date | start < d <= end && open(d)
  }

  lemma OpenDaysStep(open: Date -> bool, start: Date, end: Date)
    requires start <= end
    ensures |OpenDays(open, start, end + 1)| == |OpenDays(open, start, end)| + if open(end + 1) then 1 else 0
  {
    assert OpenDays(open, start, end + 1) == OpenDays(open, start, end) + if open(end + 1) then {end + 1} else {};
  }

  lemma OpenDaysSplit(open: Date -> bool, start: Date, mid: Date, end: Date)
    requires start <= mid <= end
    ensures |OpenDays(open, start, end)| == |OpenDays(open, start, mid)| + |OpenDays(open, mid, end)|
  {
    assert OpenDays(open, start, end) == OpenDays(open, start, mid) + OpenDays(open, mid, end);
  }

  /** If every four days hold an open one, `n` of them span at most `4n + 3`. */
  lemma {:induction false} OpenDaysSpan(open: Date -> bool, start: Date, end: Date)
    requires start <= end
    requires forall d: Date :: open(d) || open(d + 1) || open(d + 2) || open(d + 3)
    ensures end - start <= 4 * |OpenDays(open, start, end)| + 3
    decreases end - start
  {
    if end - start >= 4 {
      var mid := start + 4;
      OpenDaysSpan(open, mid, end);
      OpenDaysSplit(open, start, mid, end);
      var d: Date := start + 1;
      assert open(d) || open(d + 1) || open(d + 2) || open(d + 3);
      var x := if open(d) then d else if open(d + 1) then d + 1 else if open(d + 2) then d + 2 else d + 3;
      assert x in OpenDays(open, start, mid);
    }
  }

  /** What `business_days_after` promises, without the loop: how many business
      days lie in (start, end], and nothing when the dates are reversed. */
  ghost function DaysAfter(start: Date, end: Date): Option<nat> {
    if end < start then None else Some(|OpenDays(IsBusinessDay, start, end)|)
  }

  method BusinessDaysAfter(start: Date, end: Date) returns (count: Option<nat>)
    ensures count == DaysAfter(start, end)
  {
    if end < start {
      return None;
    }
    var n := CountOpen(IsBusinessDay, start, end);
    count := Some(n);
  }

  /** The day-by-day loop of `business_days_after`. */
  method CountOpen(open: Date -> bool, start: Date, end: Date) returns (count: nat)
    requires start <= end
    ensures count == |OpenDays(open, start, end)|
  {
    var day := start;
    count := 0;
    while day < end
      invariant start <= day <= end
      invariant count == |OpenDays(open, start, day)|
    {
      OpenDaysStep(open, start, day);
      day := day + 1;
      count := count + if open(day) then 1 else 0;
    }
  }

  /** Counting over a split adds up; the count is 0 on the same day and absent
      exactly when the dates run the wrong way. */
  lemma DaysAfterSplits(start: Date, mid: Date, end: Date)
    ensures DaysAfter(start, end) == None <==> end < start
    ensures DaysAfter(start, start) == Some(0)
    ensures start <= mid <= end ==>
              DaysAfter(start, end).value == DaysAfter(start, mid).value + DaysAfter(mid, end).value
  {
    assert OpenDays(IsBusinessDay, start, start) == {};
    if start <= mid <= end {
      OpenDaysSplit(IsBusinessDay, start, mid, end);
    }
  }

  /** `n` business days never span more than `4n + 3` calendar days. */
  lemma SpanBound(start: Date, end: Date)
    requires start <= end
    ensures end - start <= 4 * DaysAfter(start, end).value + 3
  {
    forall d: Date
      ensures IsBusinessDay(d) || IsBusinessDay(d + 1) || IsBusinessDay(d + 2) || IsBusinessDay(d + 3)
    {
      NoFourIdle(d);
    }
    OpenDaysSpan(IsBusinessDay, start, end);
  }

  // ── the calendar, said outright ──

  /** Thirty days have September, April, June and November. */
  function DaysIn(year: int, month: int): int {
    if month == 2 then (if Leap(year) then 29 else 28)
    else if month in {4, 6, 9, 11} then 30
    else 31
  }

  lemma MonthLength(year: int, month: int)
    requires year >= 1 && 1 <= month <= 12
    ensures NextMonth(year, month) == DateOf(year, month, 1) + DaysIn(year, month)
  {
    if month == 12 {
      assert NextMonth(year, 12) == Jan1(year + 1);
    }
  }

  /** Years up to the one before: 365 days each, and one more every fourth but not
      every hundredth, and every four hundredth after all. */
  lemma {:induction false} Jan1Is(year: int)
    requires year >= 1
    ensures Jan1(year) == 1 + 365 * (year - 1) + (year - 1) / 4 - (year - 1) / 100 + (year - 1) / 400
  {
    if year > 1 {
      Jan1Is(year - 1);
      Every(year - 1, 4);
      Every(year - 1, 100);
      Every(year - 1, 400);
      LeapDayIs(year - 1);
    }
  }

  function Hit(year: int, k: int): int
    requires k > 0
  {
    if year % k == 0 then 1 else 0
  }

  lemma Every(year: int, k: int)
    requires k > 0
    ensures year / k == (year - 1) / k + Hit(year, k)
  {
    var q, r := year / k, year % k;
    assert year == q * k + r;
    if r == 0 {
      OneLess(q, k);
      Quotient(year - 1, q - 1, k - 1, k);
    } else {
      Quotient(year - 1, q, r - 1, k);
    }
  }

  lemma OneLess(q: int, k: int)
    ensures (q - 1) * k == q * k - k
  {
  }

  lemma Quotient(n: int, q: int, r: int, k: int)
    requires k > 0 && n == q * k + r && 0 <= r < k
    ensures n / k == q
  {
    assert n == (n / k) * k + n % k;
    WholeSteps(n / k, q, k);
    WholeSteps(q, n / k, k);
  }

  lemma WholeSteps(a: int, b: int, k: int)
    requires k > 0
    ensures a < b ==> a * k + k <= b * k
  {
    OneLess(a + 1, k);
    if a < b {
      Times(a + 1, b, k);
    }
  }

  lemma Times(a: int, b: int, k: int)
    requires a <= b && k > 0
    ensures a * k <= b * k
  {
  }

  lemma LeapDayIs(year: int)
    ensures LeapDay(year) == Hit(year, 4) - Hit(year, 100) + Hit(year, 400)
  {
  }

  /** So the weekdays fall as they do: 1 January 2024 is a Monday, and 4 July 2026 a
      Saturday. */
  lemma KnownDays()
    ensures DateOf(2024, 1, 1) == 738886 && Weekday(DateOf(2024, 1, 1)) == 0
    ensures Weekday(DateOf(2026, 7, 4)) == 5
  {
    Jan1Is(2024);
    Jan1Is(2026);
  }

  /** A day that there is. */
  predicate IsDay(year: int, month: int, day: int) {
    year >= 1 && 1 <= month <= 12 && 1 <= day <= DaysIn(year, month)
  }

  lemma DaysBeforeGrows(year: int, a: int, b: int)
    requires 1 <= a < b <= 12
    ensures DaysBefore(year, a) + DaysIn(year, a) <= DaysBefore(year, b)
  {
  }

  lemma DayInYear(year: int, month: int, day: int)
    requires IsDay(year, month, day)
    ensures Jan1(year) <= DateOf(year, month, day) < Jan1(year + 1)
  {
    if month < 12 {
      DaysBeforeGrows(year, month, 12);
    }
  }

  lemma Jan1Positive(year: int)
    requires year >= 1
    ensures Jan1(year) >= 1
  {
    if year > 1 {
      YearsInOrder(1, year);
    }
  }

  /** A date names one day. */
  lemma OneDate(y: int, m: int, d: int, year: int, month: int, day: int)
    requires IsDay(y, m, d) && IsDay(year, month, day) && DateOf(y, m, d) == DateOf(year, month, day)
    ensures y == year && m == month && d == day
  {
    DayInYear(y, m, d);
    DayInYear(year, month, day);
    Jan1Positive(y);
    YearUnique(DateOf(y, m, d), y);
    YearUnique(DateOf(y, m, d), year);
    if m < month {
      DaysBeforeGrows(year, m, month);
    } else if month < m {
      DaysBeforeGrows(year, month, m);
    }
  }

  /** And every day has a date. */
  lemma HasDate(d: Date) returns (year: int, month: int, day: int)
    ensures IsDay(year, month, day) && d == DateOf(year, month, day) && year == Year(d)
  {
    year, month := Year(d), 12;
    while d < DateOf(year, month, 1)
      invariant 1 <= month <= 12 && year == Year(d)
      invariant d < (if month == 12 then Jan1(year + 1) else DateOf(year, month + 1, 1))
      decreases month
    {
      month := month - 1;
    }
    MonthLength(year, month);
    day := d - DateOf(year, month, 1) + 1;
  }

  /** New Year's Day, Independence Day, Veterans Day and Christmas Day; Juneteenth
      since 2022. */
  predicate FixedDay(year: int, month: int, day: int) {
    (month, day) in {(1, 1), (7, 4), (11, 11), (12, 25)} || (month == 6 && day == 19 && year >= 2022)
  }

  /** The third Monday of January and of February, the last of May, the first of
      September, the second of October; the fourth Thursday of November. */
  predicate FloatingDay(month: int, day: int, weekday: int) {
    || (weekday == 0 && month == 1 && 15 <= day <= 21)
    || (weekday == 0 && month == 2 && 15 <= day <= 21)
    || (weekday == 0 && month == 5 && 25 <= day <= 31)
    || (weekday == 0 && month == 9 && 1 <= day <= 7)
    || (weekday == 0 && month == 10 && 8 <= day <= 14)
    || (weekday == 3 && month == 11 && 22 <= day <= 28)
  }

  /** An n-th weekday is the day of that weekday in its run of seven days. */
  lemma NthIff(year: int, month: int, weekday: int, n: int, d: int)
    requires year >= 1 && 1 <= month <= 12 && 0 <= weekday < 7
    ensures var first := if n > 0 then DateOf(year, month, 1) + 7 * (n - 1) else NextMonth(year, month) - 7;
            d == NthWeekday(year, month, weekday, n) <==> Weekday(d) == weekday && 0 <= d - first < 7
  {
    NthWeekdayIsNth(year, month, weekday, n);
    var h := NthWeekday(year, month, weekday, n);
    if Weekday(d) == weekday && -7 < d - h < 7 {
      SameWeekday(d, h);
    }
  }

  lemma SameWeekday(a: int, b: int)
    requires Weekday(a) == Weekday(b) && -7 < a - b < 7
    ensures a == b
  {
    assert a + 6 == 7 * ((a + 6) / 7) + (a + 6) % 7 && b + 6 == 7 * ((b + 6) / 7) + (b + 6) % 7;
  }

  /** A day is in a run of seven days of its year exactly when month and day say so. */
  lemma InRun(year: int, month: int, day: int, m: int, from: int)
    requires IsDay(year, month, day) && 1 <= m <= 12 && 1 <= from && from + 6 <= DaysIn(year, m)
    ensures 0 <= DateOf(year, month, day) - DateOf(year, m, from) < 7 <==> month == m && from <= day <= from + 6
  {
    if month < m {
      DaysBeforeGrows(year, month, m);
    } else if m < month {
      DaysBeforeGrows(year, m, month);
    }
  }

  lemma FloatingIs(year: int, month: int, day: int, m: int, weekday: int, n: int, from: int)
    requires IsDay(year, month, day) && 1 <= m <= 12 && 0 <= weekday < 7
    requires 1 <= from && from + 6 <= DaysIn(year, m)
    requires from == if n > 0 then 7 * (n - 1) + 1 else DaysIn(year, m) - 6
    ensures DateOf(year, month, day) == NthWeekday(year, m, weekday, n)
       <==> Weekday(DateOf(year, month, day)) == weekday && month == m && from <= day <= from + 6
  {
    NthIff(year, m, weekday, n, DateOf(year, month, day));
    MonthLength(year, m);
    InRun(year, month, day, m, from);
  }

  lemma FloatingIff(year: int, month: int, day: int)
    requires IsDay(year, month, day)
    ensures DateOf(year, month, day) in
              {NthWeekday(year, 1, 0, 3), NthWeekday(year, 2, 0, 3), NthWeekday(year, 5, 0, -1),
               NthWeekday(year, 9, 0, 1), NthWeekday(year, 10, 0, 2), NthWeekday(year, 11, 3, 4)}
       <==> FloatingDay(month, day, Weekday(DateOf(year, month, day)))
  {
    FloatingIs(year, month, day, 1, 0, 3, 15);
    FloatingIs(year, month, day, 2, 0, 3, 15);
    FloatingIs(year, month, day, 5, 0, -1, 25);
    FloatingIs(year, month, day, 9, 0, 1, 1);
    FloatingIs(year, month, day, 10, 0, 2, 8);
    FloatingIs(year, month, day, 11, 3, 4, 22);
  }

  /** This fixed date, or the Monday after it when it is a Sunday. */
  lemma KeptIff(year: int, month: int, day: int, m: int, f: int)
    requires IsDay(year, month, day) && IsDay(year, m, f) && f < DaysIn(year, m)
    ensures var d := DateOf(year, month, day);
            Observed(DateOf(year, m, f)) == Some(d)
            <==> (month == m && day == f && Weekday(d) < 5) || (month == m && day == f + 1 && Weekday(d) == 0)
  {
    var d, fixed := DateOf(year, month, day), DateOf(year, m, f);
    assert DateOf(year, m, f + 1) == fixed + 1;
    if d == fixed {
      OneDate(year, month, day, year, m, f);
    }
    if d == fixed + 1 {
      OneDate(year, month, day, year, m, f + 1);
    }
    assert Weekday(fixed + 1) == 0 <==> Weekday(fixed) == 6;
  }

  lemma FixedIff(year: int, month: int, day: int)
    requires IsDay(year, month, day)
    ensures var d := DateOf(year, month, day);
            (exists f :: f in Fixed(year) && Observed(f) == Some(d))
            <==> (FixedDay(year, month, day) && Weekday(d) < 5) || (FixedDay(year, month, day - 1) && Weekday(d) == 0)
  {
    KeptIff(year, month, day, 1, 1);
    KeptIff(year, month, day, 7, 4);
    KeptIff(year, month, day, 11, 11);
    KeptIff(year, month, day, 12, 25);
    KeptIff(year, month, day, 6, 19);
    forall f ensures f in Fixed(year) <==>
        f in {DateOf(year, 1, 1), DateOf(year, 7, 4), DateOf(year, 11, 11), DateOf(year, 12, 25)}
        || (year >= 2022 && f == DateOf(year, 6, 19))
    {
      FixedElems(year, f);
    }
  }

  lemma FixedElems(year: int, f: int)
    requires year >= 1
    ensures f in Fixed(year) <==>
              f in {DateOf(year, 1, 1), DateOf(year, 7, 4), DateOf(year, 11, 11), DateOf(year, 12, 25)}
              || (year >= 2022 && f == DateOf(year, 6, 19))
  {
  }

  lemma HolidaysAre(year: int, d: int)
    requires year >= 1
    ensures d in Holidays(year)
       <==> || (exists f :: f in Fixed(year) && Observed(f) == Some(d))
            || d in {NthWeekday(year, 1, 0, 3), NthWeekday(year, 2, 0, 3), NthWeekday(year, 5, 0, -1),
                     NthWeekday(year, 9, 0, 1), NthWeekday(year, 10, 0, 2), NthWeekday(year, 11, 3, 4)}
  {
  }

  predicate Holiday(year: int, month: int, day: int, weekday: int) {
    || (FixedDay(year, month, day) && weekday < 5)
    || (FixedDay(year, month, day - 1) && weekday == 0)
    || FloatingDay(month, day, weekday)
  }

  /** Which days are holidays: a fixed one on a weekday, the Monday after one that
      fell on a Sunday (one that fell on a Saturday is not kept), or one of the six
      that float. */
  lemma HolidayIff(year: int, month: int, day: int)
    requires IsDay(year, month, day)
    ensures var d := DateOf(year, month, day);
            d in Holidays(year) <==> Holiday(year, month, day, Weekday(d))
  {
    HolidaysAre(year, DateOf(year, month, day));
    FixedIff(year, month, day);
    FloatingIff(year, month, day);
  }

  /** A business day is a weekday that is none. */
  lemma BusinessDayIff(year: int, month: int, day: int)
    requires IsDay(year, month, day)
    ensures var d := DateOf(year, month, day);
            d >= 1 && (IsBusinessDay(d) <==> Weekday(d) < 5 && !Holiday(year, month, day, Weekday(d)))
  {
    HolidayIff(year, month, day);
    DayInYear(year, month, day);
    Jan1Positive(year);
    YearUnique(DateOf(year, month, day), year);
  }
}
