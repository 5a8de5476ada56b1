/** The calendar logic of `src/pages/Calendar.jsx`: the zero-padded local date string,
    the month grid of leading blanks followed by the days of the month, the event type
    table and the click on a grid cell.  Dates follow the proleptic Gregorian calendar
    that JavaScript's `Date` uses; months are numbered 0 to 11 as `getMonth` does. */
module Calendar {
  import opened Wrappers
  import opened Text
  import opened Sequences

  // ---------------------------------------------------------------------------
  // Gregorian arithmetic

  predicate IsLeapYear(y: int) {
    y % 4 == 0 && (y % 100 != 0 || y % 400 == 0)
  }

  /** The number of days in month `m` (0 to 11) of year `y`. */
  function DaysInMonth(y: int, m: int): (n: int)
    requires 0 <= m < 12
    ensures 28 <= n <= 31
  {
    if m == 1 then (if IsLeapYear(y) then 29 else 28)
    else if m == 3 || m == 5 || m == 8 || m == 10 then 30
    else 31
  }

  /** Days in the months of `y` before month `m`. */
  function DaysBeforeMonth(y: int, m: int): int
    requires 0 <= m <= 12
    decreases m
  {
    if m == 0 then 0 else DaysBeforeMonth(y, m - 1) + DaysInMonth(y, m - 1)
  }

  /** The number of leap years among the years from 0 up to, not including, `y`
      (negative when `y` is). */
  function LeapYearsBefore(y: int): int {
    (y + 3) / 4 - (y + 99) / 100 + (y + 399) / 400
  }

  /** Days from 1 January of year 0 to 1 January of year `y`. */
  function DaysBeforeYear(y: int): int {
    365 * y + LeapYearsBefore(y)
  }

  /** The day number of a date, counted from 1 January of year 0. */
  function DayNumber(y: int, m: int, d: int): int
    requires 0 <= m < 12
  {
    DaysBeforeYear(y) + DaysBeforeMonth(y, m) + d - 1
  }

  /** `getDay()`: 0 for Sunday to 6 for Saturday; 1 January of year 0 was a Saturday. */
  function Weekday(y: int, m: int, d: int): (w: int)
    requires 0 <= m < 12
    ensures 0 <= w < 7
  {
    (DayNumber(y, m, d) + 6) % 7
  }

  /** `new Date(y, m, d)` reads a year from 0 to 99 as 1900 to 1999. */
  function FullYear(y: int): int {
    if 0 <= y <= 99 then 1900 + y else y
  }

  /** Moving `y` on by one adds one multiple of `k` to those below it just when `y`
      is one; written out for the three divisors of the leap year rule. */
  lemma MultiplesStep4(y: int)
    ensures (y + 4) / 4 == (y + 3) / 4 + (if y % 4 == 0 then 1 else 0)
  {
    var q, r := (y + 3) / 4, (y + 3) % 4;
    if r == 3 { assert y + 4 == 4 * (q + 1); } else { assert y + 4 == 4 * q + (r + 1); }
  }

  lemma MultiplesStep100(y: int)
    ensures (y + 100) / 100 == (y + 99) / 100 + (if y % 100 == 0 then 1 else 0)
  {
    var q, r := (y + 99) / 100, (y + 99) % 100;
    if r == 99 { assert y + 100 == 100 * (q + 1); } else { assert y + 100 == 100 * q + (r + 1); }
  }

  lemma MultiplesStep400(y: int)
    ensures (y + 400) / 400 == (y + 399) / 400 + (if y % 400 == 0 then 1 else 0)
  {
    var q, r := (y + 399) / 400, (y + 399) % 400;
    if r == 399 { assert y + 400 == 400 * (q + 1); } else { assert y + 400 == 400 * q + (r + 1); }
  }

  lemma LeapYearsStep(y: int)
    ensures LeapYearsBefore(y + 1) == LeapYearsBefore(y) + (if IsLeapYear(y) then 1 else 0)
  {
    MultiplesStep4(y);
    MultiplesStep100(y);
    MultiplesStep400(y);
    DivisorChain(y);
    LeapFlags(y % 4 == 0, y % 100 == 0, y % 400 == 0);
  }

  /** A multiple of 400 is a multiple of 100, and a multiple of 100 one of 4. */
  lemma DivisorChain(y: int)
    ensures y % 400 == 0 ==> y % 100 == 0
    ensures y % 100 == 0 ==> y % 4 == 0
  {
    if y % 400 == 0 {
      Divides400(y);
    }
    if y % 100 == 0 {
      Divides100(y);
    }
  }

  lemma Divides400(y: int)
    requires y % 400 == 0
    ensures y % 100 == 0
  {
    var t := y / 400;
    assert y == 400 * t;
    assert y / 100 == 4 * t;
  }

  lemma Divides100(y: int)
    requires y % 100 == 0
    ensures y % 4 == 0
  {
    var t := y / 100;
    assert y == 100 * t;
    assert y / 4 == 25 * t;
  }

  lemma LeapFlags(by4: bool, by100: bool, by400: bool)
    requires by400 ==> by100
    requires by100 ==> by4
    ensures (if by4 then 1 else 0) - (if by100 then 1 else 0) + (if by400 then 1 else 0)
      == if by4 && (!by100 || by400) then 1 else 0
  {
  }

  lemma DaysBeforeMonthYear(y: int)
    ensures DaysBeforeMonth(y, 12) == if IsLeapYear(y) then 366 else 365
  {
  }

  /** The first of month `m + 1` (or of January of the next year) is the day after the
      last of month `m`: what `new Date(y, m + 1, 0).getDate()` reads is `DaysInMonth`. */
  lemma NextMonthFollows(y: int, m: int)
    requires 0 <= m < 12
    ensures m < 11 ==> DayNumber(y, m + 1, 1) == DayNumber(y, m, DaysInMonth(y, m)) + 1
    ensures m == 11 ==> DayNumber(y + 1, 0, 1) == DayNumber(y, m, DaysInMonth(y, m)) + 1
  {
    if m == 11 {
      LeapYearsStep(y);
      DaysBeforeMonthYear(y);
    }
  }

  /** The weekday of the next month's first day moves on by the length of the month. */
  lemma WeekdayNextMonth(y: int, m: int)
    requires 0 <= m < 12
    ensures var n := DaysInMonth(y, m);
      (m < 11 ==> Weekday(y, m + 1, 1) == (Weekday(y, m, 1) + n) % 7)
      && (m == 11 ==> Weekday(y + 1, 0, 1) == (Weekday(y, m, 1) + n) % 7)
  {
    if m < 11 {
      WeekdayNextInYear(y, m);
    } else {
      WeekdayNextYear(y);
    }
  }

  lemma WeekdayNextInYear(y: int, m: int)
    requires 0 <= m < 11
    ensures Weekday(y, m + 1, 1) == (Weekday(y, m, 1) + DaysInMonth(y, m)) % 7
  {
    DayNumberNextMonth(y, m);
    WeekdayShift(DayNumber(y, m, 1), DayNumber(y, m + 1, 1), DaysInMonth(y, m));
  }

  lemma DayNumberNextMonth(y: int, m: int)
    requires 0 <= m < 11
    ensures DayNumber(y, m + 1, 1) == DayNumber(y, m, 1) + DaysInMonth(y, m)
  {
    assert DaysBeforeMonth(y, m + 1) == DaysBeforeMonth(y, m) + DaysInMonth(y, m);
  }

  lemma WeekdayNextYear(y: int)
    ensures Weekday(y + 1, 0, 1) == (Weekday(y, 11, 1) + DaysInMonth(y, 11)) % 7
  {
    NextMonthFollows(y, 11);
    WeekdayShift(DayNumber(y, 11, 1), DayNumber(y + 1, 0, 1), 31);
  }

  lemma WeekdayShift(a: int, b: int, n: int)
    requires b == a + n
    ensures (b + 6) % 7 == ((a + 6) % 7 + n) % 7
  {
    var q, r := (a + 6) / 7, (a + 6) % 7;
    assert b + 6 == 7 * q + (r + n);
  }

  /** 1 January 2000 was a Saturday and 1 January 1970 a Thursday. */
  lemma WeekdayAnchors()
    ensures Weekday(2000, 0, 1) == 6 && Weekday(1970, 0, 1) == 4
  {
    AnchorOf(2000, 485, 6);
    AnchorOf(1970, 478, 4);
  }

  /** The weekday of 1 January of `y`, given the count of leap years before it. */
  lemma AnchorOf(y: int, leaps: int, w: int)
    requires LeapYearsBefore(y) == leaps && (365 * y + leaps + 6) % 7 == w
    ensures Weekday(y, 0, 1) == w
  {
    assert DayNumber(y, 0, 1) == 365 * y + leaps;
  }

  // ---------------------------------------------------------------------------
  // getLocalDateString

  /** `String(n).padStart(2, '0')`. */
  function Pad2(n: nat): (s: string)
    ensures |s| >= 2 && AllDigits(s)
    ensures n < 100 ==> |s| == 2
  {
    var t := NatToString(n);
    assert 10 <= n < 100 ==> |NatToString(n / 10)| == 1;
    if |t| < 2 then "0" + t else t
  }

  lemma Pad2Value(n: nat)
    requires n < 100
    ensures DigitsValue(Pad2(n)) == n
  {
    NatToStringValue(n);
    var t := NatToString(n);
    if n < 10 {
      assert Pad2(n)[..1] == "0";
    }
  }

  /** `getLocalDateString(date)` for a date with full year `y`, month `m` (0 to 11)
      and day `d`. */
  function GetLocalDateString(y: int, m: int, d: nat): string
    requires 0 <= m < 12
  {
    IntToString(y) + "-" + Pad2(m + 1) + "-" + Pad2(d)
  }

  /** The text is the year, a month from 01 to 12 and a day of two digits, each with
      the value it stands for. */
  lemma DateStringLayout(y: int, m: int, d: nat)
    requires 0 <= m < 12 && 1 <= d <= 31
    ensures var s := GetLocalDateString(y, m, d); var n := |s|;
      n >= 7 && s[n - 6] == '-' && s[n - 3] == '-' && s[..n - 6] == IntToString(y)
      && AllDigits(s[n - 5..n - 3]) && DigitsValue(s[n - 5..n - 3]) == m + 1
      && AllDigits(s[n - 2..]) && DigitsValue(s[n - 2..]) == d
  {
    DashLayout(IntToString(y), Pad2(m + 1), Pad2(d));
    Pad2Value(m + 1);
    Pad2Value(d);
  }

  /** Where the parts of `a-p-q` sit, for two-character `p` and `q`. */
  lemma DashLayout(a: string, p: string, q: string)
    requires |p| == 2 && |q| == 2
    ensures var s := a + "-" + p + "-" + q; var n := |s|;
      n == |a| + 6 && s[n - 6] == '-' && s[n - 3] == '-' && s[..n - 6] == a
      && s[n - 5..n - 3] == p && s[n - 2..] == q
  {
    var s := a + "-" + p + "-" + q;
    var n := |s|;
    assert s[..n - 6] == a;
    assert s[n - 5..n - 3] == p;
    assert s[n - 2..] == q;
  }

  // ---------------------------------------------------------------------------
  // generateCalendarDays

  /** A grid cell: `{ day: null, isCurrentMonth: false }` or
      `{ day: i, isCurrentMonth: true, date }`. */
  datatype Cell = Cell(day: Option<nat>, isCurrentMonth: bool, date: Option<string>)

  const Blank: Cell := Cell(None, false, None)

  function DayCell(y: int, m: int, i: nat): Cell
    requires 0 <= m < 12
  {
    Cell(Some(i), true, Some(GetLocalDateString(y, m, i)))
  }

  /** `generateCalendarDays()` for the year and month (0 to 11) of the selected date. */
  method GenerateCalendarDays(year: int, month: int) returns (days: seq<Cell>)
    requires 0 <= month < 12
    ensures var y := FullYear(year); var start := Weekday(y, month, 1);
      |days| == start + DaysInMonth(y, month)
      && (forall i :: 0 <= i < start ==> days[i] == Blank)
      && (forall i :: start <= i < |days| ==> days[i] == DayCell(y, month, i - start + 1))
  {
    var y := FullYear(year);
    var daysInMonth := DaysInMonth(y, month);
    var startDayOfWeek := Weekday(y, month, 1);
    days := FillCells(y, month, startDayOfWeek, daysInMonth);
  }

  /** The two loops of `generateCalendarDays`: `start` blank cells, then one cell for
      each day from 1 to `n`. */
  method FillCells(y: int, month: int, start: nat, n: nat) returns (days: seq<Cell>)
    requires 0 <= month < 12
    ensures |days| == start + n
    ensures forall i :: 0 <= i < start ==> days[i] == Blank
    ensures forall i :: start <= i < |days| ==> days[i] == DayCell(y, month, i - start + 1)
  {
    days := [];
    var i := 0;
    while i < start
      invariant 0 <= i <= start
      invariant |days| == i && forall k :: 0 <= k < i ==> days[k] == Blank
    {
      days := days + [Blank];
      i := i + 1;
    }
    i := 1;
    while i <= n
      invariant 1 <= i <= n + 1
      invariant |days| == start + i - 1
      invariant forall k :: 0 <= k < start ==> days[k] == Blank
      invariant forall k :: start <= k < |days| ==> days[k] == DayCell(y, month, k - start + 1)
    {
      days := days + [DayCell(y, month, i)];
      i := i + 1;
    }
  }

  /** The cell's `onClick`: only a day of the month changes the selected date. */
  function ClickCell(selected: string, cell: Cell): (r: string)
    requires cell.isCurrentMonth ==> cell.date.Some?
    ensures !cell.isCurrentMonth ==> r == selected
    ensures cell.isCurrentMonth ==> r == cell.date.value
  {
    if cell.isCurrentMonth then cell.date.value else selected
  }

  /** Clicking a day cell of the grid selects that day's date string. */
  lemma ClickDayCell(selected: string, y: int, m: int, i: nat)
    requires 0 <= m < 12
    ensures ClickCell(selected, DayCell(y, m, i)) == GetLocalDateString(y, m, i)
    ensures ClickCell(selected, Blank) == selected
  {
  }

  // ---------------------------------------------------------------------------
  // Event types

  /** An entry of `eventTypes`; `name` holds the entry's `label`, a word Dafny reserves. */
  datatype EventType = EventType(value: string, name: string, icon: string, color: string)

  const EventTypes: seq<EventType> := [
    EventType("workout", "Workout", "\U{1F4AA}", "#0EA5E9"),
    EventType("cardio", "Cardio", "\U{1F3C3}", "#10B981"),
    EventType("yoga", "Yoga", "\U{1F9D8}", "#8B5CF6"),
    EventType("rest", "Rest Day", "\U{1F634}", "#F59E0B"),
    EventType("meal", "Meal Plan", "\U{1F34E}", "#EF4444")
  ]

  /** `getEventTypeInfo(type)`: the entry for `type`, or the first entry. */
  function GetEventTypeInfo(t: string): (r: EventType)
    ensures r in EventTypes
    ensures (exists j :: 0 <= j < |EventTypes| && EventTypes[j].value == t) ==> r.value == t
    ensures (forall j :: 0 <= j < |EventTypes| ==> EventTypes[j].value != t) ==> r == EventTypes[0]
  {
    match FindFirst(EventTypes, (e: EventType) => e.value == t)
    case Some(i) => EventTypes[i]
    case None => EventTypes[0]
  }
}
