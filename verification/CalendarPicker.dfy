/** `CalendarDateRangePickerViewController`: a grid of months under weekday headers, and the selection of a range by
    taps. The platform's calendar is the Gregorian one. */
module CalendarPicker {
  import opened Options

  // ---------- The Gregorian calendar ----------

  predicate IsLeap(year: int) {
    year % 4 == 0 && (year % 100 != 0 || year % 400 == 0)
  }

  function DaysInMonth(year: int, month: int): nat {
    if month == 2 then (if IsLeap(year) then 29 else 28)
    else if month == 4 || month == 6 || month == 9 || month == 11 then 30
    else 31
  }

  function DaysInYear(year: int): nat {
    if IsLeap(year) then 366 else 365
  }

  datatype Day = Day(year: int, month: int, day: int) {
    predicate Valid() {
      1 <= month <= 12 && 1 <= day <= DaysInMonth(year, month)
    }

    /** Months are numbered through. */
    function MonthIndex(): int {
      12 * year + month - 1
    }
  }

  function DaysBeforeYear(year: int): int {
    365 * (year - 1) + (year - 1) / 4 - (year - 1) / 100 + (year - 1) / 400
  }

  function DaysBeforeMonth(year: int, month: int): nat
    requires 1 <= month <= 12
    decreases month
  {
    if month == 1 then 0 else DaysBeforeMonth(year, month - 1) + DaysInMonth(year, month - 1)
  }

  /** Day 1 is the first of January of year 1, a Monday. */
  function DayNumber(d: Day): int
    requires d.Valid()
  {
    DaysBeforeYear(d.year) + DaysBeforeMonth(d.year, d.month) + d.day
  }

  /** Sunday is 1, Saturday is 7. */
  function Weekday(d: Day): (w: int)
    requires d.Valid()
    ensures 1 <= w <= 7
  {
    DayNumber(d) % 7 + 1
  }

  function NextDay(d: Day): Day
    requires d.Valid()
  {
    if d.day < DaysInMonth(d.year, d.month) then Day(d.year, d.month, d.day + 1)
    else if d.month < 12 then Day(d.year, d.month + 1, 1)
    else Day(d.year + 1, 1, 1)
  }

  lemma YearLength(year: int)
    ensures DaysBeforeYear(year + 1) == DaysBeforeYear(year) + DaysInYear(year)
    ensures DaysBeforeMonth(year, 12) + DaysInMonth(year, 12) == DaysInYear(year)
  {
    QuotientSteps(year);
    MonthSums(year);
  }

  lemma QuotientSteps(year: int)
    ensures year / 4 == (year - 1) / 4 + (if year % 4 == 0 then 1 else 0)
    ensures year / 100 == (year - 1) / 100 + (if year % 100 == 0 then 1 else 0)
    ensures year / 400 == (year - 1) / 400 + (if year % 400 == 0 then 1 else 0)
    ensures year % 400 == 0 ==> year % 100 == 0
    ensures year % 100 == 0 ==> year % 4 == 0
  {}

  lemma MonthSums(year: int)
    ensures DaysBeforeMonth(year, 12) + 31 == DaysInYear(year)
  {
    var feb := DaysInMonth(year, 2);
    assert DaysBeforeMonth(year, 3) == 31 + feb by {
      assert DaysBeforeMonth(year, 2) == 31;
    }
    assert DaysBeforeMonth(year, 6) == 31 + feb + 92 by {
      assert DaysBeforeMonth(year, 4) == 31 + feb + 31;
      assert DaysBeforeMonth(year, 5) == 31 + feb + 61;
    }
    assert DaysBeforeMonth(year, 9) == 31 + feb + 184 by {
      assert DaysBeforeMonth(year, 7) == 31 + feb + 122;
      assert DaysBeforeMonth(year, 8) == 31 + feb + 153;
    }
    assert DaysBeforeMonth(year, 12) == 31 + feb + 275 by {
      assert DaysBeforeMonth(year, 10) == 31 + feb + 214;
      assert DaysBeforeMonth(year, 11) == 31 + feb + 245;
    }
  }

  /** The day number counts days: it is right at one day and goes up by one from each day to the next. */
  lemma DayNumberCounts(d: Day)
    requires d.Valid()
    ensures NextDay(d).Valid() && DayNumber(NextDay(d)) == DayNumber(d) + 1
    ensures DayNumber(Day(1, 1, 1)) == 1
  {
    if d.month == 12 {
      YearLength(d.year);
    }
  }

  predicate Earlier(a: Day, b: Day) {
    a.year < b.year || (a.year == b.year && (a.month < b.month || (a.month == b.month && a.day < b.day)))
  }

  lemma {:induction false} MonthsGrow(year: int, m: int, n: int)
    requires 1 <= m < n <= 12
    ensures DaysBeforeMonth(year, m) + DaysInMonth(year, m) <= DaysBeforeMonth(year, n)
    decreases n
  {
    if m < n - 1 {
      MonthsGrow(year, m, n - 1);
    }
  }

  lemma {:induction false} YearsGrow(a: int, b: int)
    requires a < b
    ensures DaysBeforeYear(a) + DaysInYear(a) <= DaysBeforeYear(b)
    decreases b - a
  {
    YearLength(b - 1);
    if a < b - 1 {
      YearsGrow(a, b - 1);
    }
  }

  lemma EarlierHasSmallerNumber(a: Day, b: Day)
    requires a.Valid() && b.Valid() && Earlier(a, b)
    ensures DayNumber(a) < DayNumber(b)
  {
    if a.year < b.year {
      YearsGrow(a.year, b.year);
      YearLength(a.year);
      if a.month < 12 {
        MonthsGrow(a.year, a.month, 12);
      }
    } else if a.month < b.month {
      MonthsGrow(a.year, a.month, b.month);
    }
  }

  /** The order of days is the order of their numbers, so equal numbers are equal days. */
  lemma DayOrder(a: Day, b: Day)
    requires a.Valid() && b.Valid()
    ensures Earlier(a, b) <==> DayNumber(a) < DayNumber(b)
    ensures a == b <==> DayNumber(a) == DayNumber(b)
  {
    if Earlier(a, b) {
      EarlierHasSmallerNumber(a, b);
    } else if Earlier(b, a) {
      EarlierHasSmallerNumber(b, a);
    } else {
      assert a == b;
    }
  }

  // ---------- Months between two moments ----------

  /** A moment: a day and a time of day. */
  datatype Moment = Moment(day: Day, time: nat)

  predicate NotAfter(a: Moment, b: Moment) {
    Earlier(a.day, b.day) || (a.day == b.day && a.time <= b.time)
  }

  function FirstOfMonth(index: int): (d: Day)
    ensures d.Valid() && d.MonthIndex() == index && d.day == 1
  {
    Day(index / 12, index % 12 + 1, 1)
  }

  /** Adding months keeps the day where the month has it, and takes the last day where it does not. */
  function PlusMonths(m: Moment, n: int): (r: Moment)
    requires m.day.Valid()
    ensures r.day.Valid() && r.day.MonthIndex() == m.day.MonthIndex() + n
  {
    var first := FirstOfMonth(m.day.MonthIndex() + n);
    var length := DaysInMonth(first.year, first.month);
    Moment(first.(day := if m.day.day <= length then m.day.day else length), m.time)
  }

  /** Whole months from one moment to a later one. */
  function MonthsBetween(from: Moment, to: Moment): (n: nat)
    requires from.day.Valid() && to.day.Valid() && NotAfter(from, to)
  {
    var n := to.day.MonthIndex() - from.day.MonthIndex();
    if NotAfter(PlusMonths(from, n), to) then n
    else
      LaterMonthIsLater(from.day, to.day);
      assert n != 0 by { SameMonth(from); }
      n - 1
  }

  lemma LaterMonthIsLater(a: Day, b: Day)
    requires a.Valid() && b.Valid()
    ensures a.MonthIndex() < b.MonthIndex() ==> Earlier(a, b)
    ensures a.MonthIndex() == b.MonthIndex() <==> a.year == b.year && a.month == b.month
  {}

  lemma SameMonth(m: Moment)
    requires m.day.Valid()
    ensures PlusMonths(m, 0) == m
  {
    LaterMonthIsLater(PlusMonths(m, 0).day, m.day);
  }

  /** It is the greatest number of months that can be added without passing the later moment. */
  lemma MonthsBetweenIsGreatest(from: Moment, to: Moment, n: int)
    requires from.day.Valid() && to.day.Valid() && NotAfter(from, to)
    ensures NotAfter(PlusMonths(from, n), to) <==> n <= MonthsBetween(from, to)
  {
    var whole := to.day.MonthIndex() - from.day.MonthIndex();
    LaterMonthIsLater(PlusMonths(from, n).day, to.day);
    LaterMonthIsLater(to.day, PlusMonths(from, n).day);
  }

  /** The weekday of the first of January, from the leap days before it. */
  lemma {:induction false} NewYear(d: Day, leapDays: int)
    requires d.month == 1 && d.day == 1
    requires leapDays == (d.year - 1) / 4 - (d.year - 1) / 100 + (d.year - 1) / 400
    ensures d.Valid() && Weekday(d) == (d.year + leapDays) % 7 + 1
  {
    var n := 365 * (d.year - 1) + leapDays + 1;
    WeekdayBy(d, 0, n);
    assert n == d.year + leapDays + 7 * 52 * (d.year - 1);
    SevenMore(d.year + leapDays, 52 * (d.year - 1));
  }

  lemma SevenMore(a: int, k: int)
    ensures (a + 7 * k) % 7 == a % 7
  {}

  /** Known days: 1 January was a Sunday in 2023, a Thursday in 1970, a Saturday in 2000. */
  lemma {:induction false} KnownDays(sunday: Day, thursday: Day, saturday: Day)
    requires sunday == Day(2023, 1, 1) && thursday == Day(1970, 1, 1) && saturday == Day(2000, 1, 1)
    ensures sunday.Valid() && Weekday(sunday) == 1
    ensures thursday.Valid() && Weekday(thursday) == 5
    ensures saturday.Valid() && Weekday(saturday) == 7
  {
    NewYear(sunday, 490);
    NewYear(thursday, 477);
    NewYear(saturday, 484);
  }

  lemma {:induction false} WeekdayBy(d: Day, months: nat, n: int)
    requires d.Valid() && d.month <= 2 && months == (if d.month == 1 then 0 else 31)
    requires n == 365 * (d.year - 1) + (d.year - 1) / 4 - (d.year - 1) / 100 + (d.year - 1) / 400 + months + d.day
    ensures Weekday(d) == n % 7 + 1
  {
    assert DayNumber(d) == DaysBeforeYear(d.year) + months + d.day;
  }

  // ---------- The grid ----------

  function NumberOfSections(minimum: Moment, maximum: Moment): nat
    requires minimum.day.Valid() && maximum.day.Valid() && NotAfter(minimum, maximum)
  {
    MonthsBetween(minimum, maximum) + 1
  }

  function FirstDateForSection(minimum: Moment, section: nat): (d: Day)
    ensures d.Valid() && d.day == 1
  {
    FirstOfMonth(minimum.day.MonthIndex() + section)
  }

  function BlankItems(minimum: Moment, section: nat): (n: nat)
    ensures n < 7
  {
    Weekday(FirstDateForSection(minimum, section)) - 1
  }

  const WEEKDAY_ROW_ITEMS: nat := 7

  function NumberOfItems(minimum: Moment, section: nat): nat {
    var first := FirstDateForSection(minimum, section);
    WEEKDAY_ROW_ITEMS + BlankItems(minimum, section) + DaysInMonth(first.year, first.month)
  }

  datatype Cell = Header(weekday: nat) | Blank | DateCell(date: Day)

  function CellAt(minimum: Moment, section: nat, item: nat): Cell
    requires item < NumberOfItems(minimum, section)
  {
    var blankItems := BlankItems(minimum, section);
    if item < WEEKDAY_ROW_ITEMS then Header(item + 1)
    else if item < WEEKDAY_ROW_ITEMS + blankItems then Blank
    else DateCell(FirstDateForSection(minimum, section).(day := item - (WEEKDAY_ROW_ITEMS + blankItems) + 1))
  }

  /** A date stands in its own month's section and under the header of its weekday. */
  lemma DateUnderHeader(minimum: Moment, section: nat, item: nat)
    requires item < NumberOfItems(minimum, section) && CellAt(minimum, section, item).DateCell?
    ensures var d := CellAt(minimum, section, item).date;
      && d.Valid() && d.MonthIndex() == minimum.day.MonthIndex() + section
      && item % 7 == Weekday(d) - 1
      && CellAt(minimum, section, item % 7) == Header(Weekday(d))
  {
    var d, first := CellAt(minimum, section, item).date, FirstDateForSection(minimum, section);
    assert DayNumber(d) == DayNumber(first) + d.day - 1;
    assert item == 7 + DayNumber(first) % 7 + (d.day - 1);
    WeekdayShift(DayNumber(first), d.day - 1);
  }

  lemma WeekdayShift(a: int, k: int)
    ensures (7 + a % 7 + k) % 7 == (a + k) % 7
  {
    assert 7 + a % 7 + k == a + k + 7 * (1 - a / 7);
  }

  /** The items of a section: seven headers from Sunday to Saturday, blanks, and the days of the month in order. */
  lemma DaysInOrder(minimum: Moment, section: nat, item: nat)
    ensures var first, blanks := FirstDateForSection(minimum, section), BlankItems(minimum, section);
      && NumberOfItems(minimum, section) == 7 + blanks + DaysInMonth(first.year, first.month)
      && blanks == Weekday(first) - 1
      && (item < 7 ==> CellAt(minimum, section, item) == Header(item + 1))
      && (7 <= item < 7 + blanks ==> CellAt(minimum, section, item) == Blank)
      && (7 + blanks <= item < NumberOfItems(minimum, section) ==>
            CellAt(minimum, section, item) == DateCell(Day(first.year, first.month, item - 6 - blanks)))
  {}

  /** Different cells show different dates. */
  lemma DatesShownOnce(minimum: Moment, s: nat, i: nat, s': nat, i': nat)
    requires i < NumberOfItems(minimum, s) && i' < NumberOfItems(minimum, s')
    requires CellAt(minimum, s, i).DateCell? && CellAt(minimum, s, i) == CellAt(minimum, s', i')
    ensures s == s' && i == i'
  {
    DateUnderHeader(minimum, s, i);
    DateUnderHeader(minimum, s', i');
  }

  /** Every day of a displayed month is shown, and no other. */
  lemma DatesShownExactly(minimum: Moment, sections: nat, d: Day)
    requires d.Valid()
    ensures 0 <= d.MonthIndex() - minimum.day.MonthIndex() < sections
      <==> exists s: nat, i: nat ::
        s < sections && i < NumberOfItems(minimum, s) && CellAt(minimum, s, i) == DateCell(d)
  {
    if 0 <= d.MonthIndex() - minimum.day.MonthIndex() < sections {
      var s := d.MonthIndex() - minimum.day.MonthIndex();
      var first := FirstDateForSection(minimum, s);
      LaterMonthIsLater(first, d);
      var i := WEEKDAY_ROW_ITEMS + BlankItems(minimum, s) + d.day - 1;
      assert i < NumberOfItems(minimum, s) && CellAt(minimum, s, i) == DateCell(d);
    }
    forall s: nat, i: nat | s < sections && i < NumberOfItems(minimum, s) && CellAt(minimum, s, i) == DateCell(d)
      ensures 0 <= d.MonthIndex() - minimum.day.MonthIndex() < sections
    {
      DateUnderHeader(minimum, s, i);
    }
  }

  /** The month of the maximum is displayed if and only if the minimum's day and time, pinned to that month, do not come
      after the maximum's. */
  lemma MaximumMonthDisplayedExactly(minimum: Moment, maximum: Moment)
    requires minimum.day.Valid() && maximum.day.Valid() && NotAfter(minimum, maximum)
    ensures var section := maximum.day.MonthIndex() - minimum.day.MonthIndex();
      var length := DaysInMonth(maximum.day.year, maximum.day.month);
      var pinned := if minimum.day.day <= length then minimum.day.day else length;
      && 0 <= section <= NumberOfSections(minimum, maximum)
      && (section < NumberOfSections(minimum, maximum)
          <==> pinned < maximum.day.day || (pinned == maximum.day.day && minimum.time <= maximum.time))
  {
    var section := maximum.day.MonthIndex() - minimum.day.MonthIndex();
    LaterMonthIsLater(minimum.day, maximum.day);
    LaterMonthIsLater(maximum.day, minimum.day);
    LaterMonthIsLater(PlusMonths(minimum, section).day, maximum.day);
  }

  /** From 15 January to 10 February 2023 only January is displayed; from 31 January to 28 February both months are. */
  lemma FebruaryIsLeftOut(january: Moment, february: Moment, endOfJanuary: Moment, endOfFebruary: Moment)
    requires january == Moment(Day(2023, 1, 15), 0) && february == Moment(Day(2023, 2, 10), 0)
    requires endOfJanuary == Moment(Day(2023, 1, 31), 0) && endOfFebruary == Moment(Day(2023, 2, 28), 0)
    ensures january.day.Valid() && february.day.Valid() && NotAfter(january, february)
    ensures NumberOfSections(january, february) == 1
    ensures endOfJanuary.day.Valid() && endOfFebruary.day.Valid() && NotAfter(endOfJanuary, endOfFebruary)
    ensures NumberOfSections(endOfJanuary, endOfFebruary) == 2
  {
    MaximumMonthDisplayedExactly(january, february);
    MaximumMonthDisplayedExactly(endOfJanuary, endOfFebruary);
  }

  // ---------- Taps ----------

  datatype Selection = Selection(start: Option<Day>, end: Option<Day>)

  function Tapped(s: Selection, cell: Cell, minimum: Day): Selection {
    if !cell.DateCell? || Earlier(cell.date, minimum) then s
    else if s.start.None? then s.(start := Some(cell.date))
    else if s.end.None? then
      if Earlier(s.start.value, cell.date) then s.(end := Some(cell.date)) else s.(start := Some(cell.date))
    else Selection(Some(cell.date), None)
  }

  /** What each kind of tap does. */
  lemma TapsExactly(s: Selection, d: Day, minimum: Day)
    requires d.Valid() && minimum.Valid()
    requires (s.start.Some? ==> s.start.value.Valid()) && (s.end.Some? ==> s.start.Some?)
    ensures Tapped(s, Blank, minimum) == s && forall w: nat :: Tapped(s, Header(w), minimum) == s
    ensures var t, n := Tapped(s, DateCell(d), minimum), DayNumber(d);
      && (n < DayNumber(minimum) ==> t == s)
      && (n >= DayNumber(minimum) && (s.start.None? || s.end.Some?) ==> t == Selection(Some(d), None))
      && (n >= DayNumber(minimum) && s.start.Some? && s.end.None? ==>
            t == if DayNumber(s.start.value) < n then Selection(s.start, Some(d)) else Selection(Some(d), None))
  {
    DayOrder(d, minimum);
    if s.start.Some? {
      DayOrder(s.start.value, d);
    }
  }

  class Picker {
    const minimumDate: Moment
    var selectedStartDate: Option<Day>
    var selectedEndDate: Option<Day>

    constructor (minimumDate: Moment)
      ensures this.minimumDate == minimumDate && Selected() == Selection(None, None)
    {
      this.minimumDate := minimumDate;
      selectedStartDate, selectedEndDate := None, None;
    }

    function Selected(): Selection
      reads this
    {
      Selection(selectedStartDate, selectedEndDate)
    }

    method DidSelectItem(section: nat, item: nat)
      requires item < NumberOfItems(minimumDate, section)
      modifies this
      ensures Selected() == Tapped(old(Selected()), CellAt(minimumDate, section, item), minimumDate.day)
    {
      var cell := CellAt(minimumDate, section, item);
      if !cell.DateCell? {
        return;
      }
      if Earlier(cell.date, minimumDate.day) {
        return;
      }
      if selectedStartDate == None {
        selectedStartDate := Some(cell.date);
      } else if selectedEndDate == None {
        if Earlier(selectedStartDate.value, cell.date) {
          selectedEndDate := Some(cell.date);
        } else {
          selectedStartDate := Some(cell.date);
        }
      } else {
        selectedStartDate := Some(cell.date);
        selectedEndDate := None;
      }
    }
  }

  datatype Tap = Tap(section: nat, item: nat)

  ghost predicate Possible(taps: seq<Tap>, minimum: Moment) {
    forall i :: 0 <= i < |taps| ==> taps[i].item < NumberOfItems(minimum, taps[i].section)
  }

  function AfterTaps(taps: seq<Tap>, minimum: Moment): Selection
    requires Possible(taps, minimum)
  {
    if taps == [] then Selection(None, None)
    else
      var last := taps[|taps| - 1];
      Tapped(AfterTaps(taps[..|taps| - 1], minimum), CellAt(minimum, last.section, last.item), minimum.day)
  }

  /** After every run of taps the selection is nothing, a start, or a start strictly before an end, none of them before
      the minimum. */
  lemma {:induction false} EveryRunOfTaps(taps: seq<Tap>, minimum: Moment)
    requires minimum.day.Valid() && Possible(taps, minimum)
    ensures var s := AfterTaps(taps, minimum);
      && (s.start.Some? ==> s.start.value.Valid() && DayNumber(minimum.day) <= DayNumber(s.start.value))
      && (s.end.Some? ==> s.start.Some? && s.end.value.Valid() && DayNumber(s.start.value) < DayNumber(s.end.value))
  {
    if taps != [] {
      var before, last := taps[..|taps| - 1], taps[|taps| - 1];
      EveryRunOfTaps(before, minimum);
      var s, cell := AfterTaps(before, minimum), CellAt(minimum, last.section, last.item);
      if cell.DateCell? {
        DateUnderHeader(minimum, last.section, last.item);
        DayOrder(cell.date, minimum.day);
        if s.start.Some? {
          DayOrder(s.start.value, cell.date);
        }
      }
    }
  }
}
