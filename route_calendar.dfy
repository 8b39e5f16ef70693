/** The month grid of the route calendar: from the list of available
    `YYYY-MM-DD` dates and the selected date, a 6 x 7 grid of day buttons,
    Monday first, of which only the available ones react to a click.
    Dates are read and written as in UTC (time-zone offset zero). */
module RouteCalendar {
  import opened Wrappers
  import opened Gregorian
  import opened IsoDate

  datatype YearMonth = YearMonth(year: int, month: int)

  /** A month whose days can be written as `YYYY-MM-DD`. */
  predicate ValidMonth(ym: YearMonth) {
    0 <= ym.year <= 9999 && 1 <= ym.month <= 12
  }

  /** A day slot as the grid loop pushes it: blank, or a day number (the `label`) and its date text. */
  datatype Slot = Blank | Day(dayNumber: int, iso: string)

  /** A rendered cell: an empty placeholder, or a day button with its flags. */
  datatype Cell = Empty | Button(dayNumber: int, iso: string, isAvailable: bool, isSelected: bool)

  /** What the component renders: the "no dates" notice, or the grid. */
  datatype View = NoData | Grid(weeks: seq<seq<Cell>>)

  /** `selectedDate || availableDates[0] || null`: JavaScript's `||` passes
      over the empty string, and the absent selection is written "". */
  function ReferenceDate(availableDates: seq<string>, selectedDate: string): (r: Option<string>)
    ensures r.None? <==> selectedDate == "" && (availableDates == [] || availableDates[0] == "")
    ensures r.Some? ==> r.value == (if selectedDate != "" then selectedDate else availableDates[0])
  {
    if selectedDate != "" then Some(selectedDate)
    else if availableDates != [] && availableDates[0] != "" then Some(availableDates[0])
    else None
  }

  /** Year and month of `new Date(ref + "T00:00:00")`, read as an ECMAScript
      date-time string whose date part is `YYYY`, `YYYY-MM` or `YYYY-MM-DD`;
      None is the Invalid Date that any other text gives. */
  function ParseReference(ref: string): (r: Option<YearMonth>)
    ensures r.Some? ==> ValidMonth(r.value)
  {
    if |ref| == 4 && AllDigits(ref) then
      Some(YearMonth(FourDigitValue(ref), 1))
    else if |ref| == 7 && AllDigits(ref[..4]) && ref[4] == '-' && AllDigits(ref[5..])
            && 1 <= TwoDigitValue(ref[5..]) <= 12 then
      Some(YearMonth(FourDigitValue(ref[..4]), TwoDigitValue(ref[5..])))
    else
      match ParseFullDate(ref)
      case Some(d) => Some(YearMonth(d.year, d.month))
      case None => None
  }

  /** A full `YYYY-MM-DD` reference date sets the grid to its own year and month. */
  lemma ReferenceOfFullDate(s: string)
    requires ParseFullDate(s).Some?
    ensures ParseReference(s) == Some(YearMonth(ParseFullDate(s).value.year, ParseFullDate(s).value.month))
  {
    FormatParse(s);
  }

  /** `(firstWeekday + 6) % 7`: the number of cells before the 1st when weeks
      start on Monday. */
  function StartOffset(firstWeekday: int): (r: int)
    requires 0 <= firstWeekday <= 6
    ensures 0 <= r <= 6
    ensures r == 0 <==> firstWeekday == 1
    ensures (r + 1) % 7 == firstWeekday
  {
    (firstWeekday + 6) % 7
  }

  function MonthOffset(ym: YearMonth): (r: int)
    requires ValidMonth(ym)
    ensures 0 <= r <= 6
  {
    StartOffset(Weekday(Date(ym.year, ym.month, 1)))
  }

  function MonthLength(ym: YearMonth): (n: int)
    requires ValidMonth(ym)
    ensures 28 <= n <= 31
  {
    DaysInMonth(ym.year, ym.month)
  }

  /** The slot at flat index `i` (row i / 7, column i % 7): day
      `i - startOffset + 1` when that is a day of the month, blank otherwise. */
  function SlotAt(ym: YearMonth, startOffset: int, daysInMonth: int, i: int): Slot
    requires ValidMonth(ym) && daysInMonth <= 99
  {
    var n := i - startOffset + 1;
    if 1 <= n <= daysInMonth then Day(n, FormatDate(Date(ym.year, ym.month, n))) else Blank
  }

  /** The two flags a day button gets: availability is membership in the
      available dates, selection is equality with the selected date. */
  function Decorate(slot: Slot, availableSet: set<string>, selectedDate: string): Cell {
    match slot
    case Blank => Empty
    case Day(n, iso) => Button(n, iso, iso in availableSet, selectedDate == iso)
  }

  /** The date passed to `onSelectDate` when a cell is clicked; None when the
      click does nothing (a blank cell, or a day that is not available). */
  function Click(c: Cell): Option<string> {
    match c
    case Empty => None
    case Button(_, iso, isAvailable, _) => if isAvailable then Some(iso) else None
  }

  /** The cell at flat index `i` of the grid of month `ym`. */
  function CellOf(ym: YearMonth, availableDates: seq<string>, selectedDate: string, i: int): Cell
    requires ValidMonth(ym)
  {
    Decorate(SlotAt(ym, MonthOffset(ym), MonthLength(ym), i), (set x | x in availableDates), selectedDate)
  }

  function BlankWeeks(): seq<seq<Cell>> {
    seq(6, _ => seq(7, _ => Empty))
  }

  /** What the component shows for its inputs. An unreadable reference date is
      an Invalid Date: every day-number comparison with NaN fails, so all 42
      cells are blank. */
  function Calendar(availableDates: seq<string>, selectedDate: string): (v: View)
    ensures v.NoData? <==> ReferenceDate(availableDates, selectedDate).None?
    ensures v.Grid? ==> |v.weeks| == 6 && forall w :: 0 <= w < 6 ==> |v.weeks[w]| == 7
  {
    match ReferenceDate(availableDates, selectedDate)
    case None => NoData
    case Some(ref) =>
      match ParseReference(ref)
      case None => Grid(BlankWeeks())
      case Some(ym) =>
        Grid(seq(6, w => seq(7, d => CellOf(ym, availableDates, selectedDate, 7 * w + d))))
  }

  /** The nested loops that fill six weeks of seven slots while counting
      `currentDayNumber` up from `1 - startOffset`. */
  method BuildWeeks(ym: YearMonth, startOffset: int, daysInMonth: int) returns (weeks: seq<seq<Slot>>)
    requires ValidMonth(ym) && daysInMonth <= 99
    ensures |weeks| == 6
    ensures forall w :: 0 <= w < 6 ==> |weeks[w]| == 7
    ensures forall w, d :: 0 <= w < 6 && 0 <= d < 7 ==> weeks[w][d] == SlotAt(ym, startOffset, daysInMonth, 7 * w + d)
  {
    weeks := [];
    var currentDayNumber := 1 - startOffset;
    for week := 0 to 6
      invariant |weeks| == week
      invariant currentDayNumber == 1 - startOffset + 7 * week
      invariant forall w :: 0 <= w < week ==> |weeks[w]| == 7
      invariant forall w, d :: 0 <= w < week && 0 <= d < 7 ==> weeks[w][d] == SlotAt(ym, startOffset, daysInMonth, 7 * w + d)
    {
      var days := [];
      for d := 0 to 7
        invariant |days| == d
        invariant currentDayNumber == 1 - startOffset + 7 * week + d
        invariant forall k :: 0 <= k < d ==> days[k] == SlotAt(ym, startOffset, daysInMonth, 7 * week + k)
      {
        var slot := Blank;
        if currentDayNumber >= 1 && currentDayNumber <= daysInMonth {
          slot := Day(currentDayNumber, FormatDate(Date(ym.year, ym.month, currentDayNumber)));
        }
        days := days + [slot];
        currentDayNumber := currentDayNumber + 1;
      }
      weeks := weeks + [days];
    }
  }

  /** The component: picks the reference month, computes the Monday-first
      offset of its 1st and its length, fills the grid and flags each day. */
  method RenderCalendar(availableDates: seq<string>, selectedDate: string) returns (view: View)
    ensures view == Calendar(availableDates, selectedDate)
    ensures view.NoData? <==> selectedDate == "" && (availableDates == [] || availableDates[0] == "")
  {
    var availableSet := set x | x in availableDates;
    var ref := ReferenceDate(availableDates, selectedDate);
    if ref.None? {
      return NoData;
    }
    var baseDate := ParseReference(ref.value);
    if baseDate.None? {
      return Grid(BlankWeeks());
    }
    var ym := baseDate.value;
    var firstWeekday := Weekday(Date(ym.year, ym.month, 1));
    var startOffset := StartOffset(firstWeekday);
    var daysInMonth := DaysInMonth(ym.year, ym.month);
    var weeks := BuildWeeks(ym, startOffset, daysInMonth);
    var cells := seq(6, w requires 0 <= w < 6 =>
                   seq(7, d requires 0 <= d < 7 => Decorate(weeks[w][d], availableSet, selectedDate)));
    SameGrid(availableDates, selectedDate, ym, cells);
    view := Grid(cells);
  }

  /** A 6 x 7 grid whose every cell is the cell of the reference month at
      that position is the grid `Calendar` describes. */
  lemma SameGrid(availableDates: seq<string>, selectedDate: string, ym: YearMonth, cells: seq<seq<Cell>>)
    requires ReferenceDate(availableDates, selectedDate).Some?
    requires ParseReference(ReferenceDate(availableDates, selectedDate).value) == Some(ym)
    requires |cells| == 6 && forall w :: 0 <= w < 6 ==> |cells[w]| == 7
    requires forall w, d :: 0 <= w < 6 && 0 <= d < 7 ==> cells[w][d] == CellOf(ym, availableDates, selectedDate, 7 * w + d)
    ensures Calendar(availableDates, selectedDate) == Grid(cells)
  {
    var weeks := Calendar(availableDates, selectedDate).weeks;
    forall w | 0 <= w < 6
      ensures weeks[w] == cells[w]
    {
      forall d | 0 <= d < 7
        ensures weeks[w][d] == cells[w][d]
      {
        GridOfReferenceMonth(availableDates, selectedDate, w, d);
      }
    }
  }

  /** The grid is Monday-first: the cell of day n stands in column 0 when n
      is a Monday, ..., in column 6 when n is a Sunday. */
  lemma DayColumnIsWeekday(ym: YearMonth, i: int)
    requires ValidMonth(ym)
    requires SlotAt(ym, MonthOffset(ym), MonthLength(ym), i).Day?
    ensures i % 7 == (Weekday(Date(ym.year, ym.month, SlotAt(ym, MonthOffset(ym), MonthLength(ym), i).dayNumber)) + 6) % 7
  {
    var n := i - MonthOffset(ym) + 1;
    var first := DayNumber(Date(ym.year, ym.month, 1));
    assert DayNumber(Date(ym.year, ym.month, n)) == first + n - 1;
    ShiftedWeekday(first, n);
  }

  /** Adding whole weeks does not change a remainder modulo 7. */
  lemma AddWeeks(a: int, m: int)
    ensures (a + 7 * m) % 7 == a % 7
  {
    var q, r := a / 7, a % 7;
    assert a + 7 * m == 7 * (q + m) + r;
  }

  /** (first + n) % 7 shifted by six is n plus the Monday-first offset of
      (first + 1) % 7, less one, all modulo 7. */
  lemma ShiftedWeekday(first: int, n: int)
    ensures (n + ((first + 1) % 7 + 6) % 7 - 1) % 7 == ((first + n) % 7 + 6) % 7
  {
    var f := first % 7;
    AddWeeks(f + 1, first / 7);
    assert (first + 1) % 7 == (f + 1) % 7;
    var k := ((first + 1) % 7 + 6) % 7;
    assert k == f;
    AddWeeks(f + n, first / 7);
    assert (first + n) % 7 == (f + n) % 7;
    var g := (f + n) % 7;
    AddWeeks(g + 6, (f + n) / 7);
    assert (g + 6) % 7 == (f + n + 6) % 7;
    AddWeeks(f + n - 1, 1);
  }

  /** Each day of the month appears in exactly one of the 42 cells, the one
      at flat index n + startOffset - 1. */
  lemma EveryDayOnce(ym: YearMonth, n: int)
    requires ValidMonth(ym) && 1 <= n <= MonthLength(ym)
    ensures 0 <= n + MonthOffset(ym) - 1 < 42
    ensures forall i :: 0 <= i < 42 ==>
      (SlotAt(ym, MonthOffset(ym), MonthLength(ym), i).Day? && SlotAt(ym, MonthOffset(ym), MonthLength(ym), i).dayNumber == n
       <==> i == n + MonthOffset(ym) - 1)
  {
  }

  /** Day cells are contiguous and in order: two day cells are as many days
      apart as they are cells apart, and every cell outside the run of days
      is blank. */
  lemma DaysContiguous(ym: YearMonth, i: int, j: int)
    requires ValidMonth(ym) && 0 <= i <= j < 42
    ensures SlotAt(ym, MonthOffset(ym), MonthLength(ym), i).Day? && SlotAt(ym, MonthOffset(ym), MonthLength(ym), j).Day? ==>
      SlotAt(ym, MonthOffset(ym), MonthLength(ym), j).dayNumber - SlotAt(ym, MonthOffset(ym), MonthLength(ym), i).dayNumber == j - i
    ensures SlotAt(ym, MonthOffset(ym), MonthLength(ym), i).Day? && SlotAt(ym, MonthOffset(ym), MonthLength(ym), j).Day? ==>
      forall k :: i <= k <= j ==> SlotAt(ym, MonthOffset(ym), MonthLength(ym), k).Day?
    ensures SlotAt(ym, MonthOffset(ym), MonthLength(ym), i).Day? <==> MonthOffset(ym) <= i < MonthOffset(ym) + MonthLength(ym)
  {
  }

  /** The cell of day n carries the text of day n of the reference month. */
  lemma DayTextIsItsDate(ym: YearMonth, i: int)
    requires ValidMonth(ym)
    requires SlotAt(ym, MonthOffset(ym), MonthLength(ym), i).Day?
    ensures ParseFullDate(SlotAt(ym, MonthOffset(ym), MonthLength(ym), i).iso)
         == Some(Date(ym.year, ym.month, SlotAt(ym, MonthOffset(ym), MonthLength(ym), i).dayNumber))
  {
    SlotTextIsItsDate(ym, MonthOffset(ym), MonthLength(ym), i);
  }

  /** The text of a day slot reads back as that day, whatever the offset. */
  lemma SlotTextIsItsDate(ym: YearMonth, startOffset: int, daysInMonth: int, i: int)
    requires ValidMonth(ym) && daysInMonth == DaysInMonth(ym.year, ym.month)
    requires SlotAt(ym, startOffset, daysInMonth, i).Day?
    ensures ParseFullDate(SlotAt(ym, startOffset, daysInMonth, i).iso)
         == Some(Date(ym.year, ym.month, SlotAt(ym, startOffset, daysInMonth, i).dayNumber))
  {
    ParseFormat(Date(ym.year, ym.month, i - startOffset + 1));
  }

  /** A day button is available exactly when its date is one of the
      available dates, and selected exactly when it is the selected date. */
  lemma FlagsAgreeWithInputs(ym: YearMonth, availableDates: seq<string>, selectedDate: string, i: int)
    requires ValidMonth(ym)
    ensures CellOf(ym, availableDates, selectedDate, i).Button? <==> SlotAt(ym, MonthOffset(ym), MonthLength(ym), i).Day?
    ensures CellOf(ym, availableDates, selectedDate, i).Button? ==>
      (CellOf(ym, availableDates, selectedDate, i).isAvailable <==> CellOf(ym, availableDates, selectedDate, i).iso in availableDates)
      && (CellOf(ym, availableDates, selectedDate, i).isSelected <==> CellOf(ym, availableDates, selectedDate, i).iso == selectedDate)
  {
  }

  /** At most one cell of the grid is selected. */
  lemma AtMostOneSelected(ym: YearMonth, availableDates: seq<string>, selectedDate: string, i: int, j: int)
    requires ValidMonth(ym)
    requires CellOf(ym, availableDates, selectedDate, i).Button? && CellOf(ym, availableDates, selectedDate, i).isSelected
    requires CellOf(ym, availableDates, selectedDate, j).Button? && CellOf(ym, availableDates, selectedDate, j).isSelected
    ensures i == j
  {
    var off, len := MonthOffset(ym), MonthLength(ym);
    FormatDateInjective(Date(ym.year, ym.month, i - off + 1), Date(ym.year, ym.month, j - off + 1));
  }

  /** A cell is selected only when the selected date lies in the reference
      month, and then it is the cell of that day. */
  lemma SelectedOnlyWithinMonth(ym: YearMonth, availableDates: seq<string>, selectedDate: string, i: int)
    requires ValidMonth(ym)
    requires CellOf(ym, availableDates, selectedDate, i).Button? && CellOf(ym, availableDates, selectedDate, i).isSelected
    ensures ParseFullDate(selectedDate) == Some(Date(ym.year, ym.month, CellOf(ym, availableDates, selectedDate, i).dayNumber))
  {
    DayTextIsItsDate(ym, i);
  }

  /** Clicking a cell calls `onSelectDate` exactly when the cell is an
      available day, and then with that day's text, which is an available date. */
  lemma ClickOnlyWhenAvailable(ym: YearMonth, availableDates: seq<string>, selectedDate: string, i: int)
    requires ValidMonth(ym)
    ensures Click(CellOf(ym, availableDates, selectedDate, i)).Some? <==>
      CellOf(ym, availableDates, selectedDate, i).Button? && CellOf(ym, availableDates, selectedDate, i).isAvailable
    ensures Click(CellOf(ym, availableDates, selectedDate, i)).Some? ==>
      Click(CellOf(ym, availableDates, selectedDate, i)).value == CellOf(ym, availableDates, selectedDate, i).iso
      && Click(CellOf(ym, availableDates, selectedDate, i)).value in availableDates
  {
  }

  /** Every available date that falls in the reference month can be picked:
      the cell of its day is available and clicking it passes that date. */
  lemma AvailableDayIsClickable(ym: YearMonth, availableDates: seq<string>, selectedDate: string, x: string)
    requires ValidMonth(ym) && x in availableDates
    requires ParseFullDate(x).Some? && ParseFullDate(x).value.year == ym.year && ParseFullDate(x).value.month == ym.month
    ensures 0 <= ParseFullDate(x).value.day + MonthOffset(ym) - 1 < 42
    ensures Click(CellOf(ym, availableDates, selectedDate, ParseFullDate(x).value.day + MonthOffset(ym) - 1)) == Some(x)
  {
    FormatParse(x);
  }

  /** The grid's cells are those of the reference month: row w, column d
      holds the cell at flat index 7 * w + d. */
  lemma GridOfReferenceMonth(availableDates: seq<string>, selectedDate: string, w: int, d: int)
    requires ReferenceDate(availableDates, selectedDate).Some?
    requires ParseReference(ReferenceDate(availableDates, selectedDate).value).Some?
    requires 0 <= w < 6 && 0 <= d < 7
    ensures Calendar(availableDates, selectedDate).weeks[w][d]
         == CellOf(ParseReference(ReferenceDate(availableDates, selectedDate).value).value, availableDates, selectedDate, 7 * w + d)
  {
    var ym := ParseReference(ReferenceDate(availableDates, selectedDate).value).value;
    var weeks := seq(6, w => seq(7, d => CellOf(ym, availableDates, selectedDate, 7 * w + d)));
    assert Calendar(availableDates, selectedDate) == Grid(weeks);
    assert weeks[w][d] == CellOf(ym, availableDates, selectedDate, 7 * w + d);
  }

  /** 1 March 2024 was a Friday, so March 2024 starts after four blanks. */
  lemma March2024Layout()
    ensures Weekday(Date(2024, 3, 1)) == 5
    ensures MonthOffset(YearMonth(2024, 3)) == 4 && MonthLength(YearMonth(2024, 3)) == 31
  {
  }

  /** March 2024 with 1 and 15 March available and 15 March selected: the
      reference month is March 2024; four leading blanks, then day 1
      available and not selected; day 15 (row 2, column 4) available and
      selected; no other day available. */
  lemma March2024()
    ensures ParseReference(ReferenceDate(["2024-03-01", "2024-03-15"], "2024-03-15").value) == Some(YearMonth(2024, 3))
    ensures forall i :: 0 <= i < 4 ==> CellOf(YearMonth(2024, 3), ["2024-03-01", "2024-03-15"], "2024-03-15", i) == Empty
    ensures CellOf(YearMonth(2024, 3), ["2024-03-01", "2024-03-15"], "2024-03-15", 4) == Button(1, "2024-03-01", true, false)
    ensures CellOf(YearMonth(2024, 3), ["2024-03-01", "2024-03-15"], "2024-03-15", 18) == Button(15, "2024-03-15", true, true)
    ensures forall i :: 0 <= i < 42 && CellOf(YearMonth(2024, 3), ["2024-03-01", "2024-03-15"], "2024-03-15", i).Button?
                        && CellOf(YearMonth(2024, 3), ["2024-03-01", "2024-03-15"], "2024-03-15", i).isAvailable
                        ==> i == 4 || i == 18
  {
    var ym := YearMonth(2024, 3);
    var avail := ["2024-03-01", "2024-03-15"];
    March2024Layout();
    assert FormatDate(Date(2024, 3, 1)) == "2024-03-01";
    assert FormatDate(Date(2024, 3, 15)) == "2024-03-15";
    ParseFormat(Date(2024, 3, 15));
    forall i | 0 <= i < 42 && CellOf(ym, avail, "2024-03-15", i).Button? && CellOf(ym, avail, "2024-03-15", i).isAvailable
      ensures i == 4 || i == 18
    {
      var n := i - 3;
      assert 1 <= n <= 31;
      if CellOf(ym, avail, "2024-03-15", i).iso == "2024-03-01" {
        FormatDateInjective(Date(2024, 3, n), Date(2024, 3, 1));
      } else {
        FormatDateInjective(Date(2024, 3, n), Date(2024, 3, 15));
      }
    }
  }

  /** The year step of JavaScript's `new Date(year, month, day)`
      (MakeFullYear): a year 0..99 is taken as 1900..1999. The component
      builds the 1st of the month, the 1st of the next month and every day
      cell this way from the reference year. */
  function ConstructorYear(year: int): (y: int)
    ensures 0 <= year <= 9999 ==> 0 <= y <= 9999
  {
    if 0 <= year <= 99 then 1900 + year else year
  }

  /** The slot at flat index `i` as the component computes it, with every
      date built through `new Date(year, month, day)`. */
  function SlotAsWritten(ym: YearMonth, i: int): Slot
    requires ValidMonth(ym)
  {
    var built := YearMonth(ConstructorYear(ym.year), ym.month);
    SlotAt(built, MonthOffset(built), MonthLength(built), i)
  }

  /** From year 100 on, the component's grid is the grid of the reference month. */
  lemma AsWrittenAgreesFromYear100(ym: YearMonth, i: int)
    requires ValidMonth(ym) && ym.year >= 100
    ensures SlotAsWritten(ym, i) == SlotAt(ym, MonthOffset(ym), MonthLength(ym), i)
  {
  }

  /** For a reference year 0..99 every day cell the component draws carries
      the text of a date in the year 1900 + year instead. */
  lemma AsWrittenShowsNineteenHundreds(ym: YearMonth, i: int)
    requires ValidMonth(ym) && ym.year <= 99
    requires SlotAsWritten(ym, i).Day?
    ensures ParseFullDate(SlotAsWritten(ym, i).iso)
         == Some(Date(1900 + ym.year, ym.month, SlotAsWritten(ym, i).dayNumber))
  {
    var built := YearMonth(1900 + ym.year, ym.month);
    assert SlotAsWritten(ym, i) == SlotAt(built, MonthOffset(built), MonthLength(built), i);
    SlotTextIsItsDate(built, MonthOffset(built), MonthLength(built), i);
  }

  /** February 0024 began on a Thursday and February 1924 on a Friday; both
      had 29 days. */
  lemma February24Layout()
    ensures MonthOffset(YearMonth(24, 2)) == 3 && MonthLength(YearMonth(24, 2)) == 29
    ensures MonthOffset(YearMonth(1924, 2)) == 4 && MonthLength(YearMonth(1924, 2)) == 29
  {
    assert Weekday(Date(24, 2, 1)) == 4;
    assert Weekday(Date(1924, 2, 1)) == 5;
  }

  /** The reference date 0024-02-10 reads as a day of February 0024. */
  lemma February24Text()
    ensures ParseFullDate("0024-02-10") == Some(Date(24, 2, 10))
  {
    ParseFormat(Date(24, 2, 10));
    assert FormatDate(Date(24, 2, 10)) == "0024-02-10";
  }

  /** For the reference date 0024-02-10 the component lays out February 1924
      instead of February 0024. The 1st of February 0024 was a Thursday, so
      its grid has day 1 in the fourth cell; 1924 started February on a
      Friday, so the component leaves that cell blank and puts a day 1
      labelled "1924-02-01" in the fifth. */
  lemma YearTwentyFourShowsFebruary1924()
    ensures ParseReference("0024-02-10") == Some(YearMonth(24, 2))
    ensures SlotAt(YearMonth(24, 2), MonthOffset(YearMonth(24, 2)), MonthLength(YearMonth(24, 2)), 3)
         == Day(1, "0024-02-01")
    ensures SlotAsWritten(YearMonth(24, 2), 3) == Blank
    ensures SlotAsWritten(YearMonth(24, 2), 4) == Day(1, "1924-02-01")
  {
    February24Text();
    ReferenceOfFullDate("0024-02-10");
    February24Layout();
    assert FormatDate(Date(24, 2, 1)) == "0024-02-01";
    assert FormatDate(Date(1924, 2, 1)) == "1924-02-01";
  }
}
