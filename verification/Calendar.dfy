/** The calendar: the weekday of January 1, the kinds of year, and the grid of a month. */
module Calendar {
  import opened Arithmetic

  predicate Leap(y: int) { y % 4 == 0 && (y > 1752 ==> y % 100 != 0 || y % 400 == 0) }

  /** The true length of a year: Julian to 1752, eleven days short then, Gregorian after. */
  function YearLength(y: int): (n: int)
    ensures n > 0
  {
    if y == 1752 then 355 else if Leap(y) then 366 else 365
  }

  // Days from the first of January of the year 1, a Saturday.
  function DaysBefore(y: nat): nat {
    if y <= 1 then 0 else DaysBefore(y - 1) + YearLength(y - 1)
  }

  // Steps of the quotients in the formula when the year goes up by one.
  lemma QuotientSteps(n: int, c: int)
    requires c > 0
    ensures (n + 1) / c == n / c + if (n + 1) % c == 0 then 1 else 0
    ensures (n + 1) % c == 0 <==> n % c == c - 1
  {
    var q, r := n / c, n % c;
    if r == c - 1 {
      QuotientIs(n + 1, c, q + 1, 0);
    } else {
      QuotientIs(n + 1, c, q, r + 1);
    }
  }

  // The formula for January 1 before it is reduced; every dividend is positive where it is used,
  // so C division and this one agree.
  function Shift(y: int): int {
    4 + y + (y + 3) / 4
    - (if y > 1800 then (y - 1701) / 100 - (y - 1601) / 400 else 0)
    + if y > 1752 then 3 else 0
  }

  function Jan1(y: int): (d: int)
    ensures 0 <= d < 7
  {
    Shift(y) % 7
  }

  lemma Cycle(y: int)
    ensures y % 100 == 0 <==> (y - 1700) % 100 == 0
    ensures y % 400 == 0 <==> (y - 1600) % 400 == 0
    ensures y % 4 == 0 <==> (y + 4) % 4 == 0
    ensures y % 100 == 0 ==> y % 4 == 0
    ensures y % 400 == 0 ==> y % 100 == 0
  {
    ModShift(y, 100, -17);
    ModShift(y, 400, -4);
    ModShift(y, 4, 1);
    if y % 100 == 0 {
      CoarserMultiple(y, 4, 25);
    }
    if y % 400 == 0 {
      CoarserMultiple(y, 100, 4);
    }
  }

  // Remainders by seven differ as the numbers do, up to whole weeks.
  lemma WeekdaysDiffer(a: int, b: int, step: int, k: int)
    requires b - a == step - 7 * k
    ensures (b % 7 - a % 7 - step) % 7 == 0 && (b % 7 + 7 - a % 7) % 7 == step % 7
  {
    DivisionParts(a, 7);
    DivisionParts(b, 7);
    QuotientIs(b % 7 - a % 7 - step, 7, a / 7 - b / 7 - k, 0);
    ModShift(step, 7, 1 + a / 7 - b / 7 - k);
  }

  lemma ShiftAdvances(y: int)
    ensures Shift(y + 1) - Shift(y) == YearLength(y) - if y == 1752 then 350 else 364
  {
    Cycle(y);
    QuotientSteps(y + 3, 4);
    QuotientSteps(y - 1701, 100);
    QuotientSteps(y - 1601, 400);
  }

  /** The weekday of January 1 moves on by the true length of the year, for every year. */
  lemma YearAdvances(y: int)
    ensures (Jan1(y + 1) - Jan1(y) - YearLength(y)) % 7 == 0
    ensures (Jan1(y + 1) + 7 - Jan1(y)) % 7 == YearLength(y) % 7
  {
    hide Shift, YearLength;
    ShiftAdvances(y);
    WeekdaysDiffer(Shift(y), Shift(y + 1), YearLength(y), if y == 1752 then 50 else 52);
  }

  /** So it is the true weekday, counted day by day from a known Saturday. */
  lemma {:induction false} Jan1IsTrue(y: nat)
    requires y >= 1
    ensures Jan1(y) == (6 + DaysBefore(y)) % 7
  {
    hide Shift, YearLength;
    if y == 1 {
      FirstJanuary();
    } else {
      Jan1IsTrue(y - 1);
      YearAdvances(y - 1);
      ModStep(Jan1(y - 1), Jan1(y), YearLength(y - 1), 6 + DaysBefore(y - 1));
    }
  }

  lemma FirstJanuary()
    ensures Jan1(1) == 6 && DaysBefore(1) == 0
  {
  }

  lemma ModStep(a: int, b: int, step: int, n: int)
    requires (b - a - step) % 7 == 0 && a == n % 7 && 0 <= b < 7
    ensures b == (n + step) % 7
  {
    var k := (b - a - step) / 7;
    QuotientIs(n + step, 7, n / 7 - k, b);
  }

  method Jan1Of(yr: int) returns (d: int)
    requires yr >= 1
    ensures d == Jan1(yr) == (6 + DaysBefore(yr)) % 7
  {
    Jan1IsTrue(yr);
    var y := yr;
    d := 4 + y + (y + 3) / 4;
    if y > 1800 {
      d := d - (y - 1701) / 100;
      d := d + (y - 1601) / 400;
    }
    if y > 1752 {
      d := d + 3;
    }
    d := d % 7;
  }

  function Usual(m: int): int
    requires 1 <= m <= 12
  {
    if m == 4 || m == 6 || m == 9 || m == 11 then 30 else if m == 2 then 29 else 31
  }

  // How many days a month has, and the date of its n-th day from zero.
  function Days(m: int, y: int): (n: int)
    requires 1 <= m <= 12
    ensures 19 <= n <= 31
  {
    if m == 9 && y == 1752 then 19 else if m == 2 && !Leap(y) then 28 else Usual(m)
  }

  function Date(m: int, y: int, n: int): int { if m == 9 && y == 1752 && n >= 2 then n + 12 else n + 1 }

  function DaysBeforeMonth(m: int, y: int): int
    requires 1 <= m <= 13
    decreases m
  {
    if m == 1 then 0 else DaysBeforeMonth(m - 1, y) + Days(m - 1, y)
  }

  lemma MonthsMakeYear(y: int)
    ensures DaysBeforeMonth(13, y) == YearLength(y)
  {
    assert DaysBeforeMonth(4, y) == 90 + if Leap(y) then 1 else 0;
    assert DaysBeforeMonth(7, y) == DaysBeforeMonth(4, y) + 91;
    assert DaysBeforeMonth(10, y) == DaysBeforeMonth(7, y) + if y == 1752 then 81 else 92;
    assert DaysBeforeMonth(13, y) == DaysBeforeMonth(10, y) + 92;
  }

  /** The true weekday of the n-th day of a month, Sunday being zero. */
  function Weekday(m: int, y: nat, n: int): (d: int)
    requires 1 <= m <= 12
    ensures 0 <= d < 7
  {
    (6 + DaysBefore(y) + DaysBeforeMonth(m, y) + n) % 7
  }

  // Where a day goes: three characters a column, the month's first week in the first row.
  function Cell(p: nat, w: nat, first: nat, n: nat): nat { p + (first + n) / 7 * w + 3 * ((first + n) % 7) }

  function DigitChar(n: nat): char
    requires n < 10
  {
    ('0' as int + n) as char
  }

  function WithDay(text: seq<char>, at: nat, date: nat): (after: seq<char>)
    requires at + 1 < |text| && date < 100
    ensures |after| == |text|
  {
    (if date > 9 then text[at := DigitChar(date / 10)] else text)[at + 1 := DigitChar(date % 10)]
  }

  predicate Roomy(text: seq<char>, p: nat, w: nat) { w >= 21 && p + 5 * w + 20 <= |text| }

  lemma CellFits(text: seq<char>, p: nat, w: nat, first: nat, n: nat)
    requires Roomy(text, p, w) && first + n < 42
    ensures Cell(p, w, first, n) + 1 < |text|
  {
    MulMonotone((first + n) / 7, 5, w);
  }

  /** The grid with the first n days of the month in it. */
  function Drawn(text: seq<char>, p: nat, w: nat, m: int, y: nat, n: nat): (after: seq<char>)
    requires 1 <= m <= 12 && Roomy(text, p, w) && n <= Days(m, y)
    ensures |after| == |text|
  {
    if n == 0 then text
    else
      CellFits(text, p, w, Weekday(m, y, 0), n - 1);
      WithDay(Drawn(text, p, w, m, y, n - 1), Cell(p, w, Weekday(m, y, 0), n - 1), Date(m, y, n - 1))
  }

  lemma NextCell(p: nat, w: nat, first: nat, n: nat)
    requires w >= 21
    ensures Cell(p, w, first, n) + 3 <= Cell(p, w, first, n + 1)
  {
    var q, r := (first + n) / 7, (first + n) % 7;
    if r == 6 {
      QuotientIs(first + n + 1, 7, q + 1, 0);
      assert (q + 1) * w == q * w + w;
    } else {
      QuotientIs(first + n + 1, 7, q, r + 1);
    }
  }

  lemma {:induction false} CellsApart(p: nat, w: nat, first: nat, k: nat, n: nat)
    requires w >= 21 && k < n
    ensures Cell(p, w, first, k) + 3 <= Cell(p, w, first, n)
    decreases n
  {
    hide Cell;
    NextCell(p, w, first, n - 1);
    if k < n - 1 {
      CellsApart(p, w, first, k, n - 1);
    }
  }

  /** Every existing day of the month stands once in the grid: its own cell reads its date, in the
      column of its true weekday and one of six rows. */
  lemma {:induction false} DayIsDrawn(text: seq<char>, p: nat, w: nat, m: int, y: nat, n: nat, k: nat)
    requires 1 <= m <= 12 && Roomy(text, p, w) && k < n <= Days(m, y)
    ensures var after, at := Drawn(text, p, w, m, y, n), Cell(p, w, Weekday(m, y, 0), k);
      && at + 1 < |text| && 1 <= Date(m, y, k) <= 31
      && after[at + 1] == DigitChar(Date(m, y, k) % 10)
      && after[at] == if Date(m, y, k) > 9 then DigitChar(Date(m, y, k) / 10) else text[at]
    ensures (Weekday(m, y, 0) + k) % 7 == Weekday(m, y, k) && (Weekday(m, y, 0) + k) / 7 < 6
    decreases n
  {
    hide DaysBefore, DaysBeforeMonth, Cell, Drawn;
    var first := Weekday(m, y, 0);
    CellFits(text, p, w, first, k);
    CellFits(text, p, w, first, n - 1);
    DrawnStep(text, p, w, m, y, n);
    SameWeekday(6 + DaysBefore(y) + DaysBeforeMonth(m, y), k);
    if k < n - 1 {
      DayIsDrawn(text, p, w, m, y, n - 1, k);
      CellsApart(p, w, first, k, n - 1);
    } else {
      forall j: nat | j < n - 1
        ensures Cell(p, w, first, j) + 3 <= Cell(p, w, first, n - 1)
      {
        CellsApart(p, w, first, j, n - 1);
      }
      NotYetDrawn(text, p, w, m, y, n - 1, Cell(p, w, first, n - 1));
    }
  }

  lemma DrawnStep(text: seq<char>, p: nat, w: nat, m: int, y: nat, n: nat)
    requires 1 <= m <= 12 && Roomy(text, p, w) && 0 < n <= Days(m, y)
    ensures Cell(p, w, Weekday(m, y, 0), n - 1) + 1 < |text|
    ensures Drawn(text, p, w, m, y, n)
      == WithDay(Drawn(text, p, w, m, y, n - 1), Cell(p, w, Weekday(m, y, 0), n - 1), Date(m, y, n - 1))
  {
    hide DaysBefore, DaysBeforeMonth;
    CellFits(text, p, w, Weekday(m, y, 0), n - 1);
  }

  lemma SameWeekday(n: int, k: int)
    ensures (n % 7 + k) % 7 == (n + k) % 7 && (n + 0) % 7 == n % 7
  {
    QuotientIs(n % 7 + k, 7, (n + k) / 7 - n / 7, (n + k) % 7);
  }

  /** And nothing else is touched: past the cells drawn so far the text is as it was. */
  lemma {:induction false} NotYetDrawn(text: seq<char>, p: nat, w: nat, m: int, y: nat, n: nat, q: nat)
    requires 1 <= m <= 12 && Roomy(text, p, w) && n <= Days(m, y) && q < |text|
    requires forall k :: 0 <= k < n ==> q != Cell(p, w, Weekday(m, y, 0), k) && q != Cell(p, w, Weekday(m, y, 0), k) + 1
    ensures Drawn(text, p, w, m, y, n)[q] == text[q]
  {
    hide DaysBefore, DaysBeforeMonth, Cell;
    if n > 0 {
      DrawnStep(text, p, w, m, y, n);
      NotYetDrawn(text, p, w, m, y, n - 1, q);
    }
  }

  // The table of month lengths, whose entries for February and September each call sets.
  ghost predicate Table(mon: array<int>)
    reads mon
  {
    mon.Length == 13 && forall i :: 1 <= i <= 12 && i != 2 && i != 9 ==> mon[i] == Usual(i)
  }

  /** The switch on how far January 1 moves tells the three kinds of year apart. */
  lemma KindOfYear(y: int)
    ensures var kind := (Jan1(y + 1) + 7 - Jan1(y)) % 7;
      && (kind == 1 <==> y != 1752 && !Leap(y)) && (kind == 2 <==> y != 1752 && Leap(y))
    ensures Leap(1752)
  {
    YearAdvances(y);
    hide Jan1;
  }

  method SetMonths(y: int, mon: array<int>) returns (d: int)
    requires y >= 1 && Table(mon)
    modifies mon
    ensures Table(mon) && d == (6 + DaysBefore(y)) % 7
    ensures forall i :: 1 <= i <= 12 ==> mon[i] == Days(i, y)
  {
    hide Jan1, DaysBefore, Leap;
    d := Jan1Of(y);
    var next := Jan1Of(y + 1);
    KindOfYear(y);
    mon[2] := 29;
    mon[9] := 30;
    var kind := (next + 7 - d) % 7;
    if kind == 1 {
      mon[2] := 28;
    } else if kind != 2 {
      mon[9] := 19;
    }
  }

  /** One month's grid. In September 1752 the loop jumps over the eleven days that were dropped. */
  method Cal(m: int, y: int, text: array<char>, p: nat, w: nat, mon: array<int>)
    requires 1 <= m <= 12 && y >= 1 && Table(mon) && Roomy(text[..], p, w)
    modifies text, mon
    ensures Table(mon) && Roomy(old(text[..]), p, w)
    ensures text[..] == Drawn(old(text[..]), p, w, m, y, Days(m, y))
  {
    hide DaysBefore, DaysBeforeMonth, Drawn, Weekday;
    ghost var was := text[..];
    var d := SetMonths(y, mon);
    var i := 1;
    FirstOfMonths(y);
    while i < m
      invariant 1 <= i <= m && Table(mon) && text[..] == was
      invariant forall j :: 1 <= j <= 12 ==> mon[j] == Days(j, y)
      invariant d % 7 == Weekday(i, y, 0)
    {
      MonthAdvances(i, y, d);
      d := d + mon[i];
      i := i + 1;
    }
    d := d % 7;
    DrawDays(m, y, text, p, w, mon, d);
  }

  lemma FirstOfMonths(y: int)
    requires y >= 1
    ensures Weekday(1, y, 0) == (6 + DaysBefore(y)) % 7
  {
  }

  lemma MonthAdvances(m: int, y: int, d: int)
    requires 1 <= m < 12 && y >= 1 && d % 7 == Weekday(m, y, 0)
    ensures (d + Days(m, y)) % 7 == Weekday(m + 1, y, 0)
  {
    hide DaysBefore, Days;
    var n := 6 + DaysBefore(y) + DaysBeforeMonth(m, y);
    SameWeekday(d, Days(m, y));
    SameWeekday(n, Days(m, y));
    assert DaysBeforeMonth(m + 1, y) == DaysBeforeMonth(m, y) + Days(m, y);
  }

  method DrawDays(m: int, y: int, text: array<char>, start: nat, w: nat, mon: array<int>, first: nat)
    requires 1 <= m <= 12 && y >= 1 && Table(mon) && Roomy(text[..], start, w) && first == Weekday(m, y, 0)
    requires mon[m] == Days(m, y)
    modifies text, mon
    ensures Table(mon) && Roomy(old(text[..]), start, w)
    ensures text[..] == Drawn(old(text[..]), start, w, m, y, Days(m, y))
  {
    hide DaysBefore, DaysBeforeMonth, Drawn, Weekday, WithDay;
    ghost var was := text[..];
    ghost var n := 0;
    var d, p := first, start;
    var s := p + 3 * d;
    CellFits(was, start, w, first, 0);
    NothingDrawn(was, start, w, m, y);
    var i := 1;
    while i <= mon[m]
      invariant 0 <= n <= Days(m, y) && Table(mon) && 1 <= i
      invariant mon[m] == (if m == 9 && y == 1752 && n >= 3 then 30 else Days(m, y))
      invariant i == (if m == 9 && y == 1752 && n >= 3 then n + 12 else n + 1)
      invariant p == start + (first + n) / 7 * w && d == (first + n) % 7 && s == p + 3 * d
      invariant text[..] == Drawn(was, start, w, m, y, n)
      decreases Days(m, y) - n
    {
      if i == 3 && mon[m] == 19 {
        i := i + 11;
        mon[m] := mon[m] + 11;
      }
      CellFits(was, start, w, first, n);
      DrawnStep(was, start, w, m, y, n + 1);
      PutDay(text, s, i);
      s := s + 3;
      i := i + 1;
      d := d + 1;
      RowAdvances(first, n, w);
      if d == 7 {
        d := 0;
        s := p + w;
        p := s;
      }
      n := n + 1;
    }
  }

  lemma RowAdvances(first: nat, n: nat, w: nat)
    ensures var q, r := (first + n) / 7, (first + n) % 7;
      && (first + n + 1) % 7 == (if r == 6 then 0 else r + 1)
      && (first + n + 1) / 7 * w == q * w + if r == 6 then w else 0
  {
    var q, r := (first + n) / 7, (first + n) % 7;
    QuotientSteps(first + n, 7);
    assert (q + 1) * w == q * w + w;
  }

  lemma NothingDrawn(text: seq<char>, p: nat, w: nat, m: int, y: nat)
    requires 1 <= m <= 12 && Roomy(text, p, w)
    ensures Drawn(text, p, w, m, y, 0) == text
  {
  }

  method PutDay(text: array<char>, s: nat, i: nat)
    requires s + 1 < text.Length && i < 100
    modifies text
    ensures text[..] == WithDay(old(text[..]), s, i)
  {
    if i > 9 {
      text[s] := DigitChar(i / 10);
    }
    text[s + 1] := DigitChar(i % 10);
  }

  /** The lengths of the months, the century rule from 1753 on, and September 1752. */
  lemma MonthLengths(y: int)
    ensures Days(1, y) == 31 && Days(3, y) == 31 && Days(4, y) == 30 && Days(5, y) == 31 && Days(6, y) == 30
    ensures Days(7, y) == 31 && Days(8, y) == 31 && Days(10, y) == 31 && Days(11, y) == 30 && Days(12, y) == 31
    ensures Days(2, y) == if y % 400 == 0 || (y % 4 == 0 && (y % 100 != 0 || y < 1753)) then 29 else 28
    ensures Days(9, y) == if y == 1752 then 19 else 30
    ensures forall n :: 0 <= n < Days(9, 1752) ==> Date(9, 1752, n) == if n < 2 then n + 1 else n + 12
    ensures forall m, n :: m != 9 || y != 1752 ==> Date(m, y, n) == n + 1
  {
    CenturyIsLeap(y);
  }

  lemma CenturyIsLeap(y: int)
    ensures y % 400 == 0 ==> y % 4 == 0
  {
  }

  lemma DaysBeforeSummer(y: int)
    ensures DaysBeforeMonth(7, y) == 181 + if Leap(y) then 1 else 0
    ensures DaysBeforeMonth(9, y) == 243 + if Leap(y) then 1 else 0
  {
    assert DaysBeforeMonth(3, y) == 59 + if Leap(y) then 1 else 0;
    assert DaysBeforeMonth(5, y) == DaysBeforeMonth(3, y) + 61;
    assert DaysBeforeMonth(7, y) == DaysBeforeMonth(5, y) + 61;
  }

  lemma WeekdayFromJan1(m: int, y: nat, n: int)
    requires 1 <= m <= 12 && y >= 1
    ensures Weekday(m, y, n) == (Jan1(y) + DaysBeforeMonth(m, y) + n) % 7
  {
    hide DaysBefore, DaysBeforeMonth, Jan1;
    Jan1IsTrue(y);
    var d := 6 + DaysBefore(y);
    ModShift(d % 7 + DaysBeforeMonth(m, y) + n, 7, d / 7);
  }

  lemma KnownJan1()
    ensures Jan1(1752) == 3 && Jan1(1900) == 1 && Jan1(1969) == 3 && Jan1(2000) == 6
  {
  }

  // Days of which the weekday is known: a Monday and a Saturday, the two sides of the change, and a Sunday.
  lemma KnownDays()
    ensures Jan1(1900) == 1 && Jan1(2000) == 6
    ensures Date(9, 1752, 1) == 2 && Weekday(9, 1752, 1) == 3
    ensures Date(9, 1752, 2) == 14 && Weekday(9, 1752, 2) == 4
    ensures Date(7, 1969, 19) == 20 && Weekday(7, 1969, 19) == 0
  {
    hide Weekday, Jan1, DaysBeforeMonth;
    KnownJan1();
    DaysBeforeSummer(1752);
    DaysBeforeSummer(1969);
    WeekdayFromJan1(9, 1752, 1);
    WeekdayFromJan1(9, 1752, 2);
    WeekdayFromJan1(7, 1969, 19);
  }

  /** The cells: three characters on for each weekday, a line on for each week. */
  lemma CellsInNumbers(p: nat, w: nat, first: nat, n: nat)
    requires first < 7
    ensures Cell(p, w, first, 0) == p + 3 * first
    ensures Cell(p, w, first, n + 7) == Cell(p, w, first, n) + w
    ensures (first + n) % 7 < 6 ==> Cell(p, w, first, n + 1) == Cell(p, w, first, n) + 3
    ensures (first + n) % 7 == 6 ==> Cell(p, w, first, n + 1) == Cell(p, w, first, n) + w - 18
  {
    var q, d := (first + n) / 7, (first + n) % 7;
    QuotientIs(first + n + 7, 7, q + 1, d);
    DistributeOver(q, 1, w);
    if d < 6 {
      QuotientIs(first + n + 1, 7, q, d + 1);
    } else {
      QuotientIs(first + n + 1, 7, q + 1, 0);
    }
  }

  lemma DatesAsText()
    ensures WithDay("....", 1, 14) == ".14." && WithDay("....", 1, 5) == "..5."
  {
  }

  /** The buffers that the program draws in: one month in lines of 24, or three side by side in lines of 72. */
  lemma BuffersRoomy(text: seq<char>)
    requires |text| == 432
    ensures Roomy(text, 0, 24) && Roomy(text, 0, 72) && Roomy(text, 23, 72) && Roomy(text, 46, 72)
  {
  }
}
