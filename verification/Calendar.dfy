/** Day numbers and dates: the closed formulas of the C++ and the JavaScript library against the Gregorian calendar. */
module Calendar {

  datatype Date = Date(y: int, m: int, d: int)

  /** Days from 0000.03.01 to 2000.01.01. */
  const DAYS_SINCE_0AD := 730425

  // ---- the calendar ----

  /** RFC 3339, Appendix C. */
  predicate Leap(y: int) {
    y % 4 == 0 && (y % 100 != 0 || y % 400 == 0)
  }

  function DaysIn(y: int, m: int): int {
    if m == 2 then (if Leap(y) then 29 else 28)
    else if m == 4 || m == 6 || m == 9 || m == 11 then 30
    else 31
  }

  predicate IsDate(t: Date) {
    1 <= t.m <= 12 && 1 <= t.d <= DaysIn(t.y, t.m)
  }

  function NextDate(t: Date): Date {
    if t.d < DaysIn(t.y, t.m) then t.(d := t.d + 1)
    else if t.m < 12 then Date(t.y, t.m + 1, 1)
    else Date(t.y + 1, 1, 1)
  }

  function PreviousDate(t: Date): Date {
    if t.d > 1 then t.(d := t.d - 1)
    else if t.m > 1 then Date(t.y, t.m - 1, DaysIn(t.y, t.m - 1))
    else Date(t.y - 1, 12, 31)
  }

  /** The date `n` days after, or before, the first day of 2000, counted day by day. */
  function Counted(n: int): Date
    decreases if n < 0 then -n else n
  {
    if n == 0 then Date(2000, 1, 1)
    else if n > 0 then NextDate(Counted(n - 1))
    else PreviousDate(Counted(n + 1))
  }

  // ---- the program ----

  /** Days before the year that begins on March 1st of `y`. */
  function YearDays(y: int): int {
    365 * y + y / 4 - y / 100 + y / 400
  }

  /** Days of that year before its month `mi`. */
  function MonthDays(mi: int): int {
    (mi * 306 + 5) / 10
  }

  /** The date of day `ddd` of the year that begins on March 1st of `y`. */
  function OfYear(y: int, ddd: int): Date {
    var mi := (100 * ddd + 52) / 3060;
    Date(y + (mi + 2) / 12, (mi + 2) % 12 + 1, ddd - MonthDays(mi) + 1)
  }

  /** The JavaScript library: the year is estimated, and put right if the estimate is too high; divisions round down. */
  function FloorDate(g: int): Date {
    var y := (10000 * g + 14780) / 3652425;
    var ddd := g - YearDays(y);
    if ddd < 0 then OfYear(y - 1, g - YearDays(y - 1)) else OfYear(y, ddd)
  }

  /** Division as in C++, towards zero. */
  function TDiv(a: int, b: int): int
    requires b > 0
  {
    if a >= 0 then a / b else -(-a / b)
  }

  function TMod(a: int, b: int): int
    requires b > 0
  {
    a - b * TDiv(a, b)
  }

  function TYearDays(y: int): int {
    365 * y + TDiv(y, 4) - TDiv(y, 100) + TDiv(y, 400)
  }

  function TOfYear(y: int, ddd: int): Date {
    var mi := TDiv(100 * ddd + 52, 3060);
    Date(y + TDiv(mi + 2, 12), TMod(mi + 2, 12) + 1, ddd - TDiv(mi * 306 + 5, 10) + 1)
  }

  /** The C++ library. */
  function TruncDate(g: int): Date {
    var y := TDiv(10000 * g + 14780, 3652425);
    var ddd := g - TYearDays(y);
    if ddd < 0 then TOfYear(y - 1, g - TYearDays(y - 1)) else TOfYear(y, ddd)
  }

  /** The day number of a date, counted from 2000.01.01. */
  function GetDays(y: int, m: int, d: int): int {
    var month := TMod(m + 9, 12);
    var year := y - TDiv(month, 10);
    TYearDays(year) + TDiv(month * 306 + 5, 10) + (d - 1) - DAYS_SINCE_0AD
  }

  // ---- properties ----

  /** A year is off the average by so much; the estimate is chosen to fit exactly. */
  lemma YearError(y: int)
    ensures -14775 <= 10000 * YearDays(y) - 3652425 * y <= 7200
  {
    var a, r := y / 400, y % 400;
    var b, q := r / 100, r % 100;
    var c, d := q / 4, q % 4;
    assert y == 400 * a + 100 * b + 4 * c + d;
    assert y / 100 == 4 * a + b;
    assert y / 4 == 100 * a + 25 * b + c;
  }

  /** The estimate is the year or the one after it. */
  lemma YearFound(g: int)
    ensures var y := (10000 * g + 14780) / 3652425;
            YearDays(y - 1) <= g < YearDays(y + 1)
  {
    var y := (10000 * g + 14780) / 3652425;
    assert 3652425 * y <= 10000 * g + 14780 < 3652425 * (y + 1);
    YearError(y - 1);
    YearError(y + 1);
  }

  lemma YearLength(y: int)
    ensures YearDays(y + 1) - YearDays(y) == if Leap(y + 1) then 366 else 365
  {
    DivStep(y, 4);
    DivStep(y, 100);
    DivStep(y, 400);
    assert (y + 1) % 400 == 0 ==> (y + 1) % 100 == 0;
    assert (y + 1) % 100 == 0 ==> (y + 1) % 4 == 0;
  }

  lemma DivStep(y: int, n: int)
    requires n > 1
    ensures (y + 1) / n == y / n + (if (y + 1) % n == 0 then 1 else 0)
  {
    var q, r := y / n, y % n;
    assert y + 1 == q * n + (r + 1);
    if r + 1 == n {
      assert y + 1 == (q + 1) * n;
      DivIs(y + 1, n, q + 1, 0);
    } else {
      DivIs(y + 1, n, q, r + 1);
    }
  }

  lemma DivIs(x: int, n: int, q: int, r: int)
    requires n > 0 && x == q * n + r && 0 <= r < n
    ensures x / n == q && x % n == r
  {
    var d := x / n - q;
    assert x == (x / n) * n + x % n;
    assert d * n == r - x % n;
    assert d >= 1 ==> d * n >= n;
    assert d <= -1 ==> d * n <= -n;
  }

  lemma YearsApart(a: int, b: int)
    requires a <= b
    ensures YearDays(a) + 365 * (b - a) <= YearDays(b)
    decreases b - a
  {
    if a < b {
      YearLength(b - 1);
      YearsApart(a, b - 1);
    }
  }

  /** The estimate and its correction find the one year the day lies in. */
  lemma DateOfDay(g: int, y: int)
    requires YearDays(y) <= g < YearDays(y + 1)
    ensures FloorDate(g) == OfYear(y, g - YearDays(y))
  {
    hide YearDays, OfYear;
    YearFound(g);
    var e := (10000 * g + 14780) / 3652425;
    var x := if g < YearDays(e) then e - 1 else e;
    assert YearDays(x) <= g < YearDays(x + 1);
    if x < y {
      YearsApart(x + 1, y);
    } else if y < x {
      YearsApart(y + 1, x);
    }
  }

  /** The month formula finds the one month the day of the year lies in. */
  lemma MonthOfDay(k: int, ddd: int)
    requires 0 <= k < 12 && MonthDays(k) <= ddd < MonthDays(k + 1)
    ensures (100 * ddd + 52) / 3060 == k
  {
  }

  lemma DayHasMonth(ddd: int) returns (k: int)
    requires 0 <= ddd < 366
    ensures 0 <= k < 12 && MonthDays(k) <= ddd < MonthDays(k + 1) && k == (100 * ddd + 52) / 3060
  {
    k := (100 * ddd + 52) / 3060;
  }

  /** The year a day lies in. */
  lemma YearOf(g: int) returns (y: int)
    ensures YearDays(y) <= g < YearDays(y + 1)
  {
    YearFound(g);
    y := (10000 * g + 14780) / 3652425;
    if g < YearDays(y) {
      y := y - 1;
    }
  }

  /** The formula gives a date for every day. */
  lemma DatesAreValid(g: int)
    ensures IsDate(FloorDate(g))
  {
    var y := YearOf(g);
    DateOfDay(g, y);
    YearLength(y);
    OfYearIsDate(y, g - YearDays(y));
  }

  lemma OfYearIsDate(y: int, ddd: int)
    requires 0 <= ddd < if Leap(y + 1) then 366 else 365
    ensures IsDate(OfYear(y, ddd))
  {
    hide Leap;
    var k := DayHasMonth(ddd);
    Months(k);
  }

  /** Lengths of the months counted from March, the last one left open. */
  lemma Months(k: int)
    requires 0 <= k < 12
    ensures MonthDays(0) == 0 && MonthDays(11) == 337
    ensures k < 11 ==> MonthDays(k + 1) - MonthDays(k) == if k == 1 || k == 3 || k == 6 || k == 8 then 30 else 31
  {
  }

  /** The day after is the date after. */
  lemma DatesFollow(g: int)
    ensures FloorDate(g + 1) == NextDate(FloorDate(g))
  {
    hide OfYear, Leap;
    var y := YearOf(g);
    DateOfDay(g, y);
    YearLength(y);
    var ddd := g - YearDays(y);
    if g + 1 < YearDays(y + 1) {
      DateOfDay(g + 1, y);
      FollowInYear(y, ddd);
    } else {
      YearLength(y + 1);
      DateOfDay(g + 1, y + 1);
      FollowYear(y);
    }
  }

  lemma FollowInYear(y: int, ddd: int)
    requires 0 <= ddd && ddd + 1 < if Leap(y + 1) then 366 else 365
    ensures OfYear(y, ddd + 1) == NextDate(OfYear(y, ddd))
  {
    hide Leap;
    var k := DayHasMonth(ddd);
    var j := DayHasMonth(ddd + 1);
    Months(k);
    if j == k {
    } else {
      assert ddd + 1 == MonthDays(k + 1);
    }
  }

  lemma FollowYear(y: int)
    ensures OfYear(y + 1, 0) == NextDate(OfYear(y, if Leap(y + 1) then 365 else 364))
  {
    hide Leap;
  }

  /** Day 0 of the count is the first day of 2000. */
  lemma CountBegins()
    ensures FloorDate(DAYS_SINCE_0AD) == Date(2000, 1, 1)
  {
    hide FloorDate;
    assert YearDays(1999) == 730119 && YearDays(2000) == 730485;
    DateOfDay(DAYS_SINCE_0AD, 1999);
  }

  lemma ThereAndBack(t: Date)
    requires IsDate(t)
    ensures PreviousDate(NextDate(t)) == t
  {
    hide Leap;
  }

  /** For every day number the closed formula gives the date that counting gives. */
  lemma {:induction false} FormulaCounts(n: int)
    ensures FloorDate(DAYS_SINCE_0AD + n) == Counted(n)
    decreases if n < 0 then -n else n
  {
    hide FloorDate, NextDate, PreviousDate, IsDate;
    if n == 0 {
      CountBegins();
    } else if n > 0 {
      FormulaCounts(n - 1);
      DatesFollow(DAYS_SINCE_0AD + n - 1);
    } else {
      FormulaCounts(n + 1);
      DatesFollow(DAYS_SINCE_0AD + n);
      DatesAreValid(DAYS_SINCE_0AD + n);
      ThereAndBack(FloorDate(DAYS_SINCE_0AD + n));
    }
  }

  /** From March 1st of the year 0 on, which includes every date the program writes with four digits, both
      libraries compute the same. */
  lemma LibrariesAgree(g: int)
    requires g >= 0
    ensures TruncDate(g) == FloorDate(g)
  {
    hide YearDays, TYearDays, OfYear, TOfYear;
    var e := (10000 * g + 14780) / 3652425;
    YearFound(g);
    YearBounds(e, g);
    SameYears(e);
    if g < YearDays(e) {
      YearBounds(e - 1, g);
      SameYears(e - 1);
      SameInYear(e - 1, g - YearDays(e - 1));
    } else {
      SameInYear(e, g - YearDays(e));
    }
  }

  lemma SameInYear(y: int, ddd: int)
    requires ddd >= 0
    ensures TOfYear(y, ddd) == OfYear(y, ddd)
  {
  }

  /** Before the year 0 the truncated sum of years is one too high, leap years excepted. */
  lemma YearsBeforeZero(y: int)
    requires y < 0
    ensures TYearDays(y) == YearDays(y) + if Leap(y) then 0 else 1
  {
    hide TDiv;
    NegDiv(y, 4);
    NegDiv(y, 100);
    NegDiv(y, 400);
    Divisible(y);
  }

  lemma Divisible(y: int)
    ensures y % 400 == 0 ==> y % 100 == 0
    ensures y % 100 == 0 ==> y % 4 == 0
  {
  }

  lemma NegDiv(y: int, n: int)
    requires y < 0 && n > 1
    ensures TDiv(y, n) == y / n + if y % n == 0 then 0 else 1
  {
    var q, r := y / n, y % n;
    assert y == q * n + r;
    if r == 0 {
      DivIs(-y, n, -q, 0);
    } else {
      assert -y == (-q - 1) * n + (n - r);
      DivIs(-y, n, -q - 1, n - r);
    }
  }

  /** The truncated estimate is two years ahead of the year the day lies in, more than the correction takes back. */
  predicate TwoAhead(g: int, y: int) {
    g < -1 && 10000 * g + 14780 > 3652425 * (y + 1)
  }

  /** That can happen on the last days of February only. */
  lemma OnlyLastDays(g: int, y: int)
    requires g < 0 && YearDays(y) <= g < YearDays(y + 1) && TwoAhead(g, y)
    ensures g - YearDays(y) >= 364
  {
    hide YearDays, Leap;
    YearError(y);
    YearError(y + 1);
    YearLength(y);
  }

  /** What the C++ formula makes of a day before March 1st of the year 0. */
  lemma TruncIs(g: int, y: int)
    requires g < 0 && YearDays(y) <= g < YearDays(y + 1)
    ensures y < 0
    ensures TruncDate(g)
         == if TwoAhead(g, y) then TOfYear(y + 1, g - TYearDays(y + 1)) else TOfYear(y, g - TYearDays(y))
  {
    hide YearDays, TOfYear, TYearDays, Leap;
    BeforeZero(g, y);
    var e := TDiv(10000 * g + 14780, 3652425);
    YearError(y);
    YearError(y + 1);
    YearError(y + 2);
    YearsApart(y + 1, y + 2);
    TruncEstimate(g, y);
    assert e == if TwoAhead(g, y) then y + 2 else y + 1;
    YearsFrom(y + 1);
    YearsFrom(y + 2);
  }

  lemma BeforeZero(g: int, y: int)
    requires g < 0 && YearDays(y) <= g
    ensures y < 0
  {
    assert YearDays(0) == 0;
    if y >= 0 {
      YearsApart(0, y);
    }
  }

  lemma YearsFrom(y: int)
    ensures TYearDays(y) >= YearDays(y)
  {
    if y >= 0 {
      SameYears(y);
    } else {
      YearsBeforeZero(y);
    }
  }

  lemma TruncEstimate(g: int, y: int)
    requires g < 0 && YearDays(y) <= g < YearDays(y + 1) && y < 0
    ensures TDiv(10000 * g + 14780, 3652425) == if TwoAhead(g, y) then y + 2 else y + 1
  {
    hide YearDays;
    YearError(y);
    YearError(y + 1);
    var n := 10000 * g + 14780;
    assert 3652425 * y < n < 3652425 * (y + 2);
    if g < -1 {
      var z := if TwoAhead(g, y) then y + 2 else y + 1;
      assert n < 0 && 3652425 * (z - 1) < n <= 3652425 * z;
      DivIs(-n, 3652425, -z, 3652425 * z - n);
    } else {
      YearsBefore();
      if y < -1 {
        YearsApart(y + 1, -1);
      }
      assert y == -1 && n / 3652425 == 0;
    }
  }

  /** Before March 1st of the year 0 they agree on a day exactly if the year, counted from March, it lies in is
      that of a leap year and the estimate is not two years ahead. */
  lemma AgreeIff(g: int, y: int)
    requires g < 0 && YearDays(y) <= g < YearDays(y + 1)
    ensures TruncDate(g) == FloorDate(g) <==> Leap(y) && !TwoAhead(g, y)
  {
    hide YearDays, TOfYear, OfYear, TYearDays, Leap, TruncDate, FloorDate, TwoAhead;
    TruncIs(g, y);
    DateOfDay(g, y);
    DatesAreValid(g);
    YearsBeforeZero(y);
    YearLength(y);
    var ddd := g - YearDays(y);
    if TwoAhead(g, y) {
      TwoAheadIs(g, y);
    } else if Leap(y) {
      SameInYear(y, ddd);
    } else if ddd == 0 {
      DaysBelow(y, -1);
    } else {
      SameInYear(y, ddd - 1);
      FollowInYear(y, ddd - 1);
      NextDiffers(OfYear(y, ddd - 1));
    }
  }

  /** What it makes of such a day is a date at all exactly if the estimate is not two years ahead and the day is not
      March 1st of a common year. */
  lemma TruncIsDateIff(g: int, y: int)
    requires g < 0 && YearDays(y) <= g < YearDays(y + 1)
    ensures IsDate(TruncDate(g)) <==> !TwoAhead(g, y) && (Leap(y) || g > YearDays(y))
  {
    hide YearDays, TOfYear, OfYear, TYearDays, Leap, TruncDate, FloorDate, TwoAhead;
    TruncIs(g, y);
    YearsBeforeZero(y);
    YearLength(y);
    var ddd := g - YearDays(y);
    if TwoAhead(g, y) {
      TwoAheadIs(g, y);
    } else if Leap(y) {
      SameInYear(y, ddd);
      OfYearIsDate(y, ddd);
    } else if ddd == 0 {
      DaysBelow(y, -1);
    } else {
      SameInYear(y, ddd - 1);
      OfYearIsDate(y, ddd - 1);
    }
  }

  lemma TwoAheadIs(g: int, y: int)
    requires g < 0 && YearDays(y) <= g < YearDays(y + 1) && TwoAhead(g, y)
    ensures !IsDate(TOfYear(y + 1, g - TYearDays(y + 1)))
  {
    hide YearDays, TOfYear, TYearDays, Leap;
    OnlyLastDays(g, y);
    BeforeZero(g, y);
    YearLength(y);
    if y + 1 < 0 {
      YearsBeforeZero(y + 1);
    } else {
      SameYears(y + 1);
    }
    DaysBelow(y + 1, g - TYearDays(y + 1));
  }

  lemma DaysBelow(y: int, ddd: int)
    requires -2 <= ddd < 0
    ensures TOfYear(y, ddd) == Date(y, 3, ddd + 1) && !IsDate(TOfYear(y, ddd))
  {
    assert TDiv(100 * ddd + 52, 3060) == 0;
  }

  lemma NextDiffers(t: Date)
    ensures NextDate(t) != t
  {
  }

  /** The last days of two Februaries: the estimate is two years ahead for the first, not for the second. */
  lemma TwoFebruaries()
    ensures YearDays(-4) <= -1097 && YearDays(-3) == -1096 && TwoAhead(-1097, -4)
    ensures FloorDate(-1097) == Date(-3, 2, 28) && TruncDate(-1097) == Date(-3, 3, -1)
    ensures YearDays(-96) <= -34700 && YearDays(-95) == -34699 && !TwoAhead(-34700, -96)
    ensures FloorDate(-34700) == TruncDate(-34700) == Date(-95, 2, 28)
  {
    hide TruncDate, FloorDate, OfYear, TOfYear;
    DateOfDay(-1097, -4);
    TruncIs(-1097, -4);
    YearsBeforeZero(-3);
    DaysBelow(-3, -2);
    DateOfDay(-34700, -96);
    AgreeIff(-34700, -96);
    LastOfFebruary(-4);
    LastOfFebruary(-96);
  }

  lemma LastOfFebruary(y: int)
    ensures OfYear(y, 364) == Date(y + 1, 2, 28)
  {
  }

  /** They agree from a day on exactly if that day is not before March 1st of the year 0. */
  lemma AgreeFromIff(g: int)
    ensures (forall h | h >= g :: TruncDate(h) == FloorDate(h)) <==> g >= 0
  {
    hide TruncDate, FloorDate;
    if g >= 0 {
      forall h | h >= g
        ensures TruncDate(h) == FloorDate(h)
      {
        LibrariesAgree(h);
      }
    } else {
      DayBefore();
      assert -1 >= g && TruncDate(-1) != FloorDate(-1);
    }
  }

  lemma DayBefore()
    ensures FloorDate(-1) == Date(0, 2, 29) && TruncDate(-1) == Date(0, 2, 28)
  {
    hide FloorDate, TruncDate, OfYear, TOfYear, YearDays;
    YearsBefore();
    DateOfDay(-1, -1);
    EndOfFebruary();
    TruncBefore();
  }

  lemma EndOfFebruary()
    ensures OfYear(-1, 365) == Date(0, 2, 29) && TOfYear(-1, 364) == Date(0, 2, 28)
  {
    assert TDiv(36452, 3060) == 11 && TDiv(13, 12) == 1 && TDiv(3371, 10) == 337;
    assert TMod(13, 12) == 1;
  }

  lemma TruncBefore()
    ensures TruncDate(-1) == TOfYear(-1, 364)
  {
    hide TOfYear, TYearDays;
    YearsBefore();
    assert TDiv(4780, 3652425) == 0;
  }

  lemma YearsBefore()
    ensures TYearDays(-1) == -365 && TYearDays(0) == 0 && YearDays(-1) == -366 && YearDays(0) == 0
  {
  }

  /** `GetDays` gives back the day number of every date of those days. */
  lemma DaysOfDate(g: int)
    requires g >= 0
    ensures var t := TruncDate(g); GetDays(t.y, t.m, t.d) == g - DAYS_SINCE_0AD
  {
    hide TruncDate, FloorDate, GetDays, OfYear, Leap, YearDays;
    LibrariesAgree(g);
    var y := YearOf(g);
    YearBounds(y, g);
    DateOfDay(g, y);
    YearLength(y);
    DaysInYear(y, g - YearDays(y));
  }

  lemma YearBounds(y: int, g: int)
    ensures g >= 0 && g < YearDays(y + 1) ==> y >= 0
    ensures y >= 0 ==> YearDays(y) >= 0
  {
    assert YearDays(0) == 0;
    if y < 0 {
      YearsApart(y + 1, 0);
    } else {
      YearsApart(0, y);
    }
  }

  lemma DaysInYear(y: int, ddd: int)
    requires y >= 0 && 0 <= ddd < 366
    ensures var t := OfYear(y, ddd); GetDays(t.y, t.m, t.d) == YearDays(y) + ddd - DAYS_SINCE_0AD
  {
    hide YearDays, TYearDays, MonthDays;
    var k := DayHasMonth(ddd);
    MonthCode(k);
    SameYears(y);
  }

  lemma SameYears(y: int)
    requires y >= 0
    ensures TYearDays(y) == YearDays(y)
  {
  }

  /** Months are numbered from March within the program, from January in dates. */
  lemma MonthCode(k: int)
    requires 0 <= k < 12
    ensures TMod((k + 2) % 12 + 1 + 9, 12) == k && TDiv(k, 10) == (k + 2) / 12
    ensures TDiv(k * 306 + 5, 10) == MonthDays(k)
  {
  }

  /** Every valid date has a day number, and it is the date of that day. */
  lemma DateOfDays(t: Date)
    requires IsDate(t) && (t.y > 0 || (t.y == 0 && t.m >= 3))
    ensures var g := GetDays(t.y, t.m, t.d) + DAYS_SINCE_0AD; g >= 0 && TruncDate(g) == t
  {
    hide TruncDate, FloorDate, GetDays, OfYear, Leap, YearDays;
    var k := (t.m + 9) % 12;
    var y := if t.m <= 2 then t.y - 1 else t.y;
    var ddd := DayInYear(t, y, k);
    YearLength(y);
    YearBounds(y, 0);
    DaysInYear(y, ddd);
    DateOfDay(YearDays(y) + ddd, y);
    LibrariesAgree(YearDays(y) + ddd);
  }

  lemma DayInYear(t: Date, y: int, k: int) returns (ddd: int)
    requires IsDate(t) && k == (t.m + 9) % 12 && y == if t.m <= 2 then t.y - 1 else t.y
    ensures 0 <= ddd < (if Leap(y + 1) then 366 else 365) && OfYear(y, ddd) == t
  {
    hide Leap;
    Months(k);
    ddd := MonthDays(k) + t.d - 1;
    assert k == if t.m <= 2 then t.m + 9 else t.m - 3;
    MonthOfDay(k, ddd);
  }

  // ---- timestamps ----

  const NANOS_IN_SECOND := 1_000_000_000
  const NANOS_IN_MINUTE := 60 * NANOS_IN_SECOND
  const NANOS_IN_HOUR := 60 * NANOS_IN_MINUTE
  const NANOS_IN_DAY := 24 * NANOS_IN_HOUR

  datatype Time = Time(h: int, u: int, v: int, n: int)

  predicate IsTime(t: Time) {
    0 <= t.h < 24 && 0 <= t.u < 60 && 0 <= t.v < 60 && 0 <= t.n < NANOS_IN_SECOND
  }

  function DatePart(nanos: int): Date {
    TruncDate(DAYS_SINCE_0AD + TDiv(nanos, NANOS_IN_DAY))
  }

  function TimePart(nanos: int): Time {
    var r := TMod(nanos, NANOS_IN_DAY);
    Time(TDiv(r, NANOS_IN_HOUR), TDiv(TMod(r, NANOS_IN_HOUR), NANOS_IN_MINUTE),
         TDiv(TMod(r, NANOS_IN_MINUTE), NANOS_IN_SECOND), TMod(r, NANOS_IN_SECOND))
  }

  function GetUTC(t: Date, c: Time): int {
    c.n + c.v * NANOS_IN_SECOND + c.u * NANOS_IN_MINUTE + c.h * NANOS_IN_HOUR + GetDays(t.y, t.m, t.d) * NANOS_IN_DAY
  }

  /** The date part is the date of the day the timestamp lies in exactly if the timestamp is not before 2000, or falls
      on a midnight. */
  lemma DateIsRightIff(nanos: int)
    requires DAYS_SINCE_0AD + nanos / NANOS_IN_DAY >= 0
    ensures DatePart(nanos) == FloorDate(DAYS_SINCE_0AD + nanos / NANOS_IN_DAY)
       <==> nanos >= 0 || nanos % NANOS_IN_DAY == 0
  {
    hide TruncDate, FloorDate, NextDate, TDiv;
    var day := nanos / NANOS_IN_DAY;
    LibrariesAgree(DAYS_SINCE_0AD + day);
    if nanos < 0 {
      NegDiv(nanos, NANOS_IN_DAY);
      LibrariesAgree(DAYS_SINCE_0AD + day + 1);
      DatesFollow(DAYS_SINCE_0AD + day);
      NextDiffers(FloorDate(DAYS_SINCE_0AD + day));
    } else {
      assert TDiv(nanos, NANOS_IN_DAY) == day by {
        Quotient(nanos, NANOS_IN_DAY);
      }
    }
  }

  lemma Quotient(n: int, b: int)
    requires n >= 0 && b > 0
    ensures TDiv(n, b) == n / b
  {
  }

  /** What is left of a timestamp after whole days, towards zero, written in hours, minutes, seconds and nanoseconds. */
  lemma TimePartIs(nanos: int)
    ensures var t := TimePart(nanos);
            ((t.h * 60 + t.u) * 60 + t.v) * 1_000_000_000 + t.n
            == if nanos >= 0 then nanos % 86_400_000_000_000 else -(-nanos % 86_400_000_000_000)
    ensures var t := TimePart(nanos);
            -60 < t.u < 60 && -60 < t.v < 60 && -1_000_000_000 < t.n < 1_000_000_000
  {
    hide TDiv;
    var r := TMod(nanos, NANOS_IN_DAY);
    TModIs(nanos, NANOS_IN_DAY);
    TimeSums(r);
    PartsSmall(r);
  }

  lemma PartsSmall(r: int)
    ensures -60 < TDiv(TMod(r, NANOS_IN_HOUR), NANOS_IN_MINUTE) < 60
    ensures -60 < TDiv(TMod(r, NANOS_IN_MINUTE), NANOS_IN_SECOND) < 60
    ensures -NANOS_IN_SECOND < TMod(r, NANOS_IN_SECOND) < NANOS_IN_SECOND
  {
    TModIs(r, NANOS_IN_HOUR);
    TModIs(r, NANOS_IN_MINUTE);
    TModIs(r, NANOS_IN_SECOND);
  }

  /** A date and a time as the nanoseconds from the first day of 2000 on. */
  lemma GetUTCIs(t: Date, c: Time)
    ensures GetUTC(t, c)
         == GetDays(t.y, t.m, t.d) * 86_400_000_000_000 + ((c.h * 60 + c.u) * 60 + c.v) * 1_000_000_000 + c.n
  {
    hide GetDays;
  }

  /** From 2000 on there is no other way to write it. */
  lemma TimePartUnique(nanos: int, t: Time)
    requires nanos >= 0 && IsTime(t)
    requires nanos % 86_400_000_000_000 == ((t.h * 60 + t.u) * 60 + t.v) * 1_000_000_000 + t.n
    ensures TimePart(nanos) == t
  {
    hide TimePart;
    TimePartIs(nanos);
    TimeIsValidIff(nanos);
    OneWay(TimePart(nanos), t);
  }

  lemma OneWay(a: Time, b: Time)
    requires IsTime(a) && IsTime(b)
    requires ((a.h * 60 + a.u) * 60 + a.v) * 1_000_000_000 + a.n == ((b.h * 60 + b.u) * 60 + b.v) * 1_000_000_000 + b.n
    ensures a == b
  {
    var m, n := a.h * 60 + a.u, b.h * 60 + b.u;
    assert m * 60 + a.v == n * 60 + b.v;
    assert m == n;
  }

  /** One minute past the first midnight of 2000; and a timestamp of the repository's tests. */
  lemma KnownTimes()
    ensures TimePart(60_000_000_000) == Time(0, 1, 0, 0) && DatePart(60_000_000_000) == Date(2000, 1, 1)
    ensures GetUTC(Date(2000, 1, 1), Time(0, 1, 0, 0)) == 60_000_000_000
    ensures DatePart(744_392_971_244_854_000) == Date(2023, 8, 3)
    ensures TimePart(744_392_971_244_854_000) == Time(15, 49, 31, 244_854_000)
    ensures GetUTC(Date(2023, 8, 3), Time(15, 49, 31, 244_854_000)) == 744_392_971_244_854_000
  {
    hide TruncDate, GetDays, TimePart, TDiv;
    Quotient(60_000_000_000, NANOS_IN_DAY);
    Quotient(744_392_971_244_854_000, NANOS_IN_DAY);
    TimePartUnique(60_000_000_000, Time(0, 1, 0, 0));
    TimePartUnique(744_392_971_244_854_000, Time(15, 49, 31, 244_854_000));
    KnownDates();
  }

  lemma KnownDates()
    ensures TruncDate(DAYS_SINCE_0AD) == Date(2000, 1, 1) && TruncDate(DAYS_SINCE_0AD + 8615) == Date(2023, 8, 3)
    ensures GetDays(2000, 1, 1) == 0 && GetDays(2023, 8, 3) == 8615
  {
    hide TruncDate, FloorDate, GetDays;
    CountBegins();
    LibrariesAgree(DAYS_SINCE_0AD);
    DaysOfDate(DAYS_SINCE_0AD);
    assert YearDays(2023) == 738885 && YearDays(2024) == 739251;
    DateOfDay(DAYS_SINCE_0AD + 8615, 2023);
    LibrariesAgree(DAYS_SINCE_0AD + 8615);
    DaysOfDate(DAYS_SINCE_0AD + 8615);
  }

  /** The parts a timestamp is written with make up that timestamp again, before 2000 as well. */
  lemma PartsMakeTimestamp(nanos: int)
    requires DAYS_SINCE_0AD + TDiv(nanos, NANOS_IN_DAY) >= 0
    ensures GetUTC(DatePart(nanos), TimePart(nanos)) == nanos
  {
    hide TruncDate, GetDays, TDiv;
    var day := TDiv(nanos, NANOS_IN_DAY);
    DaysOfDate(DAYS_SINCE_0AD + day);
    var r := TMod(nanos, NANOS_IN_DAY);
    TimeSums(r);
  }

  lemma TimeSums(r: int)
    ensures var h, u, v := TDiv(r, NANOS_IN_HOUR), TDiv(TMod(r, NANOS_IN_HOUR), NANOS_IN_MINUTE),
                           TDiv(TMod(r, NANOS_IN_MINUTE), NANOS_IN_SECOND);
            TMod(r, NANOS_IN_SECOND) + v * NANOS_IN_SECOND + u * NANOS_IN_MINUTE + h * NANOS_IN_HOUR == r
  {
    hide TDiv;
    TModMod(r, NANOS_IN_MINUTE, 60);
    TModMod(r, NANOS_IN_SECOND, 60);
  }

  lemma TModMod(r: int, a: int, k: int)
    requires a > 0 && k > 0 && a * k > 0
    ensures TMod(TMod(r, a * k), a) == TMod(r, a)
  {
    var x := if r >= 0 then r else -r;
    ModMod(x, a, k);
    TModIs(r, a);
    TModIs(r, a * k);
    TModIs(TMod(r, a * k), a);
  }

  lemma TModIs(r: int, b: int)
    requires b > 0
    ensures TMod(r, b) == if r >= 0 then r % b else -(-r % b)
  {
    assert r >= 0 ==> r == b * (r / b) + r % b;
    assert r < 0 ==> -r == b * (-r / b) + -r % b;
  }

  lemma ModMod(x: int, a: int, k: int)
    requires x >= 0 && a > 0 && k > 0 && a * k > 0
    ensures (x % (a * k)) % a == x % a
  {
    var q, r := x / (a * k), x % (a * k);
    var p, s := r / a, r % a;
    assert x == q * (a * k) + r && r == p * a + s;
    assert x == (q * k + p) * a + s by {
      assert q * (a * k) == (q * k) * a;
    }
    DivIs(x, a, q * k + p, s);
  }

  /** They are a time of day exactly if the timestamp is not before 2000, or falls on a midnight. */
  lemma TimeIsValidIff(nanos: int)
    ensures IsTime(TimePart(nanos)) <==> nanos >= 0 || nanos % NANOS_IN_DAY == 0
  {
    hide TDiv;
    var r := TMod(nanos, NANOS_IN_DAY);
    TModIs(nanos, NANOS_IN_DAY);
    TimeSums(r);
    if r >= 0 {
      TimeInRange(r);
    }
    Multiples(nanos, NANOS_IN_DAY);
  }

  lemma Multiples(n: int, b: int)
    requires b > 0
    ensures n % b == 0 <==> -n % b == 0
  {
    var q, p := n / b, -n / b;
    assert n == q * b + n % b && -n == p * b + -n % b;
    if n % b == 0 {
      DivIs(-n, b, -q, 0);
    }
    if -n % b == 0 {
      DivIs(n, b, -p, 0);
    }
  }

  lemma TimeInRange(r: int)
    requires 0 <= r < NANOS_IN_DAY
    ensures 0 <= TDiv(r, NANOS_IN_HOUR) < 24
    ensures 0 <= TDiv(TMod(r, NANOS_IN_HOUR), NANOS_IN_MINUTE) < 60
    ensures 0 <= TDiv(TMod(r, NANOS_IN_MINUTE), NANOS_IN_SECOND) < 60
    ensures 0 <= TMod(r, NANOS_IN_SECOND) < NANOS_IN_SECOND
  {
  }
}
