/** `timegm` of utils/src/time_utils.c against the calendar itself: counting one second at a time. */
module Calendar {

  /** `struct tm`: years since 1900, months from 0, days of the month from 1. */
  datatype Tm = Tm(year: int, mon: nat, mday: int, hour: int, min: int, sec: int)

  const DAYS_IN_MONTH: seq<int> := [31, 28, 31, 30, 31, 30, 31, 31, 30, 31, 30, 31]

  /** C division rounds toward zero. */
  function TruncDiv(a: int, b: int): int
    requires b > 0
  {
    if a >= 0 then a / b else -((-a) / b)
  }

  lemma TruncDivMeans(a: int, b: int)
    requires a >= 0 && b > 0
    ensures TruncDiv(-a, b) == -TruncDiv(a, b) && b * TruncDiv(a, b) <= a < b * (TruncDiv(a, b) + 1)
  {}

  predicate Leap(y: int) { (y % 4 == 0 && y % 100 != 0) || y % 400 == 0 }

  /** The closed form for the days before January 1st of year `y`. */
  function Jan1(y: int): int {
    (y - 1970) * 365 + TruncDiv(y - 1969, 4) - TruncDiv(y - 1901, 100) + TruncDiv(y - 1601, 400)
  }

  /** Sum of the first `m` table entries. */
  function TableSum(m: nat): int
    requires m <= 12
  {
    if m == 0 then 0 else TableSum(m - 1) + DAYS_IN_MONTH[m - 1]
  }

  function MonthStart(y: int, m: nat): int
    requires m <= 12
  {
    TableSum(m) + if m > 1 && Leap(y) then 1 else 0
  }

  function Days(t: Tm): int
    requires t.mon <= 11
  {
    Jan1(t.year + 1900) + MonthStart(t.year + 1900, t.mon) + (t.mday - 1)
  }

  function Seconds(t: Tm): int
    requires t.mon <= 11
  {
    ((Days(t) * 24 + t.hour) * 60 + t.min) * 60 + t.sec
  }

  /** `timegm` */
  method Timegm(tm: Tm) returns (r: int)
    requires tm.mon <= 11
    ensures r == Seconds(tm)
  {
    var year := tm.year + 1900;
    var month := tm.mon;
    var day := tm.mday - 1;
    var days := (year - 1970) * 365 + TruncDiv(year - 1969, 4) - TruncDiv(year - 1901, 100)
                + TruncDiv(year - 1601, 400);
    var i := 0;
    while i < month
      invariant 0 <= i <= month
      invariant days == Jan1(year) + TableSum(i)
    {
      days := days + DAYS_IN_MONTH[i];
      i := i + 1;
    }
    if month > 1 && ((year % 4 == 0 && year % 100 != 0) || year % 400 == 0) {
      days := days + 1;
    }
    days := days + day;
    return ((days * 24 + tm.hour) * 60 + tm.min) * 60 + tm.sec;
  }

  // ---------------------------------------------------------------------------------------
  // The reference: the Gregorian calendar, one second after another

  /** February has 28 or 29 days; April, June, September and November 30; the others 31. */
  function MonthLength(y: int, m: nat): int
    requires m <= 11
  {
    if m == 1 then (if Leap(y) then 29 else 28) else if m in {3, 5, 8, 10} then 30 else 31
  }

  /** A civil time of 1970 or later. */
  predicate Civil(t: Tm) {
    && t.year >= 70 && t.mon <= 11
    && 1 <= t.mday <= MonthLength(t.year + 1900, t.mon)
    && 0 <= t.hour < 24 && 0 <= t.min < 60 && 0 <= t.sec < 60
  }

  const EPOCH := Tm(70, 0, 1, 0, 0, 0)

  function NextDay(t: Tm): (r: Tm)
    requires t.mon <= 11
    ensures r.mon <= 11
  {
    if t.mday < MonthLength(t.year + 1900, t.mon) then t.(mday := t.mday + 1)
    else if t.mon < 11 then t.(mon := t.mon + 1, mday := 1)
    else t.(year := t.year + 1, mon := 0, mday := 1)
  }

  function NextSecond(t: Tm): Tm
    requires t.mon <= 11
  {
    if t.sec < 59 then t.(sec := t.sec + 1)
    else if t.min < 59 then t.(min := t.min + 1, sec := 0)
    else if t.hour < 23 then t.(hour := t.hour + 1, min := 0, sec := 0)
    else NextDay(t).(hour := 0, min := 0, sec := 0)
  }

  /** The civil time `n` seconds after the epoch. */
  function Counted(n: nat): (t: Tm)
    ensures Civil(t)
  {
    if n == 0 then EPOCH
    else
      NextIsCivil(Counted(n - 1));
      NextSecond(Counted(n - 1))
  }

  lemma NextIsCivil(t: Tm)
    requires Civil(t)
    ensures Civil(NextSecond(t))
  {}

  lemma MonthStep(y: int, m: nat)
    requires m <= 11
    ensures m < 11 ==> MonthStart(y, m + 1) == MonthStart(y, m) + MonthLength(y, m)
    ensures MonthStart(y, 11) + MonthLength(y, 11) == if Leap(y) then 366 else 365
    ensures MonthStart(y, 0) == 0
  {
    assert TableSum(12) == 365 by {
      assert TableSum(4) == 120 && TableSum(8) == 123 + TableSum(4) && TableSum(12) == 122 + TableSum(8);
    }
  }

  lemma YearStep(y: int)
    requires y >= 1970
    ensures Jan1(y + 1) == Jan1(y) + if Leap(y) then 366 else 365
  {
    hide TruncDiv;
    FourthYear(y);
    HundredthYear(y);
    FourHundredthYear(y);
  }

  lemma FourthYear(y: int)
    requires y >= 1970
    ensures TruncDiv(y + 1 - 1969, 4) == TruncDiv(y - 1969, 4) + if y % 4 == 0 then 1 else 0
  {}

  lemma HundredthYear(y: int)
    requires y >= 1970
    ensures TruncDiv(y + 1 - 1901, 100) == TruncDiv(y - 1901, 100) + if y % 100 == 0 then 1 else 0
    ensures y % 100 == 0 ==> y % 4 == 0
  {}

  lemma FourHundredthYear(y: int)
    requires y >= 1970
    ensures TruncDiv(y + 1 - 1601, 400) == TruncDiv(y - 1601, 400) + if y % 400 == 0 then 1 else 0
    ensures y % 400 == 0 ==> y % 100 == 0
  {}

  /** The bound is needed: division toward zero loses the leap day of 1968. */
  lemma LeapDayLost()
    ensures Leap(1968) && Jan1(1969) == Jan1(1968) + 365
  {}

  lemma DayStep(t: Tm)
    requires Civil(t)
    ensures Days(NextDay(t)) == Days(t) + 1
  {
    hide Jan1;
    MonthStep(t.year + 1900, t.mon);
    YearStep(t.year + 1900);
  }

  /** Successive civil seconds map to successive integers. */
  lemma SecondStep(t: Tm)
    requires Civil(t)
    ensures Seconds(NextSecond(t)) == Seconds(t) + 1
  {
    hide Days, NextDay;
    DayStep(t);
    NextIsCivil(t);
    SameDays(t, NextSecond(t));
    SameDays(NextDay(t), NextDay(t).(hour := 0, min := 0, sec := 0));
  }

  lemma EpochIsZero()
    ensures Seconds(EPOCH) == 0
  {}

  /** The closed form agrees with counting, for every instant from 1970 on. */
  lemma {:induction false} AgreesWithCounting(n: nat)
    ensures Seconds(Counted(n)) == n
  {
    hide Seconds, NextSecond;
    if n > 0 {
      AgreesWithCounting(n - 1);
      SecondStep(Counted(n - 1));
    } else {
      EpochIsZero();
    }
  }

  // ---------------------------------------------------------------------------------------
  // Order

  /** Calendar order on dates. */
  predicate DayBefore(a: Tm, b: Tm) {
    a.year < b.year || (a.year == b.year && (a.mon < b.mon || (a.mon == b.mon && a.mday < b.mday)))
  }

  predicate SameDay(a: Tm, b: Tm) { a.year == b.year && a.mon == b.mon && a.mday == b.mday }

  /** Calendar order on instants. */
  predicate Before(a: Tm, b: Tm) {
    DayBefore(a, b)
    || (SameDay(a, b)
        && (a.hour < b.hour || (a.hour == b.hour && (a.min < b.min || (a.min == b.min && a.sec < b.sec)))))
  }

  lemma {:induction false} MonthsInOrder(y: int, a: nat, b: nat)
    requires a < b <= 11
    ensures MonthStart(y, a) + MonthLength(y, a) <= MonthStart(y, b)
    decreases b
  {
    MonthStep(y, b - 1);
    if a < b - 1 {
      MonthsInOrder(y, a, b - 1);
    }
  }

  lemma MonthInYear(y: int, m: nat)
    requires m <= 11
    ensures 0 <= MonthStart(y, m) && MonthStart(y, m) + MonthLength(y, m) <= if Leap(y) then 366 else 365
  {
    MonthStep(y, m);
    if m > 0 { MonthsInOrder(y, 0, m); }
    if m < 11 { MonthsInOrder(y, m, 11); }
  }

  lemma {:induction false} YearsInOrder(a: int, b: int)
    requires 1970 <= a < b
    ensures Jan1(a) + (if Leap(a) then 366 else 365) <= Jan1(b)
    decreases b - a
  {
    hide Jan1;
    YearStep(a);
    if a + 1 < b { YearsInOrder(a + 1, b); }
  }

  lemma DaysInOrder(a: Tm, b: Tm)
    requires Civil(a) && Civil(b) && DayBefore(a, b)
    ensures Days(a) < Days(b)
  {
    hide Jan1, MonthStart;
    var y, z := a.year + 1900, b.year + 1900;
    MonthInYear(y, a.mon);
    MonthInYear(z, b.mon);
    if y < z {
      YearsInOrder(y, z);
    } else if a.mon < b.mon {
      MonthsInOrder(y, a.mon, b.mon);
    }
  }

  /** `timegm` is strictly monotone in calendar order. */
  lemma StrictlyMonotone(a: Tm, b: Tm)
    requires Civil(a) && Civil(b) && Before(a, b)
    ensures Seconds(a) < Seconds(b)
  {
    hide Days;
    if DayBefore(a, b) {
      DaysInOrder(a, b);
    } else {
      assert Days(a) == Days(b) by { SameDays(a, b); }
    }
  }

  lemma SameDays(a: Tm, b: Tm)
    requires a.mon <= 11 && b.mon <= 11
    ensures SameDay(a, b) ==> Days(a) == Days(b)
  {}

  /** Counting reaches every civil time: together with `AgreesWithCounting`, a bijection onto the naturals. */
  lemma Bijective(t: Tm)
    requires Civil(t)
    ensures Seconds(t) >= 0 && Counted(Seconds(t)) == t
  {
    hide Seconds, Counted;
    AgreesWithCounting(0);
    assert Counted(0) == EPOCH by { CountedZero(); }
    if t != EPOCH {
      StrictlyMonotone(EPOCH, t);
    }
    var u := Counted(Seconds(t));
    AgreesWithCounting(Seconds(t));
    if Before(t, u) {
      StrictlyMonotone(t, u);
    } else if Before(u, t) {
      StrictlyMonotone(u, t);
    }
  }

  lemma CountedZero()
    ensures Counted(0) == EPOCH
  {}

  // ---------------------------------------------------------------------------------------
  // Thirty-two bits

  const INT_MAX := 0x7FFF_FFFF

  const LAST := Tm(138, 0, 19, 3, 14, 7)

  /** The values the closing expression goes through, in order. */
  function Intermediates(t: Tm): seq<int>
    requires t.mon <= 11
  {
    var d := Days(t);
    [d, d * 24, d * 24 + t.hour, (d * 24 + t.hour) * 60, (d * 24 + t.hour) * 60 + t.min,
     ((d * 24 + t.hour) * 60 + t.min) * 60, Seconds(t)]
  }

  lemma LastSecond()
    ensures Civil(LAST) && Seconds(LAST) == INT_MAX
  {}

  /** 32-bit `int` arithmetic is exact up to 2038-01-19T03:14:07 and for no later instant. */
  lemma FitsIn32Bits(t: Tm)
    requires Civil(t)
    ensures (forall x <- Intermediates(t) :: 0 <= x <= INT_MAX) <==> !Before(LAST, t)
  {
    hide Days, MonthLength, Counted, Leap;
    assert Seconds(t) in Intermediates(t) by { assert Intermediates(t)[6] == Seconds(t); }
    LastSecond();
    Bijective(t);
    if Before(LAST, t) {
      StrictlyMonotone(LAST, t);
    } else {
      if t != LAST {
        StrictlyMonotone(t, LAST);
      }
      assert Days(t) >= 0;
    }
  }
}
