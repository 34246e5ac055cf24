/** Day numbers and civil dates: the two closed formulas, and the calendar they abbreviate. */
module Calendar {

  /** Division that truncates toward zero. */
  function Quot(a: int, b: int): int
    requires b > 0
  {
    if a >= 0 then a / b else -((-a) / b)
  }

  /** Days before year `yoe` of a 400-year era, years starting in March. */
  function YearDays(yoe: int): int {
    yoe * 365 + Quot(yoe, 4) - Quot(yoe, 100)
  }

  /** Days before month `mp` of a year starting in March. */
  function MonthDays(mp: int): int {
    Quot(153 * mp + 2, 5)
  }

  /** The day number of a date, 1970-01-01 being day 0. */
  function DaysFromCivil(year: int, month: int, day: int): int {
    var (y, m) := if month <= 2 then (year - 1, month + 12) else (year, month);
    var era := Quot(if y >= 0 then y else y - 399, 400);
    var doe := YearDays(y - era * 400) + (MonthDays(m - 3) + day - 1);
    era * 146_097 + doe - 719_468
  }

  datatype Date = Date(year: int, month: int, day: int)

  /** The year of an era that day `doe` of it falls in. */
  function EraYear(doe: int): int {
    Quot(doe - Quot(doe, 1460) + Quot(doe, 36_524) - Quot(doe, 146_096), 365)
  }

  function DateIn(era: int, yoe: int, doy: int): Date {
    var mp := Quot(5 * doy + 2, 153);
    var day := doy - MonthDays(mp) + 1;
    var month := if mp < 10 then mp + 3 else mp - 9;
    Date(if month <= 2 then yoe + era * 400 + 1 else yoe + era * 400, month, day)
  }

  /** The date of a day number. */
  function CivilFromDays(days: int): Date {
    var z := days + 719_468;
    var doe := z % 146_097;
    var yoe := EraYear(doe);
    DateIn(z / 146_097, yoe, doe - YearDays(yoe))
  }

  // ----- the calendar -----

  predicate IsLeap(y: int) {
    y % 4 == 0 && (y % 100 != 0 || y % 400 == 0)
  }

  function DaysInYear(y: int): int {
    if IsLeap(y) then 366 else 365
  }

  function DaysInMonth(y: int, m: int): int {
    if m == 2 then (if IsLeap(y) then 29 else 28)
    else if m == 4 || m == 6 || m == 9 || m == 11 then 30
    else 31
  }

  /** Days from 1970-01-01 to the first of January of `y`, counted year by year. */
  function YearStart(y: int): int
    decreases if y < 1970 then 1970 - y else y - 1970
  {
    if y == 1970 then 0
    else if y > 1970 then YearStart(y - 1) + DaysInYear(y - 1)
    else YearStart(y + 1) - DaysInYear(y)
  }

  /** Days from the first of January to the first of month `m`, counted month by month. */
  function MonthStart(y: int, m: int): int
    requires 1 <= m
  {
    if m == 1 then 0 else MonthStart(y, m - 1) + DaysInMonth(y, m - 1)
  }

  function GregorianDays(d: Date): int
    requires 1 <= d.month
  {
    YearStart(d.year) + MonthStart(d.year, d.month) + d.day - 1
  }

  predicate IsDate(d: Date) {
    1 <= d.month <= 12 && 1 <= d.day <= DaysInMonth(d.year, d.month)
  }

  // ----- the day formula counts calendar days -----

  function Leaps(y: int): int {
    y / 4 - y / 100 + y / 400
  }

  lemma Quotient100(q: int, r: int)
    requires 0 <= r < 100
    ensures (100 * q + r) / 100 == q
  {
  }

  lemma Quotient400(q: int, r: int)
    requires 0 <= r < 400
    ensures (400 * q + r) / 400 == q
  {
  }

  lemma Carry4(y: int)
    ensures y / 4 - (y - 1) / 4 == if y % 4 == 0 then 1 else 0
  {
  }

  lemma Carry100(y: int)
    ensures y / 100 - (y - 1) / 100 == if y % 100 == 0 then 1 else 0
    ensures y % 100 == 0 ==> y % 4 == 0
  {
    var q, r := y / 100, y % 100;
    if r == 0 {
      Quotient100(q - 1, 99);
      Multiple4(25 * q);
      assert y == 4 * (25 * q) && y - 1 == 100 * (q - 1) + 99;
    } else {
      Quotient100(q, r - 1);
      assert y - 1 == 100 * q + (r - 1);
    }
  }

  lemma Carry400(y: int)
    ensures y / 400 - (y - 1) / 400 == if y % 400 == 0 then 1 else 0
    ensures y % 400 == 0 ==> y % 100 == 0
  {
    var q, r := y / 400, y % 400;
    if r == 0 {
      Quotient400(q - 1, 399);
      Rest100(4 * q, 0);
      assert y == 100 * (4 * q) && y - 1 == 400 * (q - 1) + 399;
    } else {
      Quotient400(q, r - 1);
      assert y - 1 == 400 * q + (r - 1);
    }
  }

  lemma LeapsStep(y: int)
    ensures Leaps(y) - Leaps(y - 1) == if IsLeap(y) then 1 else 0
  {
    Carry4(y);
    Carry100(y);
    Carry400(y);
  }

  lemma {:induction false} YearStartClosed(y: int)
    ensures YearStart(y) == 365 * (y - 1970) + Leaps(y - 1) - 477
    decreases if y < 1970 then 1970 - y else y - 1970
  {
    if y > 1970 {
      YearStartClosed(y - 1);
      LeapsStep(y - 1);
    } else if y < 1970 {
      YearStartClosed(y + 1);
      LeapsStep(y);
    }
  }

  lemma {:induction false} MonthStartClosed(y: int, m: int)
    requires 1 <= m <= 12
    ensures m <= 2 ==> MonthStart(y, m) == MonthDays(m + 9) - 306
    ensures m > 2 ==> MonthStart(y, m) == MonthDays(m - 3) + if IsLeap(y) then 60 else 59
  {
    if m > 1 { MonthStartClosed(y, m - 1); }
  }

  /** Dividing `400 * era + yoe` by a divisor of 400. */
  lemma EraSplit(era: int, yoe: int)
    requires 0 <= yoe < 400
    ensures (400 * era + yoe) / 4 == 100 * era + yoe / 4
    ensures (400 * era + yoe) / 100 == 4 * era + yoe / 100
    ensures (400 * era + yoe) / 400 == era
  {
  }

  lemma EraRounds(y: int)
    ensures Quot(if y >= 0 then y else y - 399, 400) == y / 400
  {
  }

  /** The part of the day formula that depends on the March-based year alone. */
  lemma EraDays(y: int)
    ensures var era := Quot(if y >= 0 then y else y - 399, 400);
            var yoe := y - era * 400;
            0 <= yoe < 400 && era * 146_097 + YearDays(yoe) == 365 * y + Leaps(y)
  {
    EraRounds(y);
    var era := y / 400;
    EraSplit(era, y - 400 * era);
  }

  /** The formula is the calendar, for every year however negative; a day past the end of its month
      counts on into the next one. */
  lemma DaysAreGregorian(year: int, month: int, day: int)
    requires 1 <= month <= 12
    ensures DaysFromCivil(year, month, day) == GregorianDays(Date(year, month, day))
  {
    YearStartClosed(year);
    MonthStartClosed(year, month);
    LeapsStep(year);
    var y := if month <= 2 then year - 1 else year;
    var m := if month <= 2 then month + 9 else month - 3;
    EraDays(y);
    var days := 365 * y + Leaps(y) + MonthDays(m) + day - 1 - 719_468;
    assert DaysFromCivil(year, month, day) == days;
    assert MonthStart(year, month) == MonthDays(m) + if month <= 2 then -306 else if IsLeap(year) then 60 else 59;
    assert YearStart(year) == 365 * (year - 1970) + Leaps(year - 1) - 477;
  }

  // ----- the date formula inverts it -----

  /** A day of the 400-year era by century, four-year block, year and day, March first. */
  lemma SplitEra(doe: int) returns (c: int, q: int, r: int, s: int)
    requires 0 <= doe < 146_097
    ensures doe == 36_524 * c + 1461 * q + 365 * r + s
    ensures 0 <= c < 4 && 0 <= q < 25 && 0 <= r < 4 && 0 <= s <= 365
    ensures s == 365 ==> r == 3 && (q == 24 ==> c == 3)
  {
    c := if doe < 36_524 then 0 else if doe < 73_048 then 1 else if doe < 109_572 then 2 else 3;
    var n := doe - 36_524 * c;
    q := n / 1461;
    var k := n % 1461;
    r := if k < 365 then 0 else if k < 730 then 1 else if k < 1095 then 2 else 3;
    s := k - 365 * r;
  }

  /** The year formula takes exactly the leap days out. */
  lemma YearOfEra(doe: int, c: int, q: int, r: int, s: int)
    requires doe == 36_524 * c + 1461 * q + 365 * r + s
    requires 0 <= c < 4 && 0 <= q < 25 && 0 <= r < 4 && 0 <= s <= 365
    requires s == 365 ==> r == 3 && (q == 24 ==> c == 3)
    ensures (doe - doe / 1460 + doe / 36_524 - doe / 146_096) / 365 == 100 * c + 4 * q + r
  {
    var e := if 24 * c + q + 365 * r + s >= 1460 then 1 else 0;
    assert doe == 1460 * (25 * c + q + e) + (24 * c + q + 365 * r + s - 1460 * e);
    assert doe / 1460 == 25 * c + q + e;
    Centuries(doe, c, doe - 36_524 * c);
  }

  lemma Centuries(doe: int, c: int, n: int)
    requires doe == 36_524 * c + n && 0 <= c < 4 && 0 <= n <= 36_524 && (n == 36_524 ==> c == 3)
    ensures doe / 36_524 - doe / 146_096 == c
  {
  }

  lemma LeapsOfEra(c: int, q: int, r: int)
    requires 0 <= c < 4 && 0 <= q < 25 && 0 <= r < 4
    ensures (100 * c + 4 * q + r) / 4 == 25 * c + q && (100 * c + 4 * q + r) / 100 == c
  {
  }

  /** A 366th day of a March-based year is the 29th of February of a leap year. */
  lemma LastDayIsLeap(era: int, c: int, q: int)
    requires 0 <= c < 4 && 0 <= q < 25 && (q == 24 ==> c == 3)
    ensures IsLeap(400 * era + 100 * c + 4 * q + 4)
  {
    Multiple4(100 * era + 25 * c + q + 1);
    if q < 24 {
      Rest100(4 * era + c, 4 * q + 4);
    } else {
      Multiple400(era + 1);
    }
  }

  lemma Multiple4(m: int)
    ensures 4 * m % 4 == 0
  {
  }

  lemma Multiple400(m: int)
    ensures 400 * m % 400 == 0
  {
  }

  lemma Rest100(m: int, r: int)
    requires 0 <= r < 100
    ensures (100 * m + r) % 100 == r
  {
  }

  lemma EraYearIsRight(era: int, doe: int)
    requires 0 <= doe < 146_097
    ensures var yoe := EraYear(doe);
            0 <= yoe < 400 && 0 <= doe - YearDays(yoe) <= 365 &&
            (doe - YearDays(yoe) == 365 ==> IsLeap(400 * era + yoe + 1))
  {
    var c, q, r, s := SplitEra(doe);
    YearOfEra(doe, c, q, r, s);
    LeapsOfEra(c, q, r);
    if s == 365 { LastDayIsLeap(era, c, q); }
  }

  /** The month formula inverts the day-of-year formula. */
  lemma MonthOfYear(doy: int, mp: int)
    requires 0 <= doy <= 365 && mp == Quot(5 * doy + 2, 153)
    ensures 0 <= mp <= 11 && MonthDays(mp) <= doy < MonthDays(mp + 1)
  {
  }

  lemma MonthLength(y: int, mp: int)
    requires 0 <= mp < 11
    ensures DaysInMonth(y, if mp < 10 then mp + 3 else mp - 9) == MonthDays(mp + 1) - MonthDays(mp)
  {
    assert mp in {0, 1, 2, 3, 4, 5, 6, 7, 8, 9, 10};
  }

  lemma DateInIsRight(era: int, yoe: int, doy: int)
    requires 0 <= yoe < 400 && 0 <= doy <= 365 && (doy == 365 ==> IsLeap(400 * era + yoe + 1))
    ensures var d := DateIn(era, yoe, doy);
            IsDate(d) && DaysFromCivil(d.year, d.month, d.day) == era * 146_097 + YearDays(yoe) + doy - 719_468
  {
    var d, mp := DateIn(era, yoe, doy), Quot(5 * doy + 2, 153);
    MonthOfYear(doy, mp);
    if mp < 11 { MonthLength(d.year, mp); }
    EraRounds(400 * era + yoe);
    EraSplit(era, yoe);
  }

  /** Every day number prints as a date of the calendar, and as the date with that day number. */
  lemma CivilIsInverse(days: int)
    ensures var d := CivilFromDays(days);
            IsDate(d) && DaysFromCivil(d.year, d.month, d.day) == days
  {
    var z := days + 719_468;
    var era, doe := z / 146_097, z % 146_097;
    EraYearIsRight(era, doe);
    DateInIsRight(era, EraYear(doe), doe - YearDays(EraYear(doe)));
  }

  // ----- day numbers order dates -----

  predicate Earlier(a: Date, b: Date) {
    || a.year < b.year
    || (a.year == b.year && (a.month < b.month || (a.month == b.month && a.day < b.day)))
  }

  lemma YearNext(y: int)
    ensures YearStart(y + 1) == YearStart(y) + DaysInYear(y)
  {
    YearStartClosed(y);
    YearStartClosed(y + 1);
    LeapsStep(y);
  }

  lemma {:induction false} YearsGrow(y: int, n: nat)
    ensures YearStart(y) + DaysInYear(y) <= YearStart(y + 1 + n)
    decreases n
  {
    YearNext(y + n);
    if n > 0 { YearsGrow(y, n - 1); }
  }

  lemma {:induction false} MonthsGrow(y: int, m: int, n: int)
    requires 1 <= m < n
    ensures MonthStart(y, m) + DaysInMonth(y, m) <= MonthStart(y, n)
  {
    if m < n - 1 { MonthsGrow(y, m, n - 1); }
  }

  lemma InYear(d: Date)
    requires IsDate(d)
    ensures 1 <= MonthStart(d.year, d.month) + d.day <= DaysInYear(d.year)
  {
    MonthStartClosed(d.year, d.month);
    if d.month < 12 { MonthsGrow(d.year, d.month, 12); }
    MonthStartClosed(d.year, 12);
  }

  lemma EarlierIsSmaller(a: Date, b: Date)
    requires IsDate(a) && IsDate(b) && Earlier(a, b)
    ensures GregorianDays(a) < GregorianDays(b)
  {
    InYear(a);
    InYear(b);
    if a.year < b.year {
      YearsGrow(a.year, b.year - a.year - 1);
    } else if a.month < b.month {
      MonthsGrow(a.year, a.month, b.month);
    }
  }

  /** The other direction: printing the day number of a date gives the date back. A day past the end
      of its month has a day number too, but it is another date's. */
  lemma DateRoundTrip(d: Date)
    requires 1 <= d.month <= 12
    ensures CivilFromDays(DaysFromCivil(d.year, d.month, d.day)) == d <==> IsDate(d)
  {
    var e := CivilFromDays(DaysFromCivil(d.year, d.month, d.day));
    CivilIsInverse(DaysFromCivil(d.year, d.month, d.day));
    DaysAreGregorian(d.year, d.month, d.day);
    DaysAreGregorian(e.year, e.month, e.day);
    if IsDate(d) && Earlier(d, e) {
      EarlierIsSmaller(d, e);
    } else if IsDate(d) && Earlier(e, d) {
      EarlierIsSmaller(e, d);
    }
  }
}
