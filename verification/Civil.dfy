/** Civil dates, day numbers and instants. */
module Civil {

  /** Rust's integer division: toward zero. */
  function TruncDiv(a: int, b: int): int
    requires b > 0
  {
    if a >= 0 then a / b else -((-a) / b)
  }

  datatype Date = Date(y: int, m: int, d: int)

  // ---------- the calendar ----------

  predicate IsLeap(y: int) { y % 4 == 0 && (y % 100 != 0 || y % 400 == 0) }

  function DaysInMonth(y: int, m: int): int {
    if m == 2 then (if IsLeap(y) then 29 else 28)
    else if m in {4, 6, 9, 11} then 30 else 31
  }

  /** A real date of the proleptic Gregorian calendar. */
  predicate IsDate(t: Date) { 1 <= t.m <= 12 && 1 <= t.d <= DaysInMonth(t.y, t.m) }

  function NextDay(t: Date): Date {
    if t.d < DaysInMonth(t.y, t.m) then t.(d := t.d + 1)
    else if t.m < 12 then Date(t.y, t.m + 1, 1)
    else Date(t.y + 1, 1, 1)
  }

  // ---------- the source ----------

  function DaysFromCivil(y: int, m: int, d: int): int {
    var y := if m <= 2 then y - 1 else y;
    var era := TruncDiv(if y >= 0 then y else y - 399, 400);
    var yoe := y - era * 400;
    var doy := TruncDiv(153 * (if m > 2 then m - 3 else m + 9) + 2, 5) + d - 1;
    var doe := yoe * 365 + TruncDiv(yoe, 4) - TruncDiv(yoe, 100) + doy;
    era * 146097 + doe - 719468
  }

  function CivilFromDays(z0: int): Date {
    var z := z0 + 719468;
    var era := TruncDiv(if z >= 0 then z else z - 146096, 146097);
    var doe := z - era * 146097;
    var yoe := TruncDiv(doe - TruncDiv(doe, 1460) + TruncDiv(doe, 36524) - TruncDiv(doe, 146096), 365);
    var y := yoe + era * 400;
    var doy := doe - (365 * yoe + TruncDiv(yoe, 4) - TruncDiv(yoe, 100));
    var mp := TruncDiv(5 * doy + 2, 153);
    var d := doy - TruncDiv(153 * mp + 2, 5) + 1;
    var m := if mp < 10 then mp + 3 else mp - 9;
    Date(if m <= 2 then y + 1 else y, m, d)
  }

  // ---------- eras ----------

  /** The `- 399` and `- 146096` corrections turn truncation into rounding down. */
  lemma TruncIsFloor(x: int, n: int)
    requires n > 0
    ensures TruncDiv(if x >= 0 then x else x - (n - 1), n) == x / n
  {
    if x < 0 {
      var q := -((-x + n - 1) / n);
      var k := (-x + n - 1) / n;
      FloorUnique(x, n, -k);
    }
  }

  lemma FloorUnique(x: int, n: int, q: int)
    requires n > 0 && n * q <= x < n * q + n
    ensures x / n == q
  {
    var p := x / n;
    assert n * p <= x < n * p + n;
    MulMonotone(n, p, q);
    MulMonotone(n, q, p);
  }

  lemma {:induction false} MulMonotone(n: int, p: int, q: int)
    requires n > 0
    ensures p < q ==> n * p + n <= n * q
    decreases q - p
  {
    if p < q {
      MulMonotone(n, p, q - 1);
      assert n * q == n * (q - 1) + n;
    }
  }

  /** Years counted from March, within an era of 400 years. */
  function YearOfEra(t: Date): int {
    (if t.m <= 2 then t.y - 1 else t.y) % 400
  }

  function Era(t: Date): int {
    (if t.m <= 2 then t.y - 1 else t.y) / 400
  }

  function MonthFromMarch(m: int): int {
    if m > 2 then m - 3 else m + 9
  }

  /** The day of the year that starts in March, from zero. */
  function DayOfYear(t: Date): int {
    (153 * MonthFromMarch(t.m) + 2) / 5 + t.d - 1
  }

  function DayOfEra(yoe: int, doy: int): int {
    yoe * 365 + yoe / 4 - yoe / 100 + doy
  }

  /** A year that starts in March has its leap day at its end. */
  predicate LongYear(yoe: int) { (yoe + 1) % 4 == 0 && ((yoe + 1) % 100 != 0 || (yoe + 1) % 400 == 0) }

  lemma DaysFromCivilIs(t: Date)
    requires IsDate(t)
    ensures DaysFromCivil(t.y, t.m, t.d)
            == Era(t) * 146097 + DayOfEra(YearOfEra(t), DayOfYear(t)) - 719468
    ensures 0 <= YearOfEra(t) < 400
    ensures 0 <= DayOfYear(t) <= 365
    ensures DayOfYear(t) == 365 ==> LongYear(YearOfEra(t))
  {
    var y := if t.m <= 2 then t.y - 1 else t.y;
    TruncIsFloor(y, 400);
    assert y == Era(t) * 400 + YearOfEra(t);
    if DayOfYear(t) == 365 {
      assert t.m == 2 && t.d == 29;
      LeapInEra(t.y, Era(t), YearOfEra(t));
    }
  }

  lemma LeapInEra(y: int, era: int, yoe: int)
    requires y == era * 400 + yoe + 1
    ensures IsLeap(y) <==> LongYear(yoe)
  {
    var r := yoe + 1;
    FloorUnique(y, 4, 100 * era + r / 4);
    FloorUnique(y, 100, 4 * era + r / 100);
    FloorUnique(y, 400, era + r / 400);
  }

  // ---------- from a day of an era to its year ----------

  predicate YearAndDay(yoe: int, doy: int) {
    0 <= yoe < 400 && 0 <= doy <= 365 && (doy == 365 ==> LongYear(yoe))
  }

  /** A year of an era by centuries, four-year groups and years. */
  lemma YearParts(yoe: int) returns (c: int, q: int, r: int)
    requires 0 <= yoe < 400
    ensures 0 <= c <= 3 && 0 <= q <= 24 && 0 <= r <= 3
    ensures yoe == 100 * c + 4 * q + r && yoe / 4 == 25 * c + q && yoe / 100 == c
    ensures LongYear(yoe) ==> r == 3 && (q < 24 || c == 3)
  {
    c, q, r := yoe / 100, yoe % 100 / 4, yoe % 4;
    FloorUnique(yoe, 4, 25 * c + q);
  }

  /** The divisions by 1460, 36524 and 146096 remove exactly the leap days. */
  lemma YearRecovered(yoe: int, doy: int)
    requires YearAndDay(yoe, doy)
    ensures var doe := DayOfEra(yoe, doy);
            0 <= doe < 146097 && (doe - doe / 1460 + doe / 36524 - doe / 146096) / 365 == yoe
  {
    hide LongYear;
    var c, q, r := YearParts(yoe);
    var doe := DayOfEra(yoe, doy);
    assert doe == 36524 * c + 1461 * q + 365 * r + doy;
    var f := if 24 * c + q + 365 * r + doy >= 1460 then 1 else 0;
    var g := if doe == 146096 then 1 else 0;
    FloorUnique(doe, 1460, 25 * c + q + f);
    FloorUnique(doe, 36524, c + g);
    FloorUnique(doe, 146096, g);
    FloorUnique(365 * yoe + doy - f, 365, yoe);
  }

  /** Every day of an era belongs to some year. */
  lemma YearExists(doe: int) returns (yoe: int, doy: int)
    requires 0 <= doe < 146097
    ensures YearAndDay(yoe, doy) && DayOfEra(yoe, doy) == doe
  {
    var c := if doe == 146096 then 3 else doe / 36524;
    var inCentury := doe - 36524 * c;
    var q := inCentury / 1461;
    var inFour := inCentury - 1461 * q;
    var r := if inFour == 1460 then 3 else inFour / 365;
    yoe, doy := 100 * c + 4 * q + r, inFour - 365 * r;
    assert yoe / 100 == c && yoe / 4 == 25 * c + q;
  }

  /** Months of 153 days by fives. */
  lemma MonthRecovered(mp: int, d: int, doy: int)
    requires 0 <= mp <= 11 && 1 <= d <= (if mp == 11 then 29 else DaysInMonth(1, if mp < 10 then mp + 3 else mp - 9))
    requires doy == (153 * mp + 2) / 5 + d - 1
    ensures (5 * doy + 2) / 153 == mp
  {
    FloorUnique(5 * doy + 2, 153, mp);
  }

  lemma MonthExists(doy: int)
    requires 0 <= doy <= 365
    ensures var mp := (5 * doy + 2) / 153;
            var d := doy - (153 * mp + 2) / 5 + 1;
            && 0 <= mp <= 11
            && 1 <= d <= (if mp == 11 then (if doy == 365 then 29 else 28)
                          else DaysInMonth(1, if mp < 10 then mp + 3 else mp - 9))
  {
    var mp := (5 * doy + 2) / 153;
    assert 153 * mp <= 5 * doy + 2 < 153 * mp + 153;
  }

  /** The date with the given year of era and day of year. */
  function DateOf(era: int, yoe: int, doy: int): Date {
    var mp := (5 * doy + 2) / 153;
    var m := if mp < 10 then mp + 3 else mp - 9;
    var y := yoe + era * 400;
    Date(if m <= 2 then y + 1 else y, m, doy - (153 * mp + 2) / 5 + 1)
  }

  lemma CivilFromDaysIs(era: int, yoe: int, doy: int)
    requires YearAndDay(yoe, doy)
    ensures CivilFromDays(era * 146097 + DayOfEra(yoe, doy) - 719468) == DateOf(era, yoe, doy)
  {
    hide DayOfEra, TruncDiv, LongYear;
    DivisionsAgree(yoe, doy);
    var doe := DayOfEra(yoe, doy);
    var z := era * 146097 + doe;
    TruncIsFloor(z, 146097);
    FloorUnique(z, 146097, era);
    var mp := (5 * doy + 2) / 153;
    TruncPositive(5 * doy + 2, 153);
    TruncPositive(153 * mp + 2, 5);
  }

  lemma TruncPositive(a: int, b: int)
    requires a >= 0 && b > 0
    ensures TruncDiv(a, b) == a / b
  {
  }

  /** Past the era every quantity is non-negative, and truncation is rounding down. */
  lemma DivisionsAgree(yoe: int, doy: int)
    requires YearAndDay(yoe, doy)
    ensures 0 <= DayOfEra(yoe, doy) < 146097
    ensures var doe := DayOfEra(yoe, doy);
            TruncDiv(doe - TruncDiv(doe, 1460) + TruncDiv(doe, 36524) - TruncDiv(doe, 146096), 365) == yoe
    ensures DayOfEra(yoe, doy) - (365 * yoe + TruncDiv(yoe, 4) - TruncDiv(yoe, 100)) == doy
  {
    hide LongYear;
    YearRecovered(yoe, doy);
    var doe := DayOfEra(yoe, doy);
    assert doe / 1460 <= doe && doe / 146096 <= doe / 36524;
  }

  // ---------- the theorems ----------

  /** The date of the day number of a real date is that date. */
  lemma DateRoundTrip(t: Date)
    requires IsDate(t)
    ensures CivilFromDays(DaysFromCivil(t.y, t.m, t.d)) == t
  {
    hide DaysFromCivil, CivilFromDays, DayOfEra, LongYear;
    DaysFromCivilIs(t);
    CivilFromDaysIs(Era(t), YearOfEra(t), DayOfYear(t));
    MonthRecovered(MonthFromMarch(t.m), t.d, DayOfYear(t));
  }

  /** Every day number is that of a real date. */
  lemma DayRoundTrip(z: int)
    ensures IsDate(CivilFromDays(z))
    ensures var t := CivilFromDays(z); DaysFromCivil(t.y, t.m, t.d) == z
  {
    hide DaysFromCivil, CivilFromDays, DayOfEra, LongYear, IsLeap;
    var era, doe := (z + 719468) / 146097, (z + 719468) % 146097;
    var yoe, doy := YearExists(doe);
    CivilFromDaysIs(era, yoe, doy);
    DateOfIsDate(era, yoe, doy);
    DaysFromCivilIs(DateOf(era, yoe, doy));
  }

  lemma DateOfIsDate(era: int, yoe: int, doy: int)
    requires YearAndDay(yoe, doy)
    ensures var t := DateOf(era, yoe, doy);
            IsDate(t) && Era(t) == era && YearOfEra(t) == yoe && DayOfYear(t) == doy
  {
    hide IsLeap, LongYear;
    MonthExists(doy);
    var t := DateOf(era, yoe, doy);
    var y := yoe + era * 400;
    FloorUnique(y, 400, era);
    LeapInEra(y + 1, era, yoe);
  }

  /** 1 March follows the last day of February. */
  lemma AfterFebruary(y: int)
    ensures DaysFromCivil(y, 3, 1) == DaysFromCivil(y, 2, DaysInMonth(y, 2)) + 1
  {
    hide DaysFromCivil, IsLeap, LongYear, DayOfEra;
    var p, q := Date(y, 2, DaysInMonth(y, 2)), Date(y, 3, 1);
    DaysFromCivilIs(p);
    DaysFromCivilIs(q);
    YearStep(y - 1);
    LeapInEra(y, Era(p), YearOfEra(p));
    DayAdds(YearOfEra(p), DayOfYear(p), 365);
  }

  lemma DayAdds(yoe: int, doy: int, doy': int)
    ensures DayOfEra(yoe, doy') == DayOfEra(yoe, doy) + (doy' - doy)
  {
  }

  /** From 1 March to the next 1 March: one era later when the era is over. */
  lemma YearStep(y: int)
    ensures var era, yoe := y / 400, y % 400;
            var era', yoe' := (y + 1) / 400, (y + 1) % 400;
            era' * 146097 + DayOfEra(yoe', 0)
            == era * 146097 + DayOfEra(yoe, 365) + if LongYear(yoe) then 1 else 0
  {
    var era, yoe := y / 400, y % 400;
    if yoe == 399 {
      FloorUnique(y + 1, 400, era + 1);
    } else {
      FloorUnique(y + 1, 400, era);
      StepDiv(yoe, 4);
      StepDiv(yoe, 100);
    }
  }

  lemma StepDiv(x: int, n: int)
    requires n > 1
    ensures (x + 1) / n == x / n + if (x + 1) % n == 0 then 1 else 0
  {
    var q, r := x / n, x % n;
    assert n * (q + 1) == n * q + n;
    FloorUnique(x + 1, n, if r == n - 1 then q + 1 else q);
  }

  /** Day numbers count the days of the calendar one by one from 1 January 1970. */
  lemma CountsDays(t: Date)
    requires IsDate(t)
    ensures IsDate(NextDay(t))
    ensures var u := NextDay(t);
            DaysFromCivil(u.y, u.m, u.d) == DaysFromCivil(t.y, t.m, t.d) + 1
    ensures DaysFromCivil(1970, 1, 1) == 0
  {
    hide DaysFromCivil, DayOfEra, LongYear, IsLeap;
    var u := NextDay(t);
    Epoch();
    DaysFromCivilIs(t);
    DaysFromCivilIs(u);
    if t.m == 2 && u.m == 3 {
      AfterFebruary(t.y);
    } else {
      SameMarchYear(t);
    }
  }

  lemma Epoch()
    ensures DaysFromCivil(1970, 1, 1) == 0
  {
  }

  /** Within a year that starts in March the day of the year goes up by one. */
  lemma SameMarchYear(t: Date)
    requires IsDate(t) && !(t.m == 2 && NextDay(t).m == 3)
    ensures var u := NextDay(t);
            && IsDate(u)
            && Era(u) == Era(t) && YearOfEra(u) == YearOfEra(t) && DayOfYear(u) == DayOfYear(t) + 1
            && DayOfEra(YearOfEra(u), DayOfYear(u)) == DayOfEra(YearOfEra(t), DayOfYear(t)) + 1
  {
    hide IsLeap;
  }
}
