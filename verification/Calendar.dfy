/** Days since 1970-01-01 as dates, and the proleptic Gregorian calendar that they must follow. */
module Calendar {

  datatype Date = Date(year: int, month: int, day: int)

  /** Division toward zero, by a positive number. */
  function Quotient(a: int, b: int): int
    requires b > 0
  {
    if a >= 0 then a / b else -((-a) / b)
  }

  // --- the computation -------------------------------------------------------

  /** The year of its 400-year era that day `doe` of the era is in; years begin in March. */
  function YearOfEra(doe: int): int { (doe - doe / 1460 + doe / 36524 - doe / 146096) / 365 }

  /** First day of year `yoe` of an era. */
  function YearStart(yoe: int): int { 365 * yoe + yoe / 4 - yoe / 100 }

  /** Day `doy` of a year that begins in March, as a date whose year is counted from that March. */
  function MarchDate(year: int, doy: int): Date {
    var mp := (5 * doy + 2) / 153;
    var d := doy - (153 * mp + 2) / 5 + 1;
    var m := if mp < 10 then mp + 3 else mp - 9;
    Date(if m <= 2 then year + 1 else year, m, d)
  }

  /** A day by era, year of the era, and day of the year. */
  datatype Place = Place(era: int, yoe: int, doy: int)

  function PlaceOf(days: int): Place {
    var z := days + 719468;
    var era := Quotient(if z >= 0 then z else z - 146096, 146097);
    var doe := z - era * 146097;
    var yoe := YearOfEra(doe);
    Place(era, yoe, doe - YearStart(yoe))
  }

  function DateAt(p: Place): Date { MarchDate(p.yoe + p.era * 400, p.doy) }

  function CivilFromDays(days: int): Date { DateAt(PlaceOf(days)) }

  // --- the calendar ----------------------------------------------------------

  predicate Leap(y: int) { y % 4 == 0 && (y % 100 != 0 || y % 400 == 0) }

  function MonthLength(y: int, m: int): int {
    if m == 2 then (if Leap(y) then 29 else 28)
    else if m == 4 || m == 6 || m == 9 || m == 11 then 30
    else 31
  }

  predicate IsDate(c: Date) { 1 <= c.month <= 12 && 1 <= c.day <= MonthLength(c.year, c.month) }

  function NextDay(c: Date): Date {
    if c.day < MonthLength(c.year, c.month) then c.(day := c.day + 1)
    else if c.month < 12 then Date(c.year, c.month + 1, 1)
    else Date(c.year + 1, 1, 1)
  }

  // --- the proof -------------------------------------------------------------

  predicate InEra(p: Place) { 0 <= p.yoe < 400 && 0 <= p.doy < YearLength(p.yoe) }

  /** Length of a year of an era: it is a day longer if the February at its end is that of a leap year. */
  function YearLength(yoe: int): int { if Leap(yoe + 1) then 366 else 365 }

  function Following(p: Place): Place {
    if p.doy + 1 < YearLength(p.yoe) then p.(doy := p.doy + 1)
    else if p.yoe < 399 then Place(p.era, p.yoe + 1, 0)
    else Place(p.era + 1, 0, 0)
  }

  function DayAt(p: Place): int { p.era * 146097 + YearStart(p.yoe) + p.doy - 719468 }

  lemma YearsMeet(yoe: int)
    requires 0 <= yoe < 400
    ensures if yoe < 399 then YearStart(yoe + 1) == YearStart(yoe) + YearLength(yoe) else YearStart(yoe) + YearLength(yoe) == 146097
  {
  }

  /** A day of an era by century, four-year cycle, year of the cycle, and day of the year. */
  predicate Parts(c: int, a: int, b: int, t: int) {
    0 <= c < 4 && 0 <= a < 25 && 0 <= b < 4 && 0 <= t < YearLength(100 * c + 4 * a + b)
  }

  lemma PartsStart(c: int, a: int, b: int)
    requires 0 <= c < 4 && 0 <= a < 25 && 0 <= b < 4
    ensures YearStart(100 * c + 4 * a + b) == 36524 * c + 1461 * a + 365 * b
    ensures YearLength(100 * c + 4 * a + b) == (if b == 3 && (a < 24 || c == 3) then 366 else 365)
  {
    var y := 100 * c + 4 * a + b;
    assert y / 100 == c && y / 4 == 25 * c + a;
    assert Leap(y + 1) == (b == 3 && (a < 24 || c == 3)) by {
      if b == 3 && a == 24 {
        assert y + 1 == 100 * (c + 1);
      }
    }
  }

  lemma YearOfParts(c: int, a: int, b: int, t: int)
    requires Parts(c, a, b, t)
    ensures YearOfEra(36524 * c + 1461 * a + 365 * b + t) == 100 * c + 4 * a + b
  {
    PartsStart(c, a, b);
    var doe := 36524 * c + 1461 * a + 365 * b + t;
    var e := if 24 * c + a + 365 * b + t >= 1460 then 1 else 0;
    var f := if c == 3 && a == 24 && b == 3 && t == 365 then 1 else 0;
    assert doe / 1460 == 25 * c + a + e;
    assert doe / 36524 == c + f && doe / 146096 == f;
    assert doe - doe / 1460 + doe / 36524 - doe / 146096 == 365 * (100 * c + 4 * a + b) + (t - e);
  }

  lemma PartsOf(doe: int) returns (c: int, a: int, b: int, t: int)
    requires 0 <= doe < 146097
    ensures Parts(c, a, b, t) && doe == 36524 * c + 1461 * a + 365 * b + t
  {
    c := if doe == 146096 then 3 else doe / 36524;
    var r := doe - 36524 * c;
    a := r / 1461;
    var s := r - 1461 * a;
    b := if s == 1460 then 3 else s / 365;
    t := s - 365 * b;
    PartsStart(c, a, b);
  }

  /** The year of the era is the one whose days `doe` is among. */
  lemma YearFound(doe: int)
    requires 0 <= doe < 146097
    ensures var y := YearOfEra(doe); 0 <= y < 400 && 0 <= doe - YearStart(y) < YearLength(y)
  {
    var c, a, b, t := PartsOf(doe);
    YearOfParts(c, a, b, t);
    PartsStart(c, a, b);
  }

  lemma PlaceFound(days: int)
    ensures InEra(PlaceOf(days)) && DayAt(PlaceOf(days)) == days
  {
    var z := days + 719468;
    var era := Quotient(if z >= 0 then z else z - 146096, 146097);
    YearFound(z - era * 146097);
  }

  lemma FollowingDay(p: Place)
    requires InEra(p)
    ensures InEra(Following(p)) && DayAt(Following(p)) == DayAt(p) + 1
  {
    YearsMeet(p.yoe);
  }

  lemma YearStartsGrow(x: int, y: int)
    requires 0 <= x < y < 400
    ensures YearStart(x) + YearLength(x) <= YearStart(y)
    decreases y
  {
    YearsMeet(y - 1);
    if x < y - 1 {
      YearStartsGrow(x, y - 1);
    }
  }

  lemma YearEnds(y: int)
    requires 0 <= y < 400
    ensures 0 <= YearStart(y) && YearStart(y) + YearLength(y) <= 146097
  {
    YearsMeet(y);
    if y < 399 {
      YearStartsGrow(y, 399);
      YearsMeet(399);
    }
  }

  /** A day is in one place. */
  lemma OnePlace(p: Place, q: Place)
    requires InEra(p) && InEra(q) && DayAt(p) == DayAt(q)
    ensures p == q
  {
    YearEnds(p.yoe);
    YearEnds(q.yoe);
    assert p.era == q.era;
    if p.yoe < q.yoe {
      YearStartsGrow(p.yoe, q.yoe);
    } else if q.yoe < p.yoe {
      YearStartsGrow(q.yoe, p.yoe);
    }
  }

  /** Days of a year from the first of March. */
  function MonthStart(mp: int): int { (153 * mp + 2) / 5 }

  lemma MonthOf(doy: int)
    requires 0 <= doy < 366
    ensures var mp := (5 * doy + 2) / 153; 0 <= mp < 12 && MonthStart(mp) <= doy < MonthStart(mp + 1)
  {
  }

  lemma MonthIs(mp: int, doy: int)
    requires 0 <= mp < 12 && MonthStart(mp) <= doy < MonthStart(mp + 1)
    ensures (5 * doy + 2) / 153 == mp
  {
  }

  /** Months as long as the calendar says, but for February, which lasts as long as the year does. */
  lemma MonthStarts(mp: int, year: int)
    requires 0 <= mp < 12
    ensures MonthStart(0) == 0 && MonthStart(11) == 337
    ensures mp < 11 ==> MonthStart(mp + 1) - MonthStart(mp) == MonthLength(year, if mp < 10 then mp + 3 else mp - 9)
    ensures MonthStart(12) == 367
  {
  }

  lemma LeapInEra(yoe: int, era: int)
    ensures Leap(yoe + era * 400) == Leap(yoe)
  {
    assert (yoe + era * 400) / 4 == yoe / 4 + 100 * era;
    assert (yoe + era * 400) / 100 == yoe / 100 + 4 * era;
    assert (yoe + era * 400) / 400 == yoe / 400 + era;
  }

  lemma MarchNext(p: Place)
    requires InEra(p)
    ensures IsDate(DateAt(p)) && DateAt(Following(p)) == NextDay(DateAt(p))
  {
    MonthOf(p.doy);
    var mp := (5 * p.doy + 2) / 153;
    LeapInEra(p.yoe + 1, p.era);
    NextInYear(p.yoe + p.era * 400, p.doy, mp, YearLength(p.yoe));
  }

  lemma NextInYear(year: int, doy: int, mp: int, length: int)
    requires 0 <= mp < 12 && MonthStart(mp) <= doy < MonthStart(mp + 1) && 0 <= doy < length
    requires length == (if Leap(year + 1) then 366 else 365)
    ensures IsDate(MarchDate(year, doy))
    ensures NextDay(MarchDate(year, doy)) == if doy + 1 < length then MarchDate(year, doy + 1) else MarchDate(year + 1, 0)
  {
    MonthIs(mp, doy);
    MonthStarts(mp, if mp < 10 then year else year + 1);
    if doy + 1 < length {
      MonthIs(if doy + 1 < MonthStart(mp + 1) then mp else mp + 1, doy + 1);
    }
  }

  lemma DayZero()
    ensures CivilFromDays(0) == Date(1970, 1, 1)
  {
    YearOfParts(3, 17, 1, 306);
    PartsStart(3, 17, 1);
    assert PlaceOf(0) == Place(4, 369, 306);
  }

  /** Day 0 is 1970-01-01, every day has a date, and the date of the next day is the next date: the computation is the
      calendar, for every day before and after. */
  lemma FollowsTheCalendar(days: int)
    ensures CivilFromDays(0) == Date(1970, 1, 1)
    ensures IsDate(CivilFromDays(days)) && CivilFromDays(days + 1) == NextDay(CivilFromDays(days))
  {
    DayZero();
    var p := PlaceOf(days);
    PlaceFound(days);
    PlaceFound(days + 1);
    FollowingDay(p);
    OnePlace(Following(p), PlaceOf(days + 1));
    MarchNext(p);
  }
}
