/** Timestamps and the civil calendar behind their rendering. */
module Clock {
  import opened Words

  const BILLION: int := 1_000_000_000

  datatype Timestamp = Timestamp(secs: int, nanos: nat)

  /** `Timestamp::new`: whole seconds in `nanos` are carried over. */
  function At(secs: int, nanos: u32): (t: Timestamp)
    ensures t.nanos < BILLION && t.secs * BILLION + t.nanos == secs * BILLION + nanos
  {
    Timestamp(secs + nanos / BILLION, nanos % BILLION)
  }

  /** `Timestamp::from_micros`: the product saturates at the top of 32 bits. */
  function FromMicros(secs: int, micros: u32): Timestamp {
    At(secs, Min(micros * 1_000, TWO32 - 1))
  }

  /** Microseconds within a second are kept exactly; from 4294968 on the saturation shows. */
  lemma MicrosExactness(secs: int, micros: u32)
    ensures var t := FromMicros(secs, micros);
            t.secs * BILLION + t.nanos == secs * BILLION + micros * 1_000 <==> micros < 4_294_968
  {
  }

  // ---------------------------------------------------------------------------------------------------------------
  // Days to civil dates
  // ---------------------------------------------------------------------------------------------------------------

  datatype Date = Date(year: int, month: int, day: int)

  /** Integer division as the machine does it, towards zero. */
  function TruncDiv(a: int, b: int): int
    requires b > 0
  {
    if a >= 0 then a / b else -((-a) / b)
  }

  /** `civil_from_days`. */
  function CivilFromDays(days: int): Date {
    var z := days + 719_468;
    var era := TruncDiv(if z >= 0 then z else z - 146_096, 146_097);
    var doe := z - era * 146_097;
    var yoe := TruncDiv(doe - TruncDiv(doe, 1460) + TruncDiv(doe, 36_524) - TruncDiv(doe, 146_096), 365);
    var y := yoe + era * 400;
    var doy := doe - (365 * yoe + TruncDiv(yoe, 4) - TruncDiv(yoe, 100));
    var mp := TruncDiv(5 * doy + 2, 153);
    var d := doy - TruncDiv(153 * mp + 2, 5) + 1;
    var m := if mp < 10 then mp + 3 else mp - 9;
    Date(if m <= 2 then y + 1 else y, m, d)
  }

  predicate IsLeap(y: int) {
    y % 4 == 0 && (y % 100 != 0 || y % 400 == 0)
  }

  function DaysInMonth(y: int, m: int): int {
    if m == 2 then (if IsLeap(y) then 29 else 28)
    else if m == 4 || m == 6 || m == 9 || m == 11 then 30
    else 31
  }

  predicate ValidDate(d: Date) {
    1 <= d.month <= 12 && 1 <= d.day <= DaysInMonth(d.year, d.month)
  }

  /** The next day of the Gregorian calendar. */
  function NextDate(d: Date): Date {
    if d.day < DaysInMonth(d.year, d.month) then d.(day := d.day + 1)
    else if d.month < 12 then Date(d.year, d.month + 1, 1)
    else Date(d.year + 1, 1, 1)
  }

  /** Days from the start of the year that begins on 1 March to the start of its month `mp` (0 is March). */
  function MonthStart(mp: int): int {
    (153 * mp + 2) / 5
  }

  /** Days from 1 March of year 0 to 1 March of year `y`. */
  function YearStart(y: int): int {
    365 * y + y / 4 - y / 100 + y / 400
  }

  /** The number of the day, counted from 1 January 1970. */
  function DaysFromCivil(d: Date): int {
    var y := if d.month <= 2 then d.year - 1 else d.year;
    var mp := if d.month <= 2 then d.month + 9 else d.month - 3;
    YearStart(y) + MonthStart(mp) + d.day - 1 - 719_468
  }

  lemma EraSplit(z: int)
    ensures TruncDiv(if z >= 0 then z else z - 146_096, 146_097) == z / 146_097
    ensures 0 <= z - z / 146_097 * 146_097 < 146_097
  {
  }

  /** Within an era, days to the start of year `y`. */
  function EraYearStart(y: int): int {
    365 * y + y / 4 - y / 100
  }

  /** Year `y` of an era, counted from 1 March, is one day longer when the February inside it has 29 days. */
  function EraYearLength(y: int): int {
    if (y + 1) % 4 == 0 && ((y + 1) % 100 != 0 || y == 399) then 366 else 365
  }

  /** The day of an era by century, by four years within it, and by day within those. */
  ghost predicate Splits(doe: int, c: int, q: int, r: int) {
    && doe == 36_524 * c + 1461 * q + r
    && 0 <= c <= 3 && 0 <= q <= 24 && 0 <= r <= 1460
    && (q == 24 && r == 1460 ==> c == 3)
  }

  lemma SplitExists(doe: int) returns (c: int, q: int, r: int)
    requires 0 <= doe < 146_097
    ensures Splits(doe, c, q, r)
  {
    c := Min(doe / 36_524, 3);
    var doc := doe - 36_524 * c;
    q := doc / 1461;
    r := doc % 1461;
  }

  /** The corrections of the closed formula leave 365 days a year. */
  lemma FormulaNumerator(doe: int, c: int, q: int, r: int)
    requires Splits(doe, c, q, r)
    ensures var e := if 24 * c + q + r >= 1460 then 1 else 0;
            doe - doe / 1460 + doe / 36_524 - doe / 146_096 == 365 * (100 * c + 4 * q) + r - e
  {
    var e := if 24 * c + q + r >= 1460 then 1 else 0;
    var rest := 24 * c + q + r - 1460 * e;
    assert doe == 1460 * (25 * c + q + e) + rest && 0 <= rest < 1460;
    assert doe / 1460 == 25 * c + q + e;
    if doe == 146_096 {
      assert c == 3;
    } else {
      assert 1461 * q + r < 36_524;
      assert doe / 36_524 == c;
      assert doe / 146_096 == 0;
    }
  }

  /** The closed formula picks out the year of the era whose days contain `doe`. */
  lemma YearOfEra(doe: int)
    requires 0 <= doe < 146_097
    ensures var yoe := (doe - doe / 1460 + doe / 36_524 - doe / 146_096) / 365;
            0 <= yoe < 400 && EraYearStart(yoe) <= doe < EraYearStart(yoe) + EraYearLength(yoe)
  {
    var c, q, r := SplitExists(doe);
    FormulaNumerator(doe, c, q, r);
    var e := if 24 * c + q + r >= 1460 then 1 else 0;
    var k := if r >= 1095 then 3 else r / 365;
    assert 365 * k <= r - e < 365 * k + 365;
    var yoe := 100 * c + 4 * q + k;
    assert (365 * (100 * c + 4 * q) + r - e) / 365 == yoe;
    EraYearStartAt(c, q, k);
    if r - 365 * k == 365 {
      assert k == 3 && r == 1460 && yoe + 1 == 100 * c + 4 * (q + 1);
    }
  }

  lemma EraYearStartAt(c: int, q: int, k: int)
    requires 0 <= c <= 3 && 0 <= q <= 24 && 0 <= k <= 3
    ensures EraYearStart(100 * c + 4 * q + k) == 36_524 * c + 1461 * q + 365 * k
  {
    var y := 100 * c + 4 * q + k;
    assert y / 4 == 25 * c + q;
    assert y / 100 == c;
  }

  // ---------------------------------------------------------------------------------------------------------------
  // The calendar is the Gregorian one
  // ---------------------------------------------------------------------------------------------------------------

  /** A day as a year that begins on 1 March and a day within it, and the date that makes. */
  function DateIn(y: int, doy: int): Date {
    var mp := (5 * doy + 2) / 153;
    Date(if mp >= 10 then y + 1 else y, if mp < 10 then mp + 3 else mp - 9, doy - MonthStart(mp) + 1)
  }

  function YearLength(y: int): int {
    if IsLeap(y + 1) then 366 else 365
  }

  /** `civil_from_days` finds the March year the day is in, and the day's place in it. */
  lemma CivilParts(days: int) returns (y: int, doy: int)
    ensures CivilFromDays(days) == DateIn(y, doy)
    ensures YearStart(y) + doy == days + 719_468 && 0 <= doy < YearLength(y)
  {
    hide YearStart, YearLength, TruncDiv;
    var z := days + 719_468;
    var era := z / 146_097;
    var doe := z - era * 146_097;
    EraSplit(z);
    YearOfEra(doe);
    var yoe := (doe - doe / 1460 + doe / 36_524 - doe / 146_096) / 365;
    y := yoe + era * 400;
    doy := doe - EraYearStart(yoe);
    EraShift(era, yoe);
    TruncsAreFloors(doe, yoe, doy);
  }

  lemma EraShift(era: int, yoe: int)
    requires 0 <= yoe < 400
    ensures YearStart(yoe + era * 400) == EraYearStart(yoe) + era * 146_097
    ensures YearLength(yoe + era * 400) == EraYearLength(yoe)
  {
    EraDivisions(era, yoe);
    EraDivisions(era, yoe + 1);
  }

  /** Whole eras do not change the remainders, and move the quotients by themselves. */
  lemma EraDivisions(era: int, yoe: int)
    ensures var y := yoe + era * 400;
            && y / 4 == yoe / 4 + 100 * era && y / 100 == yoe / 100 + 4 * era && y / 400 == yoe / 400 + era
            && y % 4 == yoe % 4 && y % 100 == yoe % 100 && y % 400 == yoe % 400
  {
    DivBy4(yoe, 100 * era);
    DivBy100(yoe, 4 * era);
    DivBy400(yoe, era);
  }

  lemma DivBy4(x: int, k: int)
    ensures (x + 4 * k) / 4 == x / 4 + k && (x + 4 * k) % 4 == x % 4
  {
  }

  lemma DivBy100(x: int, k: int)
    ensures (x + 100 * k) / 100 == x / 100 + k && (x + 100 * k) % 100 == x % 100
  {
  }

  lemma DivBy400(x: int, k: int)
    ensures (x + 400 * k) / 400 == x / 400 + k && (x + 400 * k) % 400 == x % 400
  {
  }

  /** On the ranges that occur, dividing towards zero is dividing down. */
  lemma TruncsAreFloors(doe: int, yoe: int, doy: int)
    requires 0 <= doe < 146_097 && 0 <= doy <= 365
    requires yoe == (doe - doe / 1460 + doe / 36_524 - doe / 146_096) / 365 && yoe >= 0
    ensures TruncDiv(doe, 1460) == doe / 1460 && TruncDiv(doe, 36_524) == doe / 36_524 && TruncDiv(doe, 146_096) == doe / 146_096
    ensures TruncDiv(doe - doe / 1460 + doe / 36_524 - doe / 146_096, 365) == yoe
    ensures TruncDiv(yoe, 4) == yoe / 4 && TruncDiv(yoe, 100) == yoe / 100
    ensures TruncDiv(5 * doy + 2, 153) == (5 * doy + 2) / 153
    ensures TruncDiv(153 * ((5 * doy + 2) / 153) + 2, 5) == MonthStart((5 * doy + 2) / 153)
  {
  }

  lemma MonthOfDay(doy: int)
    requires 0 <= doy <= 365
    ensures var mp := (5 * doy + 2) / 153; 0 <= mp <= 11 && MonthStart(mp) <= doy && (mp < 11 ==> doy < MonthStart(mp + 1))
  {
  }

  lemma MonthLengths(mp: int)
    requires 0 <= mp < 11
    ensures MonthStart(mp + 1) - MonthStart(mp) == DaysInMonth(0, if mp < 10 then mp + 3 else mp - 9)
    ensures MonthStart(11) == 337
  {
  }

  lemma DateInIsValid(y: int, doy: int)
    requires 0 <= doy < YearLength(y)
    ensures ValidDate(DateIn(y, doy)) && DaysFromCivil(DateIn(y, doy)) == YearStart(y) + doy - 719_468
  {
    MonthOfDay(doy);
    var mp := (5 * doy + 2) / 153;
    if mp < 11 {
      MonthLengths(mp);
    } else {
      MonthLengths(0);
    }
  }

  /** Every day number has a valid date, and the date's day number is that number. */
  lemma CivilIsValidAndInverted(days: int)
    ensures ValidDate(CivilFromDays(days)) && DaysFromCivil(CivilFromDays(days)) == days
  {
    var y, doy := CivilParts(days);
    DateInIsValid(y, doy);
  }

  lemma YearStep(y: int)
    ensures YearStart(y + 1) == YearStart(y) + YearLength(y)
  {
    var q4, q100, q400 := y / 4, y / 100, y / 400;
    assert (y + 1) / 4 == q4 + (if (y + 1) % 4 == 0 then 1 else 0);
    assert (y + 1) / 100 == q100 + (if (y + 1) % 100 == 0 then 1 else 0);
    assert (y + 1) / 400 == q400 + (if (y + 1) % 400 == 0 then 1 else 0);
  }

  lemma {:induction false} LaterYearStartsLater(y: int, later: int)
    requires y < later
    ensures YearStart(later) >= YearStart(y) + YearLength(y)
    decreases later - y
  {
    YearStep(later - 1);
    if y + 1 < later {
      LaterYearStartsLater(y, later - 1);
    }
  }

  /** A day lies in one March year only. */
  lemma YearUnique(y: int, doy: int, y': int, doy': int)
    requires 0 <= doy < YearLength(y) && 0 <= doy' < YearLength(y')
    requires YearStart(y) + doy == YearStart(y') + doy'
    ensures y == y' && doy == doy'
  {
    if y < y' {
      LaterYearStartsLater(y, y');
    } else if y' < y {
      LaterYearStartsLater(y', y);
    }
  }

  /** The place of a valid date within its March year. */
  lemma DateParts(d: Date) returns (y: int, doy: int)
    requires ValidDate(d)
    ensures d == DateIn(y, doy) && 0 <= doy < YearLength(y) && DaysFromCivil(d) == YearStart(y) + doy - 719_468
  {
    y := if d.month <= 2 then d.year - 1 else d.year;
    var mp := if d.month <= 2 then d.month + 9 else d.month - 3;
    doy := MonthStart(mp) + d.day - 1;
    if mp < 11 {
      MonthLengths(mp);
    } else {
      MonthLengths(0);
    }
    MonthFound(mp, doy);
  }

  lemma MonthFound(mp: int, doy: int)
    requires 0 <= mp <= 11 && MonthStart(mp) <= doy <= 365 && (mp < 11 ==> doy < MonthStart(mp + 1))
    ensures (5 * doy + 2) / 153 == mp
  {
    assert 153 * mp <= 5 * doy + 2 < 153 * (mp + 1);
  }

  /** Every valid date is the date of its day number: the two functions are inverse bijections. */
  lemma DateIsRecovered(d: Date)
    requires ValidDate(d)
    ensures CivilFromDays(DaysFromCivil(d)) == d
  {
    var y, doy := DateParts(d);
    var y', doy' := CivilParts(DaysFromCivil(d));
    YearUnique(y, doy, y', doy');
  }

  lemma NextDateIsNextDay(d: Date)
    requires ValidDate(d)
    ensures ValidDate(NextDate(d)) && DaysFromCivil(NextDate(d)) == DaysFromCivil(d) + 1
  {
    if d.day == DaysInMonth(d.year, d.month) {
      if d.month == 2 {
        YearStep(d.year - 1);
        MonthLengths(0);
      } else if d.month == 12 {
        MonthLengths(9);
      } else {
        hide YearStart;
        MonthLengths(if d.month <= 2 then d.month + 9 else d.month - 3);
      }
    }
  }

  /** Day 0 is 1 January 1970, and each next day is the next calendar date: together these fix every date there is. */
  lemma CalendarIsGregorian(days: int)
    ensures CivilFromDays(0) == Date(1970, 1, 1)
    ensures CivilFromDays(days + 1) == NextDate(CivilFromDays(days))
  {
    Epoch();
    hide CivilFromDays, DaysFromCivil, NextDate;
    CivilIsValidAndInverted(days);
    NextDateIsNextDay(CivilFromDays(days));
    DateIsRecovered(NextDate(CivilFromDays(days)));
    DateIsRecovered(Date(1970, 1, 1));
  }

  lemma Epoch()
    ensures DaysFromCivil(Date(1970, 1, 1)) == 0
  {
    assert MonthStart(10) == 306 && YearStart(1969) == 719_162;
  }

  // ---------------------------------------------------------------------------------------------------------------
  // Seconds to date and time
  // ---------------------------------------------------------------------------------------------------------------

  datatype Moment = Moment(date: Date, hour: int, minute: int, second: int)

  /** `civil_from_unix`. */
  function CivilFromUnix(secs: int): Moment {
    var rem := secs % 86_400;
    Moment(CivilFromDays(secs / 86_400), rem / 3600, rem % 3600 / 60, rem % 60)
  }

  /** The fields are in range and recompose to the seconds they came from. */
  lemma UnixRecomposes(secs: int)
    ensures var t := CivilFromUnix(secs);
            && ValidDate(t.date) && 0 <= t.hour < 24 && 0 <= t.minute < 60 && 0 <= t.second < 60
            && DaysFromCivil(t.date) * 86_400 + t.hour * 3600 + t.minute * 60 + t.second == secs
  {
    hide CivilFromDays, DaysFromCivil, ValidDate;
    CivilIsValidAndInverted(secs / 86_400);
    TimeOfDay(secs % 86_400);
  }

  lemma TimeOfDay(rem: int)
    requires 0 <= rem < 86_400
    ensures 0 <= rem / 3600 < 24 && 0 <= rem % 3600 / 60 < 60 && rem / 3600 * 3600 + rem % 3600 / 60 * 60 + rem % 60 == rem
  {
    assert rem % 3600 % 60 == rem % 60;
  }

  /** Different seconds are rendered differently. */
  lemma UnixIsInjective(a: int, b: int)
    requires CivilFromUnix(a) == CivilFromUnix(b)
    ensures a == b
  {
    UnixRecomposes(a);
    UnixRecomposes(b);
  }
}
