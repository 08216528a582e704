/** The Gregorian calendar conversions by closed-form division. C's truncating division is
    written out; unsigned sums are taken modulo 2^32. */
module Calendar {
  import opened Bits

  /** C division of signed integers, truncating toward zero. */
  function CDiv(a: int, b: int): int
    requires b > 0
  {
    if a >= 0 then a / b else -((-a) / b)
  }

  function CMod(a: int, b: int): int
    requires b > 0
  {
    a - b * CDiv(a, b)
  }

  /** Conversion to unsigned int, also of a sum that wraps. */
  function Unsigned(x: int): nat {
    x % 0x1_0000_0000
  }

  /** Days before month m in a year that starts in March. */
  function MonthStart(m: int): int {
    (153 * m + 2) / 5
  }

  /** Days before 1 March of year `yoe` of a 400-year era. */
  function EraDays(yoe: int): int {
    yoe * 365 + yoe / 4 - yoe / 100
  }

  /** days_from_civil, of an unsigned month and day. */
  function DaysFromCivil(year: int, m: nat, d: nat): int {
    var y := year - (if m <= 2 then 1 else 0);
    var era := CDiv(if y >= 0 then y else y - 399, 400);
    var yoe := y - era * 400;
    var doy := Unsigned(Unsigned(153 * Unsigned(m + (if m > 2 then -3 else 9)) + 2) / 5 + d - 1);
    var doe := Unsigned(EraDays(yoe) + doy);
    era * 146097 + doe - 719468
  }

  // ---------------------------------------------------------------- the calendar itself

  predicate Leap(y: int) {
    y % 4 == 0 && (y % 100 != 0 || y % 400 == 0)
  }

  function MonthLength(y: int, m: int): int
    requires 1 <= m <= 12
  {
    if m == 2 then (if Leap(y) then 29 else 28)
    else if m == 4 || m == 6 || m == 9 || m == 11 then 30
    else 31
  }

  datatype Date = Date(year: int, month: int, day: int)

  predicate Valid(date: Date) {
    1 <= date.month <= 12 && 1 <= date.day <= MonthLength(date.year, date.month)
  }

  function NextDay(date: Date): (next: Date)
    requires Valid(date)
    ensures Valid(next)
  {
    if date.day < MonthLength(date.year, date.month) then date.(day := date.day + 1)
    else if date.month < 12 then Date(date.year, date.month + 1, 1)
    else Date(date.year + 1, 1, 1)
  }

  function DayNumber(date: Date): int
    requires Valid(date)
  {
    DaysFromCivil(date.year, date.month, date.day)
  }

  /** The era computation is division rounding down. */
  lemma EraIsFloor(y: int)
    ensures CDiv(if y >= 0 then y else y - 399, 400) == y / 400
  {
  }

  /** Days before 1 March of shifted year y, counted from 1 March of year 0. */
  function YearStart(y: int): int {
    365 * y + y / 4 - y / 100 + y / 400
  }

  /** Year `yoe` of an era, counted from 1 March, ends in a leap year. */
  predicate EndsLeap(yoe: int) {
    (yoe + 1) % 4 == 0 && ((yoe + 1) % 100 != 0 || yoe == 399)
  }

  lemma DivOfShift(e: int, r: int, d: int, k: int)
    requires d > 0
    ensures (d * k * e + r) / d == k * e + r / d && (d * k * e + r) % d == r % d
  {
    var q, m := r / d, r % d;
    assert r == d * q + m;
    assert d * k * e == d * (k * e);
    assert d * k * e + r == d * (k * e + q) + m;
    DivModUnique(d * k * e + r, d, k * e + q, m);
  }

  lemma EraOfYear(y: int)
    ensures YearStart(y) == 146097 * (y / 400) + EraDays(y % 400)
    ensures EndsLeap(y % 400) <==> Leap(y + 1)
  {
    hide EndsLeap, Leap;
    var era, yoe := y / 400, y % 400;
    DivOfShift(era, yoe, 4, 100);
    DivOfShift(era, yoe, 100, 4);
    LeapOfEra(era, yoe);
  }

  lemma LeapOfEra(era: int, yoe: int)
    requires 0 <= yoe < 400
    ensures EndsLeap(yoe) <==> Leap(400 * era + yoe + 1)
  {
    DivOfShift(era, yoe + 1, 4, 100);
    DivOfShift(era, yoe + 1, 100, 4);
    DivOfShift(era, yoe + 1, 400, 1);
  }

  lemma ShiftedMonth(m: nat)
    requires 1 <= m <= 12
    ensures var mp := Unsigned(m + (if m > 2 then -3 else 9));
      mp == (if m <= 2 then m + 9 else m - 3) && Unsigned(153 * mp + 2) / 5 == MonthStart(mp)
  {
  }

  lemma UnsignedSum(a: int, b: int)
    ensures Unsigned(a + Unsigned(b)) == Unsigned(a + b)
  {
    var q, r := b / 0x1_0000_0000, b % 0x1_0000_0000;
    var h, l := (a + r) / 0x1_0000_0000, (a + r) % 0x1_0000_0000;
    DivModUnique(a + b, 0x1_0000_0000, q + h, l);
  }

  lemma UnsignedFits(x: int)
    ensures Unsigned(x) == x <==> 0 <= x < 0x1_0000_0000
  {
  }

  /** Days before month m by the formula, whatever m is. */
  function MonthField(m: nat): nat {
    Unsigned(153 * Unsigned(m + (if m > 2 then -3 else 9)) + 2) / 5
  }

  /** For every unsigned month and day only the day of the era may wrap. */
  lemma DaysByEra(year: int, m: nat, d: nat)
    ensures var y := if m <= 2 then year - 1 else year;
      && 0 <= y % 400 < 400
      && DaysFromCivil(year, m, d) ==
           146097 * (y / 400) + Unsigned(EraDays(y % 400) + MonthField(m) + d - 1) - 719468
  {
    hide CDiv, Unsigned;
    var y := if m <= 2 then year - 1 else year;
    EraIsFloor(y);
    assert y % 400 == y - y / 400 * 400;
    UnsignedSum(EraDays(y % 400), MonthField(m) + d - 1);
  }

  /** The closed form in terms of years that start in March. */
  lemma DaysByMarchYear(year: int, m: nat, d: nat)
    requires 1 <= m <= 12 && 1 <= d < 0x8000_0000
    ensures var y := if m <= 2 then year - 1 else year;
      var mp := if m <= 2 then m + 9 else m - 3;
      DaysFromCivil(year, m, d) == YearStart(y) + MonthStart(mp) + d - 1 - 719468
  {
    hide Unsigned, YearStart, EndsLeap, Leap, DaysFromCivil, EraDays;
    var y := if m <= 2 then year - 1 else year;
    DaysByEra(year, m, d);
    EraOfYear(y);
    ShiftedMonth(m);
    EraDaysRange(y % 400);
    UnsignedFits(EraDays(y % 400) + MonthField(m) + d - 1);
  }

  lemma EraDaysRange(yoe: int)
    requires 0 <= yoe < 400
    ensures 0 <= EraDays(yoe) < 146097
  {
  }

  /** A March year has 365 days, or 366 when its February is in a leap year. */
  lemma YearLength(y: int)
    ensures YearStart(y + 1) - YearStart(y) == 337 + MonthLength(y + 1, 2)
  {
    assert (y + 1) / 4 - y / 4 == if (y + 1) % 4 == 0 then 1 else 0;
    assert (y + 1) / 100 - y / 100 == if (y + 1) % 100 == 0 then 1 else 0;
    assert (y + 1) / 400 - y / 400 == if (y + 1) % 400 == 0 then 1 else 0;
    assert (y + 1) % 400 == 0 ==> (y + 1) % 100 == 0;
    assert (y + 1) % 100 == 0 ==> (y + 1) % 4 == 0;
  }

  /** Month m, counted from March as 0, has the length the table says. */
  lemma MonthLengths(y: int, m: int)
    requires 1 <= m <= 12 && m != 2
    ensures var mp := if m <= 2 then m + 9 else m - 3; MonthStart(mp + 1) - MonthStart(mp) == MonthLength(y, m)
  {
  }

  function MarchYear(date: Date): int { if date.month <= 2 then date.year - 1 else date.year }

  function MarchMonth(date: Date): int { if date.month <= 2 then date.month + 9 else date.month - 3 }

  /** Each valid date's successor has the next day number. */
  lemma NextDayIsNext(date: Date)
    requires Valid(date)
    ensures DayNumber(NextDay(date)) == DayNumber(date) + 1
  {
    hide DaysFromCivil, YearStart;
    var next := NextDay(date);
    DaysByMarchYear(date.year, date.month, date.day);
    DaysByMarchYear(next.year, next.month, next.day);
    if date.day == MonthLength(date.year, date.month) {
      if date.month == 2 {
        YearLength(MarchYear(date));
      } else {
        MonthLengths(date.year, date.month);
      }
    }
  }

  lemma Epoch()
    ensures DayNumber(Date(1970, 1, 1)) == 0
  {
    DaysByMarchYear(1970, 1, 1);
  }

  // ---------------------------------------------------------------- back from day numbers

  /** civil_to_tm: year, month and day of a day number. */
  function YearOfEra(doe: nat): nat {
    (doe - doe / 1460 + doe / 36524 - doe / 146096) / 365
  }

  function CivilDate(dayNumber: int): Date {
    var days := dayNumber + 719468;
    var era := CDiv(if days >= 0 then days else days - 146096, 146097);
    var doe := days - era * 146097;
    EraOfDays(days);
    var yoe := YearOfEra(doe);
    var y := yoe + era * 400;
    var doy := doe - EraDays(yoe);
    var mp := (5 * doy + 2) / 153;
    var mday := doy - MonthStart(mp) + 1;
    var m := mp + (if mp < 10 then 3 else -9);
    Date(y + (if m <= 2 then 1 else 0), m, mday)
  }

  lemma EraOfDays(days: int)
    ensures var era := CDiv(if days >= 0 then days else days - 146096, 146097);
      era == days / 146097 && 0 <= days - era * 146097 < 146097
  {
  }

  /** Day doy of year yoe of a 400-year era, years and days counted from 1 March. */
  ghost predicate InEra(doe: int, yoe: int, doy: int) {
    && 0 <= yoe < 400 && 0 <= doy <= (if EndsLeap(yoe) then 365 else 364) && doe == EraDays(yoe) + doy
  }

  /** Centuries, four-year groups and years of a day of an era. */
  lemma EraParts(doe: int, c: int, q: int, r: int, doy: int)
    requires 0 <= c <= 3 && 0 <= q <= 24 && 0 <= r <= 3 && 0 <= doy <= 365
    requires doy == 365 ==> r == 3 && (q < 24 || c == 3)
    requires doe == 36524 * c + 1461 * q + 365 * r + doy
    ensures YearOfEra(doe) == 100 * c + 4 * q + r
  {
    var low := 24 * c + q + 365 * r + doy;
    var carry := if low >= 1460 then 1 else 0;
    assert doe == 1460 * (25 * c + q) + low;
    assert doe / 1460 == 25 * c + q + carry;
    assert 1461 * q + 365 * r + doy <= 36524;
    var last := if doe == 146096 then 1 else 0;
    assert doe / 36524 == c + last;
    assert doe / 146096 == last;
    var n := doe - doe / 1460 + doe / 36524 - doe / 146096;
    assert n == 365 * (100 * c + 4 * q + r) + (doy - carry);
  }

  /** The year-of-era formula is right on every day of the era. */
  lemma YearOfEraRight(doe: int, yoe: int, doy: int)
    requires InEra(doe, yoe, doy)
    ensures 0 <= doe < 146097 && YearOfEra(doe) == yoe
  {
    var c, q, r := yoe / 100, yoe % 100 / 4, yoe % 4;
    assert yoe == 100 * c + 4 * q + r && yoe / 4 == 25 * c + q && EraDays(yoe) == 36524 * c + 1461 * q + 365 * r;
    assert (yoe + 1) % 4 == 0 <==> r == 3;
    assert (yoe + 1) % 100 == 0 <==> q == 24 && r == 3;
    EraParts(doe, c, q, r, doy);
  }

  /** Every day of an era is in one of its years. */
  lemma EraSplits(doe: int) returns (yoe: int, doy: int)
    requires 0 <= doe < 146097
    ensures InEra(doe, yoe, doy)
  {
    var c := if doe == 146096 then 3 else doe / 36524;
    var e := doe - 36524 * c;
    var q := e / 1461;
    var f := e - 1461 * q;
    var r := if f == 1460 then 3 else f / 365;
    doy := f - 365 * r;
    yoe := 100 * c + 4 * q + r;
    assert yoe / 100 == c && yoe / 4 == 25 * c + q;
    assert (yoe + 1) % 4 == 0 <==> r == 3;
    assert (yoe + 1) % 100 == 0 <==> q == 24 && r == 3;
  }

  /** The month formula inverts MonthStart. */
  lemma MonthOfDay(mp: int, doy: int)
    requires 0 <= mp <= 11 && MonthStart(mp) <= doy <= 365 && (mp < 11 ==> doy < MonthStart(mp + 1))
    ensures (5 * doy + 2) / 153 == mp
  {
  }

  lemma MonthSplits(doy: int) returns (mp: int)
    requires 0 <= doy <= 365
    ensures 0 <= mp <= 11 && MonthStart(mp) <= doy && (mp < 11 ==> doy < MonthStart(mp + 1))
  {
    mp := (5 * doy + 2) / 153;
  }

  /** A date in terms of its era, year of era and day of March year. */
  lemma DateInEra(date: Date) returns (yoe: int, doy: int)
    requires Valid(date)
    ensures var y := MarchYear(date);
      && yoe == y % 400 && doy == MonthStart(MarchMonth(date)) + date.day - 1
      && 0 <= MarchMonth(date) <= 11 && (MarchMonth(date) < 11 ==> doy < MonthStart(MarchMonth(date) + 1))
      && InEra(EraDays(yoe) + doy, yoe, doy)
      && DayNumber(date) == 146097 * (y / 400) + (EraDays(yoe) + doy) - 719468
  {
    hide DaysFromCivil, YearStart, EraDays, EndsLeap, Leap;
    var y := MarchYear(date);
    yoe, doy := y % 400, MonthStart(MarchMonth(date)) + date.day - 1;
    DaysByMarchYear(date.year, date.month, date.day);
    EraOfYear(y);
    if date.month != 2 {
      MonthLengths(date.year, date.month);
    }
  }

  /** The date civil_to_tm computes for a day given by era, year of era, day of year and month. */
  lemma CivilDateIs(n: int, era: int, yoe: int, doy: int, mp: int)
    requires InEra(EraDays(yoe) + doy, yoe, doy) && n + 719468 == 146097 * era + EraDays(yoe) + doy
    requires 0 <= mp <= 11 && MonthStart(mp) <= doy && (mp < 11 ==> doy < MonthStart(mp + 1))
    ensures CivilDate(n) ==
      Date(yoe + 400 * era + (if mp < 10 then 0 else 1), if mp < 10 then mp + 3 else mp - 9, doy - MonthStart(mp) + 1)
  {
    hide YearOfEra, CDiv, EndsLeap, EraDays, MonthStart;
    var doe := EraDays(yoe) + doy;
    YearOfEraRight(doe, yoe, doy);
    EraOfDays(n + 719468);
    DivModUnique(n + 719468, 146097, era, doe);
    MonthOfDay(mp, doy);
  }

  /** civil_to_tm recovers year, month and day from the day number of every valid date. */
  lemma CivilOfDays(date: Date)
    requires Valid(date)
    ensures CivilDate(DayNumber(date)) == date
  {
    hide DaysFromCivil, CivilDate, InEra, EraDays, Leap;
    var yoe, doy := DateInEra(date);
    CivilDateIs(DayNumber(date), MarchYear(date) / 400, yoe, doy, MarchMonth(date));
  }

  /** The parts civil_to_tm computes: era, year of era, day of year and month. */
  lemma CivilParts(n: int) returns (era: int, yoe: int, doy: int, mp: int)
    ensures n + 719468 == 146097 * era + EraDays(yoe) + doy && InEra(EraDays(yoe) + doy, yoe, doy)
    ensures 0 <= mp <= 11 && MonthStart(mp) <= doy && (mp < 11 ==> doy < MonthStart(mp + 1))
    ensures CivilDate(n) ==
      Date(yoe + 400 * era + (if mp < 10 then 0 else 1), if mp < 10 then mp + 3 else mp - 9, doy - MonthStart(mp) + 1)
  {
    hide CivilDate, InEra, EraDays;
    era := (n + 719468) / 146097;
    yoe, doy := EraSplits(n + 719468 - era * 146097);
    InEraSum(n + 719468 - era * 146097, yoe, doy);
    mp := MonthSplits(doy);
    CivilDateIs(n, era, yoe, doy, mp);
  }

  lemma InEraSum(doe: int, yoe: int, doy: int)
    requires InEra(doe, yoe, doy)
    ensures doe == EraDays(yoe) + doy && 0 <= doy <= 365
  {
  }

  /** Every day number is that of the valid date civil_to_tm gives for it. */
  lemma DaysOfCivil(n: int)
    ensures Valid(CivilDate(n)) && DayNumber(CivilDate(n)) == n
  {
    hide DaysFromCivil, CivilDate, YearStart, EndsLeap, Leap, EraDays, MonthLength;
    var era, yoe, doy, mp := CivilParts(n);
    var y := yoe + 400 * era;
    DivModUnique(y, 400, era, yoe);
    DayWithinMonth(CivilDate(n), y, mp, yoe, doy);
    DaysByMarchYear(CivilDate(n).year, CivilDate(n).month, CivilDate(n).day);
    EraOfYear(y);
  }

  lemma DayWithinMonth(date: Date, y: int, mp: int, yoe: int, doy: int)
    requires 0 <= mp <= 11 && MonthStart(mp) <= doy && (mp < 11 ==> doy < MonthStart(mp + 1))
    requires yoe == y % 400 && InEra(EraDays(yoe) + doy, yoe, doy)
    requires date == Date(if mp < 10 then y else y + 1, if mp < 10 then mp + 3 else mp - 9, doy - MonthStart(mp) + 1)
    ensures Valid(date)
  {
    hide Leap, EndsLeap, EraDays;
    EraOfYear(y);
    if mp != 11 {
      MonthLengths(date.year, date.month);
    }
  }

  // ---------------------------------------------------------------- broken-down time

  datatype Tm = Tm(year: int, mon: int, mday: int, hour: int, min: int, sec: int, wday: int, yday: int)

  /** The conversion to a 32-bit int. */
  function ToInt32(x: int): int {
    (x + 0x8000_0000) % 0x1_0000_0000 - 0x8000_0000
  }

  predicate FitsInt32(x: int) {
    -0x8000_0000 <= x < 0x8000_0000
  }

  /** tm_wday of a day number, which civil_to_tm has by then shifted to count from 1 March of year 0. */
  function WeekDayField(dayNumber: int): int {
    CMod(dayNumber + 719468 + 4, 7)
  }

  /** tm_yday of a day number. */
  function YearDayField(dayNumber: int): int {
    var days := dayNumber + 719468;
    var doe := days - CDiv(if days >= 0 then days else days - 146096, 146097) * 146097;
    EraOfDays(days);
    doe - EraDays(YearOfEra(doe))
  }

  /** gmtime_r, without tm_isdst. */
  function GmTime(t: int): Tm {
    var days0, sod0 := CDiv(t, 86400), CMod(t, 86400);
    var days, sod := if sod0 < 0 then days0 - 1 else days0, if sod0 < 0 then sod0 + 86400 else sod0;
    var date := CivilDate(days);
    Tm(ToInt32(date.year - 1900), date.month - 1, date.day,
       CDiv(sod, 3600), CDiv(CMod(sod, 3600), 60), CMod(sod, 60), WeekDayField(days), YearDayField(days))
  }

  /** mktime */
  function MkTime(tm: Tm): int {
    DaysFromCivil(tm.year + 1900, Unsigned(Unsigned(tm.mon) + 1), Unsigned(tm.mday)) * 86400
      + tm.hour * 3600 + tm.min * 60 + tm.sec
  }

  /** The broken-down time of t is the date of its day and the time of day, also before 1970. */
  lemma GmTimeParts(t: int)
    ensures var tm := GmTime(t);
      var date := CivilDate(t / 86400);
      && Valid(date) && DayNumber(date) == t / 86400
      && tm.year == ToInt32(date.year - 1900) && tm.mon == date.month - 1 && tm.mday == date.day
      && 0 <= tm.hour < 24 && 0 <= tm.min < 60 && 0 <= tm.sec < 60
      && t == t / 86400 * 86400 + tm.hour * 3600 + tm.min * 60 + tm.sec
  {
    hide CivilDate, DaysFromCivil, CDiv, CMod, ToInt32, Leap;
    DaysOfCivil(t / 86400);
    SecondsSplit(t);
  }

  /** Days since Sunday: 1970-01-01 was a Thursday. */
  function WeekDay(dayNumber: int): int {
    (dayNumber + 4) % 7
  }

  /** Days since 1 January. */
  function YearDay(date: Date): int
    requires Valid(date)
  {
    DayNumber(date) - DayNumber(Date(date.year, 1, 1))
  }

  /** tm_wday is that of the next day, less 7 before the years the code counts from unless it is 0; it is
      never that of the day. */
  lemma WeekDayWrong(t: int)
    ensures var n, wday := t / 86400, GmTime(t).wday;
      && wday != WeekDay(n)
      && wday == if n >= -719472 || WeekDay(n + 1) == 0 then WeekDay(n + 1) else WeekDay(n + 1) - 7
  {
    hide CivilDate, WeekDayField, WeekDay;
    DayOfTime(t);
    WeekDayFieldIs(t / 86400);
  }

  lemma WeekDayFieldIs(n: int)
    ensures WeekDayField(n) != WeekDay(n)
    ensures WeekDayField(n) == if n >= -719472 || WeekDay(n + 1) == 0 then WeekDay(n + 1) else WeekDay(n + 1) - 7
  {
    var q, r := (n + 5) / 7, (n + 5) % 7;
    DivModUnique(n + 719472, 7, q + 102781, r);
    DivModUnique(-n - 719472, 7, if r == 0 then -q - 102781 else -q - 102782, if r == 0 then 0 else 7 - r);
    DivModUnique(n + 4, 7, if r == 0 then q - 1 else q, if r == 0 then 6 else r - 1);
  }

  /** tm_yday counts from the last 1 March; it is never the day of the year. */
  lemma YearDayWrong(t: int)
    ensures var date := CivilDate(t / 86400);
      && Valid(date)
      && GmTime(t).yday == t / 86400 - DayNumber(Date(MarchYear(date), 3, 1))
      && GmTime(t).yday != YearDay(date)
  {
    hide CivilDate, DaysFromCivil, YearOfEra, EraDays, Leap, InEra, MonthStart, YearStart;
    DayOfTime(t);
    var n := t / 86400;
    DaysOfCivil(n);
    var date := CivilDate(n);
    YearDayIs(n);
    DaysByMarchYear(MarchYear(date), 3, 1);
    DaysByMarchYear(date.year, 1, 1);
    MonthStarts();
    YearLength(date.year - 1);
  }

  lemma MonthStarts()
    ensures MonthStart(0) == 0 && MonthStart(10) == 306
  {
  }

  lemma YearDayIs(n: int)
    ensures YearDayField(n) == n + 719468 - YearStart(MarchYear(CivilDate(n)))
  {
    hide CivilDate, InEra, EraDays, YearOfEra, CDiv, Leap, EndsLeap, YearStart;
    var era, yoe, doy, mp := CivilParts(n);
    YearOfEraRight(EraDays(yoe) + doy, yoe, doy);
    EraOfDays(n + 719468);
    DivModUnique(n + 719468, 146097, era, EraDays(yoe) + doy);
    var y := yoe + 400 * era;
    assert MarchYear(CivilDate(n)) == y;
    YoeRange(EraDays(yoe) + doy, yoe, doy);
    DivModUnique(y, 400, era, yoe);
    EraOfYear(y);
  }

  lemma YoeRange(doe: int, yoe: int, doy: int)
    requires InEra(doe, yoe, doy)
    ensures 0 <= yoe < 400
  {
  }

  /** Seconds of the day, and hours, minutes and seconds of it. */
  lemma SecondsSplit(t: int)
    ensures var days0, sod0 := CDiv(t, 86400), CMod(t, 86400);
      var days, sod := if sod0 < 0 then days0 - 1 else days0, if sod0 < 0 then sod0 + 86400 else sod0;
      && days == t / 86400 && t == t / 86400 * 86400 + sod
      && sod == CDiv(sod, 3600) * 3600 + CDiv(CMod(sod, 3600), 60) * 60 + CMod(sod, 60)
      && 0 <= CDiv(sod, 3600) < 24 && 0 <= CDiv(CMod(sod, 3600), 60) < 60 && 0 <= CMod(sod, 60) < 60
  {
    DayOfTime(t);
    TimeOfDay(t % 86400);
  }

  lemma DayOfTime(t: int)
    ensures var days0, sod0 := CDiv(t, 86400), CMod(t, 86400);
      && (if sod0 < 0 then days0 - 1 else days0) == t / 86400
      && (if sod0 < 0 then sod0 + 86400 else sod0) == t % 86400
  {
  }

  lemma TimeOfDay(sod: int)
    requires 0 <= sod < 86400
    ensures sod == CDiv(sod, 3600) * 3600 + CDiv(CMod(sod, 3600), 60) * 60 + CMod(sod, 60)
    ensures 0 <= CDiv(sod, 3600) < 24 && 0 <= CDiv(CMod(sod, 3600), 60) < 60 && 0 <= CMod(sod, 60) < 60
  {
    var h, rest := sod / 3600, sod % 3600;
    assert CMod(sod, 3600) == rest;
    assert sod % 60 == rest % 60;
  }

  lemma YearStartIncreasing(y: int, z: int)
    requires y < z
    ensures YearStart(y) < YearStart(z)
  {
    var a, b := z / 100, y / 100;
    assert z / 4 - z / 100 >= y / 4 - y / 100 by {
      assert z / 4 == 25 * a + (z - 100 * a) / 4 && y / 4 == 25 * b + (y - 100 * b) / 4;
    }
  }

  lemma SmallFields(tm: Tm)
    requires 0 <= tm.mon < 12 && 1 <= tm.mday <= 31
    ensures MkTime(tm) ==
      DaysFromCivil(tm.year + 1900, tm.mon + 1, tm.mday) * 86400 + tm.hour * 3600 + tm.min * 60 + tm.sec
  {
    hide DaysFromCivil;
  }

  /** mktime undoes gmtime_r exactly when the year, counted from 1900, fits an int. */
  lemma UndoneIfYearFits(t: int)
    ensures MkTime(GmTime(t)) == t <==> FitsInt32(CivilDate(t / 86400).year - 1900)
  {
    hide CivilDate, DaysFromCivil, GmTime, YearStart, Unsigned;
    GmTimeParts(t);
    SmallFields(GmTime(t));
    var tm, date := GmTime(t), CivilDate(t / 86400);
    var year := tm.year + 1900;
    DaysByMarchYear(date.year, date.month, date.day);
    DaysByMarchYear(year, date.month, date.day);
    if year < date.year { YearStartIncreasing(year - 1, date.year - 1); YearStartIncreasing(year, date.year); }
    if date.year < year { YearStartIncreasing(date.year - 1, year - 1); YearStartIncreasing(date.year, year); }
  }

  lemma YearStartAtLeast(y: int, z: int)
    requires y <= z
    ensures YearStart(y) <= YearStart(z) && (y < z ==> YearStart(y) + 365 <= YearStart(z))
  {
    if y < z {
      YearLength(y);
      if y + 1 < z { YearStartIncreasing(y + 1, z); }
    }
  }

  /** A day is in year y or later exactly when it is not before 1 January of y. */
  lemma YearReached(n: int, y: int)
    ensures CivilDate(n).year >= y <==> n >= DayNumber(Date(y, 1, 1))
  {
    hide CivilDate, DaysFromCivil, YearStart, Leap;
    DaysOfCivil(n);
    var date := CivilDate(n);
    DaysByMarchYear(date.year, date.month, date.day);
    DaysByMarchYear(y, 1, 1);
    if date.year >= y { YearStartAtLeast(y - 1, MarchYear(date)); } else { YearStartAtLeast(MarchYear(date), y - 1); }
  }

  lemma JanuaryFirst(y: int)
    ensures DayNumber(Date(y, 1, 1)) == YearStart(y - 1) + 306 - 719468
  {
    hide DaysFromCivil, YearStart;
    DaysByMarchYear(y, 1, 1);
  }

  /** The first second of the year 1900 - 2^31, and that of the year 1900 + 2^31. */
  const FIRST_TIME: int := -67768040609740800
  const END_TIME: int := 67768036191676800

  lemma TimeLimits()
    ensures DayNumber(Date(1900 - 0x8000_0000, 1, 1)) * 86400 == FIRST_TIME
    ensures DayNumber(Date(1900 + 0x8000_0000, 1, 1)) * 86400 == END_TIME
  {
    hide DaysFromCivil;
    JanuaryFirst(1900 - 0x8000_0000);
    JanuaryFirst(1900 + 0x8000_0000);
    assert YearStart(1899 - 0x8000_0000) == -784351602710;
    assert YearStart(1899 + 0x8000_0000) == 784352989899;
  }

  /** mktime undoes gmtime_r exactly for the times whose year, counted from 1900, fits an int. */
  lemma MkTimeUndoesGmTime(t: int)
    ensures MkTime(GmTime(t)) == t <==> FIRST_TIME <= t < END_TIME
  {
    hide GmTime, MkTime, CivilDate, DaysFromCivil;
    UndoneIfYearFits(t);
    TimeLimits();
    YearReached(t / 86400, 1900 - 0x8000_0000);
    YearReached(t / 86400, 1900 + 0x8000_0000);
  }

  /** The first time past the range: its year wraps to the least int, and mktime gives another time. */
  lemma GmTimeOverflows()
    ensures GmTime(END_TIME).year == -0x8000_0000
    ensures MkTime(GmTime(END_TIME)) != END_TIME
  {
    hide GmTime, MkTime, DaysFromCivil, CivilDate;
    MkTimeUndoesGmTime(END_TIME);
    GmTimeParts(END_TIME);
    TimeLimits();
    CivilOfDays(Date(1900 + 0x8000_0000, 1, 1));
  }

  // ---------------------------------------------------------------- fields out of range

  /** The first day of the month the fields name: months run on into the years around. */
  function FirstOfMonth(tm: Tm): (first: Date)
    ensures Valid(first)
  {
    Date(tm.year + 1900 + tm.mon / 12, tm.mon % 12 + 1, 1)
  }

  /** The day the fields name: days run on into the months around. */
  function NamedDay(tm: Tm): int {
    DayNumber(FirstOfMonth(tm)) + tm.mday - 1
  }

  lemma UnsignedEquals(a: int, m: int, t: int)
    ensures Unsigned(a + m) == a + t <==> 0 <= a + t < 0x1_0000_0000 && (t - m) % 0x1_0000_0000 == 0
  {
    var q, r := (a + m) / 0x1_0000_0000, (a + m) % 0x1_0000_0000;
    assert t - m == 0x1_0000_0000 * -q + (a + t - r);
    if a + t == r { DivModUnique(t - m, 0x1_0000_0000, -q, 0); }
    if (t - m) % 0x1_0000_0000 == 0 && 0 <= a + t < 0x1_0000_0000 {
      DivModUnique(a + m, 0x1_0000_0000, -((t - m) / 0x1_0000_0000), a + t);
    }
  }

  /** The month as days_from_civil is given it. */
  function MonthArgument(mon: int): nat {
    Unsigned(Unsigned(mon) + 1)
  }

  lemma MonthArgumentIs(mon: int)
    requires FitsInt32(mon)
    ensures MonthArgument(mon) == if mon >= -1 then mon + 1 else mon + 1 + 0x1_0000_0000
  {
    if mon >= -1 { DivModUnique(Unsigned(mon) + 1, 0x1_0000_0000, if mon == -1 then 1 else 0, mon + 1); }
  }

  /** From -1 to 13 the month formula is right. */
  lemma MonthsRight(mon: int)
    requires -1 <= mon <= 13
    ensures MonthField(mon + 1) == MonthStart(if mon % 12 <= 1 then mon % 12 + 10 else mon % 12 - 2)
  {
  }

  lemma MonthFieldRange(m: nat)
    ensures MonthField(m) <= 858993459
  {
  }

  /** Between 1 March of two years, the later year first. */
  lemma {:induction false} YearsSpan(y: int, q: nat)
    ensures 365 * q <= YearStart(y + q) - YearStart(y) <= 366 * q
    decreases q
  {
    if q > 0 {
      hide YearStart, Leap;
      YearsSpan(y, q - 1);
      YearLength(y + q - 1);
      assert y + q - 1 + 1 == y + q;
    }
  }

  lemma FifthsApart(x: int, t: int)
    requires 5 <= x - 5 * t < 0x1_0000_0000
    ensures (t - Unsigned(x) / 5) % 0x1_0000_0000 != 0
  {
    var k, u := x / 0x1_0000_0000, Unsigned(x);
    assert x == 0x1_0000_0000 * k + u && 5 * (u / 5) <= u <= 5 * (u / 5) + 4;
  }

  /** From 14 up the month formula is too high, also modulo 2^32. */
  lemma MonthsBeyond(mp: nat, y: int)
    requires 12 <= mp < 0x8000_0000
    ensures var offset := YearStart(y + mp / 12) - YearStart(y) + MonthStart(mp % 12);
      (offset - Unsigned(153 * mp + 2) / 5) % 0x1_0000_0000 != 0
  {
    hide YearStart, Unsigned;
    var q, r := mp / 12, mp % 12;
    YearsSpan(y, q);
    var t := YearStart(y + q) - YearStart(y) + MonthStart(r);
    assert 153 * mp + 2 == 1836 * q + 153 * r + 2;
    FifthsApart(153 * mp + 2, t);
  }

  /** The months before -1 begin before the year the code counts them from. */
  lemma MonthsBefore(mp: int, y: int)
    requires mp < 0
    ensures YearStart(y + mp / 12) + MonthStart(mp % 12) < YearStart(y)
  {
    hide YearStart;
    YearsSpan(y + mp / 12, -(mp / 12));
    assert y + mp / 12 + -(mp / 12) == y;
  }

  lemma EraBegins(y: int)
    ensures DayNumber(Date(y / 400 * 400, 3, 1)) == 146097 * (y / 400) - 719468
  {
    hide DaysFromCivil, YearStart, Leap, EndsLeap;
    var era := y / 400;
    DaysByMarchYear(era * 400, 3, 1);
    DivModUnique(era * 400, 400, era, 0);
    EraOfYear(era * 400);
  }

  /** The year the code counts the months of the fields from. */
  function CountedFrom(tm: Tm): int {
    if -1 <= tm.mon <= 1 then tm.year + 1899 else tm.year + 1900
  }

  /** How far the month of the fields begins from 1 March of that year. */
  function MonthOffset(tm: Tm): int {
    YearStart(MarchYear(FirstOfMonth(tm))) + MonthStart(MarchMonth(FirstOfMonth(tm))) - YearStart(CountedFrom(tm))
  }

  lemma NamedDayIs(tm: Tm)
    ensures var y := CountedFrom(tm);
      && 0 <= y % 400 < 400 && 0 <= EraDays(y % 400) < 146097
      && NamedDay(tm) == 146097 * (y / 400) + EraDays(y % 400) + MonthOffset(tm) + tm.mday - 1 - 719468
  {
    hide DaysFromCivil, YearStart, EraDays, MonthStart;
    var first, y := FirstOfMonth(tm), CountedFrom(tm);
    DaysByMarchYear(first.year, first.month, 1);
    EraOfYear(y);
    EraDaysRange(y % 400);
  }

  lemma MkTimeDay(tm: Tm)
    requires FitsInt32(tm.mon)
    ensures var y, f := CountedFrom(tm), MonthField(MonthArgument(tm.mon));
      && 0 <= y % 400 < 400
      && MkTime(tm) ==
           (146097 * (y / 400) + Unsigned(EraDays(y % 400) + tm.mday - 1 + f) - 719468) * 86400
             + tm.hour * 3600 + tm.min * 60 + tm.sec
  {
    hide DaysFromCivil, Unsigned, EraDays, MonthField;
    var y, m := CountedFrom(tm), MonthArgument(tm.mon);
    MonthArgumentIs(tm.mon);
    DaysByEra(tm.year + 1900, m, Unsigned(tm.mday));
    UnsignedSum(EraDays(y % 400) + MonthField(m) - 1, tm.mday);
  }

  /** Months counted from the March of the year. */
  lemma OffsetByMonths(tm: Tm)
    requires !(-1 <= tm.mon <= 1)
    ensures var y, mp := CountedFrom(tm), tm.mon - 2;
      MonthOffset(tm) == YearStart(y + mp / 12) - YearStart(y) + MonthStart(mp % 12)
  {
    hide YearStart, MonthStart;
    var r := tm.mon % 12;
    DivModUnique(tm.mon - 2, 12, if r >= 2 then tm.mon / 12 else tm.mon / 12 - 1, if r >= 2 then r - 2 else r + 10);
  }

  lemma MonthFieldIs(mon: int)
    requires 2 <= mon < 0x8000_0000
    ensures MonthField(mon + 1) == Unsigned(153 * (mon - 2) + 2) / 5
  {
    UnsignedFits(mon - 2);
  }

  /** mktime gives the time its fields name, whatever the time of day, exactly for months from -1 to 13 and
      days not before the 1 March that begins the 400-year era of the month. */
  lemma MkTimeNormalises(tm: Tm)
    requires FitsInt32(tm.mon) && FitsInt32(tm.mday)
    ensures MkTime(tm) == NamedDay(tm) * 86400 + tm.hour * 3600 + tm.min * 60 + tm.sec <==>
      && -1 <= tm.mon <= 13
      && NamedDay(tm) >= DayNumber(Date(MarchYear(FirstOfMonth(tm)) / 400 * 400, 3, 1))
  {
    hide MkTime, NamedDay, Unsigned, YearStart, EraDays, DayNumber;
    var y, m, f, t := CountedFrom(tm), MonthArgument(tm.mon), MonthField(MonthArgument(tm.mon)), MonthOffset(tm);
    MkTimeDay(tm);
    NamedDayIs(tm);
    UnsignedEquals(EraDays(y % 400) + tm.mday - 1, f, t);
    MonthArgumentIs(tm.mon);
    if -1 <= tm.mon <= 13 {
      MonthsRight(tm.mon);
      EraBegins(y);
      MonthFieldRange(m);
      assert t == f;
    } else if tm.mon >= 14 {
      OffsetByMonths(tm);
      MonthFieldIs(tm.mon);
      MonthsBeyond(tm.mon - 2, y);
    } else {
      OffsetByMonths(tm);
      MonthFieldRange(m);
      MonthsBefore(tm.mon - 2, y);
    }
  }

  /** The day of the month is wrong by as many days as the wrapped sum is. */
  lemma MkTimeError(tm: Tm)
    requires FitsInt32(tm.mon)
    ensures var y, f := CountedFrom(tm), MonthField(MonthArgument(tm.mon));
      && 0 <= y % 400 < 400
      && var a := EraDays(y % 400) + tm.mday - 1;
      MkTime(tm) ==
        (NamedDay(tm) + Unsigned(a + f) - (a + MonthOffset(tm))) * 86400 + tm.hour * 3600 + tm.min * 60 + tm.sec
  {
    hide MkTime, NamedDay, Unsigned, EraDays, MonthOffset, MonthField, MonthArgument;
    MkTimeDay(tm);
    NamedDayIs(tm);
  }

  /** March as month 14 of the year before comes out a day or two late. */
  lemma MonthFourteenLate(tm: Tm)
    requires tm.mon == 14 && 1 <= tm.mday <= 31
    ensures var late := if Leap(tm.year + 1901) then 1 else 2;
      MkTime(tm) == (NamedDay(tm) + late) * 86400 + tm.hour * 3600 + tm.min * 60 + tm.sec
  {
    hide MkTime, NamedDay, Unsigned, EraDays, MonthOffset, YearStart, Leap;
    var y := CountedFrom(tm);
    MkTimeError(tm);
    MonthArgumentIs(14);
    MonthFieldIs(14);
    UnsignedFits(153 * 12 + 2);
    OffsetByMonths(tm);
    YearLength(y);
    NamedDayIs(tm);
    UnsignedFits(EraDays(y % 400) + tm.mday - 1 + 367);
  }

  /** Day 0 of March, the last of February, comes out 2^32 days late in the years that begin an era. */
  lemma DayZeroLate(tm: Tm)
    requires tm.mon == 2 && tm.mday == 0 && (tm.year + 1900) % 400 == 0
    ensures MkTime(tm) == (NamedDay(tm) + 0x1_0000_0000) * 86400 + tm.hour * 3600 + tm.min * 60 + tm.sec
  {
    hide MkTime, NamedDay, YearStart, EraDays, Unsigned, MonthStart, MonthField, MonthOffset;
    MkTimeError(tm);
    OffsetByMonths(tm);
    MonthArgumentIs(2);
    MonthsRight(2);
    Zeros();
    UnsignedBelow(EraDays(0) - 1 + MonthStart(0));
  }

  lemma Zeros()
    ensures EraDays(0) == 0 && MonthStart(0) == 0
  {
  }

  lemma UnsignedBelow(x: int)
    requires -0x1_0000_0000 <= x < 0
    ensures Unsigned(x) == x + 0x1_0000_0000
  {
    DivModUnique(x, 0x1_0000_0000, -1, x + 0x1_0000_0000);
  }
}
