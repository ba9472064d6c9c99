/** Unix seconds to civil UTC time, with the machine integers of `civil_from_unix`. Every
    intermediate value is typed, so verifying `CivilFromUnix` is the proof that none
    of them overflows. */
module CivilTime {
  import opened Text

  newtype u32 = x: int | 0 <= x < 0x1_0000_0000
  newtype i64 = x: int | -0x8000_0000_0000_0000 <= x < 0x8000_0000_0000_0000

  datatype Civil = Civil(year: i64, month: u32, day: u32, hour: u32, minute: u32, second: u32)

  // ----- the reference calendar (RFC 3339, section 5.7) -----

  datatype Date = Date(year: int, month: int, day: int)

  predicate LeapYear(y: int) {
    y % 4 == 0 && (y % 100 != 0 || y % 400 == 0)
  }

  function DaysInMonth(y: int, m: int): int {
    if m == 2 then (if LeapYear(y) then 29 else 28)
    else if m == 4 || m == 6 || m == 9 || m == 11 then 30
    else 31
  }

  predicate ValidDate(d: Date) {
    1 <= d.month <= 12 && 1 <= d.day <= DaysInMonth(d.year, d.month)
  }

  function NextDay(d: Date): Date {
    if d.day < DaysInMonth(d.year, d.month) then d.(day := d.day + 1)
    else if d.month < 12 then Date(d.year, d.month + 1, 1)
    else Date(d.year + 1, 1, 1)
  }

  function DaysBeforeYear(y: int): nat
    requires y >= 1970
  {
    if y == 1970 then 0 else DaysBeforeYear(y - 1) + (if LeapYear(y - 1) then 366 else 365)
  }

  function DaysBeforeMonth(y: int, m: int): nat
    requires 1 <= m <= 13
  {
    if m == 1 then 0 else DaysBeforeMonth(y, m - 1) + DaysInMonth(y, m - 1)
  }

  /** Days since 1970-01-01, counted year by year and month by month. */
  function DayNumber(d: Date): nat
    requires d.year >= 1970 && ValidDate(d)
  {
    DaysBeforeYear(d.year) + DaysBeforeMonth(d.year, d.month) + (d.day - 1)
  }

  // ----- the conversion -----

  /** The 400-year era of a shifted day number. Rust's `/` truncates toward zero; the
      subtraction turns it into a floor, so the day of the era is never negative. */
  function Era(z: i64): (era: i64)
    requires z >= -0x8000_0000_0000_0000 + 146_097
    ensures era as int * 146_097 <= z as int < era as int * 146_097 + 146_097
  {
    var n := if z >= 0 then z else z - 146_096;
    if n >= 0 then n / 146_097 else -((-n) / 146_097)
  }

  /** Days of the first `y` years that start on 1 March, counted from 1 March of year 0. */
  function MarchDays(y: nat): nat {
    if y == 0 then 0 else MarchDays(y - 1) + (if LeapYear(y) then 366 else 365)
  }

  lemma {:induction false} MarchClosedForm(y: nat)
    ensures MarchDays(y) == 365 * y + y / 4 - y / 100 + y / 400
  {
    if y > 0 {
      MarchClosedForm(y - 1);
      FloorStep(y, 4);
      FloorStep(y, 100);
      FloorStep(y, 400);
      LeapNesting(y);
    }
  }

  lemma LeapNesting(y: int)
    ensures y % 400 == 0 ==> y % 100 == 0
    ensures y % 100 == 0 ==> y % 4 == 0
  {
    assert y == 400 * (y / 400) + y % 400 && y == 100 * (y / 100) + y % 100;
    if y % 400 == 0 { DivIs(y, 100, 4 * (y / 400)); }
    if y % 100 == 0 { DivIs(y, 4, 25 * (y / 100)); }
  }

  lemma FloorStep(y: int, k: int)
    requires k > 1
    ensures y / k == (y - 1) / k + (if y % k == 0 then 1 else 0)
  {
    var q := y / k;
    assert y == k * q + y % k;
    DivIs(y - 1, k, if y % k == 0 then q - 1 else q);
  }

  /** The calendar repeats every 400 years. */
  lemma {:induction false} MarchEras(y: nat, e: nat)
    ensures MarchDays(y + 400 * e) == MarchDays(y) + 146_097 * e
  {
    MarchClosedForm(y);
    MarchClosedForm(y + 400 * e);
    DivIs(y + 400 * e, 4, y / 4 + 100 * e);
    DivIs(y + 400 * e, 100, y / 100 + 4 * e);
    DivIs(y + 400 * e, 400, y / 400 + e);
  }

  lemma DivIs(n: int, d: int, q: int)
    requires d > 0 && d * q <= n < d * q + d
    ensures n / d == q
  {
    var k := n / d;
    assert n == d * k + n % d;
    MulMonotone(d, k + 1, q);
    MulMonotone(d, q + 1, k);
    assert d * (k + 1) == d * k + d && d * (q + 1) == d * q + d;
  }

  lemma RemainderIs(n: int, d: int, q: int)
    requires d > 0 && d * q <= n < d * q + d
    ensures n % d == n - d * q
  {
    DivIs(n, d, q);
  }

  lemma MulMonotone(d: int, a: int, b: int)
    requires d > 0
    ensures a <= b ==> d * a <= d * b
  {
    if a <= b {
      assert d * b - d * a == d * (b - a);
    }
  }

  /** A day of an era is a century, a 4-year cycle, a year and a day of that year. */
  lemma EraSplit(doe: int) returns (c: int, q: int, a: int, d: int)
    requires 0 <= doe < 146_097
    ensures doe == 36_524 * c + 1461 * q + 365 * a + d
    ensures 0 <= c < 4 && 0 <= q < 25 && 0 <= a < 4 && 0 <= d <= 365
    ensures d == 365 ==> a == 3
    ensures d == 365 && q == 24 ==> c == 3
  {
    c := if doe / 36_524 < 4 then doe / 36_524 else 3;
    var r := doe - 36_524 * c;
    q := r / 1461;
    var r2 := r % 1461;
    a := if r2 / 365 < 4 then r2 / 365 else 3;
    d := r2 - 365 * a;
  }

  lemma SplitYearStart(c: int, q: int, a: int)
    requires 0 <= c < 4 && 0 <= q < 25 && 0 <= a < 4
    ensures MarchDays(100 * c + 4 * q + a) == 36_524 * c + 1461 * q + 365 * a
  {
    var y := 100 * c + 4 * q + a;
    MarchClosedForm(y);
    DivIs(y, 4, 25 * c + q);
    DivIs(y, 100, c);
    DivIs(y, 400, 0);
  }

  lemma SplitYearLeap(c: int, q: int, a: int)
    requires 0 <= c < 4 && 0 <= q < 25 && 0 <= a < 4
    ensures LeapYear(100 * c + 4 * q + a + 1) <==> a == 3 && (q < 24 || c == 3)
  {
    var n := 100 * c + 4 * q + a + 1;
    if a < 3 {
      RemainderIs(n, 4, 25 * c + q);
    } else if q < 24 {
      RemainderIs(n, 4, 25 * c + q + 1);
      RemainderIs(n, 100, c);
    } else {
      RemainderIs(n, 100, c + 1);
      RemainderIs(n, 4, 25 * (c + 1));
      RemainderIs(n, 400, if c == 3 then 1 else 0);
    }
  }

  /** The three corrections turn a day of the era into 365 days a year. */
  lemma Corrected(doe: int, c: int, q: int, a: int, d: int)
    requires doe == 36_524 * c + 1461 * q + 365 * a + d
    requires 0 <= c < 4 && 0 <= q < 25 && 0 <= a < 4 && 0 <= d <= 365
    requires d == 365 ==> a == 3
    requires d == 365 && q == 24 ==> c == 3
    ensures 0 <= doe - doe / 1460 + doe / 36_524 - doe / 146_096
    ensures (doe - doe / 1460 + doe / 36_524 - doe / 146_096) / 365 == 100 * c + 4 * q + a
  {
    var last := if doe == 146_096 then 1 else 0;
    var e := if 24 * c + q + 365 * a + d >= 1460 then 1 else 0;
    DivIs(doe, 36_524, c + last);
    DivIs(doe, 146_096, last);
    DivIs(doe, 1460, 25 * c + q + e);
    var n := doe - doe / 1460 + doe / 36_524 - doe / 146_096;
    assert n == 365 * (100 * c + 4 * q + a) + (d - e);
    DivIs(n, 365, 100 * c + 4 * q + a);
  }

  /** The division chain finds the March-based year the day belongs to. */
  function YearOfEra(doe: i64): (yoe: i64)
    requires 0 <= doe < 146_097
    ensures 0 <= yoe < 400
    ensures MarchDays(yoe as int) <= doe as int < MarchDays(yoe as int + 1)
  {
    YearOfEraCorrect(doe as int);
    (doe - doe / 1460 + doe / 36_524 - doe / 146_096) / 365
  }

  lemma YearOfEraCorrect(doe: int)
    requires 0 <= doe < 146_097
    ensures 0 <= doe - doe / 1460 + doe / 36_524 - doe / 146_096
    ensures var yoe := (doe - doe / 1460 + doe / 36_524 - doe / 146_096) / 365;
            0 <= yoe < 400 && MarchDays(yoe) <= doe < MarchDays(yoe + 1)
  {
    var c, q, a, d := EraSplit(doe);
    Corrected(doe, c, q, a, d);
    SplitYearStart(c, q, a);
    SplitYearLeap(c, q, a);
  }

  /** The day of the March-based year, 0 for 1 March. */
  function DayOfYear(doe: i64, yoe: i64): (doy: i64)
    requires 0 <= yoe < 400
    requires MarchDays(yoe as int) <= doe as int < MarchDays(yoe as int + 1)
    ensures 0 <= doy <= 365 && doy as int == doe as int - MarchDays(yoe as int)
  {
    YearStart(yoe as int);
    doe - (365 * yoe + yoe / 4 - yoe / 100)
  }

  lemma YearStart(yoe: nat)
    requires 0 <= yoe < 400
    ensures MarchDays(yoe) == 365 * yoe + yoe / 4 - yoe / 100
  {
    DivIs(yoe, 400, 0);
    MarchClosedForm(yoe);
  }

  /** Month (1 to 12) and day of the month of a March-based day of the year. */
  function MonthAndDay(doy: i64): (r: (u32, u32))
    requires 0 <= doy <= 365
    ensures 1 <= r.0 <= 12 && 1 <= r.1 <= 31
  {
    var mp := (5 * doy + 2) / 153;
    var d := (doy - (153 * mp + 2) / 5 + 1) as u32;
    var mo := (if mp < 10 then mp + 3 else mp - 9) as u32;
    (mo, d)
  }

  /** The March-based year and the day of it, by era, year of era and day of year. */
  function MarchDate(days: i64): (r: (i64, i64))
    requires 0 <= days < 0x1_0000_0000_0000
    ensures 0 <= r.1 <= 365
    ensures 0 <= r.0 < 0x2_0000_0000_0000
    ensures MarchDays(r.0 as int) + r.1 as int == days as int + 719_468 < MarchDays(r.0 as int + 1)
  {
    var z := days + 719_468;
    var era := Era(z);
    var doe := z - era * 146_097;
    var yoe := YearOfEra(doe);
    var y := yoe + era * 400;
    var doy := DayOfYear(doe, yoe);
    assert MarchDays(y as int) + doy as int == z as int < MarchDays(y as int + 1) by {
      EraOffset(era as int, yoe as int, doe as int);
    }
    (y, doy)
  }

  function CivilFromDays(days: i64): (r: (i64, u32, u32))
    requires 0 <= days < 0x1_0000_0000_0000
  {
    var (y, doy) := MarchDate(days);
    var (mo, d) := MonthAndDay(doy);
    (if mo <= 2 then y + 1 else y, mo, d)
  }

  /** src/handler_util.rs, `civil_from_unix`. */
  function CivilFromUnix(secs: u64): (r: Civil)
    ensures r.year >= 0
  {
    var days := (secs / 86_400) as i64;
    var rem := (secs % 86_400) as u32;
    var (y, mo, d) := CivilFromDays(days);
    Civil(y, mo, d, rem / 3600, (rem % 3600) / 60, rem % 60)
  }

  function DateOf(c: Civil): Date {
    Date(c.year as int, c.month as int, c.day as int)
  }

  // ----- the reference calendar in closed form -----

  lemma {:induction false} YearsInClosedForm(y: int)
    requires y >= 1970
    ensures DaysBeforeYear(y) == MarchDays(y - 1) + 306 - 719_468
  {
    if y == 1970 {
      MarchClosedForm(1969);
    } else {
      YearsInClosedForm(y - 1);
    }
  }

  lemma MonthsInClosedForm(y: int, m: int)
    requires 1 <= m <= 13
    ensures DaysBeforeMonth(y, m) ==
            if m <= 2 then 31 * (m - 1)
            else (153 * (m - 3) + 2) / 5 + (if LeapYear(y) then 60 else 59)
  {
    if m > 1 {
      MonthsInClosedForm(y, m - 1);
    }
  }

  // ----- the main results -----

  /** The date is a real one and counting its days in the calendar gives back the
      day the seconds fall in; the time of day recomposes the rest. */
  lemma CivilCountsDays(secs: u64)
    ensures var c := CivilFromUnix(secs);
            && c.year >= 1970
            && ValidDate(DateOf(c))
            && DayNumber(DateOf(c)) == secs as int / 86_400
            && c.hour < 24 && c.minute < 60 && c.second < 60
            && c.hour as int * 3600 + c.minute as int * 60 + c.second as int == secs as int % 86_400
  {
    var days := (secs / 86_400) as i64;
    CivilDateCountsDays(days);
    TimeOfDay((secs % 86_400) as u32);
    var (y, mo, d) := CivilFromDays(days);
    assert DateOf(CivilFromUnix(secs)) == Date(y as int, mo as int, d as int);
  }

  lemma TimeOfDay(rem: u32)
    requires rem < 86_400
    ensures rem / 3600 < 24 && (rem % 3600) / 60 < 60 && rem % 60 < 60
    ensures rem as int == (rem / 3600) as int * 3600 + ((rem % 3600) / 60) as int * 60 + (rem % 60) as int
  {
    assert (rem % 3600) % 60 == rem % 60;
  }

  lemma CivilDateCountsDays(days: i64)
    requires 0 <= days < 0x1_0000_0000_0000
    ensures var (y, m, d) := CivilFromDays(days);
            var date := Date(y as int, m as int, d as int);
            y >= 1970 && ValidDate(date) && DayNumber(date) == days as int
  {
    var (y, doy) := MarchDate(days);
    var (m, d) := MonthAndDay(doy);
    MonthAndDayCountsDays(y as int, doy as int);
  }

  lemma EraOffset(era: nat, yoe: nat, doe: nat)
    requires MarchDays(yoe) <= doe < MarchDays(yoe + 1)
    ensures var y := yoe + 400 * era;
            MarchDays(y) + (doe - MarchDays(yoe)) == doe + era * 146_097 < MarchDays(y + 1)
  {
    MarchEras(yoe, era);
    MarchEras(yoe + 1, era);
  }

  /** The month arithmetic against the month lengths, for a day of the March year `y`. */
  lemma MonthAndDayCountsDays(y: nat, doy: nat)
    requires 0 <= doy <= 365 && MarchDays(y) + doy < MarchDays(y + 1)
    requires MarchDays(y) + doy >= 719_468
    ensures var (m, d) := MonthAndDay(doy as i64);
            var date := Date(if m <= 2 then y + 1 else y, m as int, d as int);
            && date.year >= 1970 && ValidDate(date)
            && DayNumber(date) == MarchDays(y) + doy - 719_468
  {
    hide MonthAndDay, DaysBeforeMonth;
    MarchClosedForm(1969);
    MarchMonotone(y + 1, 1969);
    MonthLengths(y, doy);
    var (m, d) := MonthAndDay(doy as i64);
    YearsInClosedForm(if m <= 2 then y + 1 else y);
  }

  lemma MonthLengths(y: int, doy: int)
    requires 0 <= doy < (if LeapYear(y + 1) then 366 else 365)
    ensures var (m, d) := MonthAndDay(doy as i64);
            var date := Date(if m <= 2 then y + 1 else y, m as int, d as int);
            && ValidDate(date)
            && (m <= 2 <==> doy >= 306)
            && DaysBeforeMonth(date.year, date.month) + date.day - 1 ==
               if m <= 2 then doy - 306 else doy + (if LeapYear(y) then 60 else 59)
  {
    var (m, d) := MonthAndDay(doy as i64);
    MonthsInClosedForm(if m <= 2 then y + 1 else y, m as int);
  }

  // ----- the inverse and the successor -----

  lemma {:induction false} YearsMonotone(a: int, b: int)
    requires 1970 <= a < b
    ensures DaysBeforeYear(a) + (if LeapYear(a) then 366 else 365) <= DaysBeforeYear(b)
  {
    if a + 1 < b {
      YearsMonotone(a, b - 1);
    }
  }

  lemma {:induction false} MonthsMonotone(y: int, a: int, b: int)
    requires 1 <= a < b <= 13
    ensures DaysBeforeMonth(y, a) + DaysInMonth(y, a) <= DaysBeforeMonth(y, b)
  {
    if a + 1 < b {
      MonthsMonotone(y, a, b - 1);
    }
  }

  predicate DateLess(a: Date, b: Date) {
    a.year < b.year || (a.year == b.year && (a.month < b.month || (a.month == b.month && a.day < b.day)))
  }

  /** A later date has a larger day number. */
  lemma DayNumberMonotone(a: Date, b: Date)
    requires ValidDate(a) && ValidDate(b) && a.year >= 1970 && b.year >= 1970
    requires DateLess(a, b)
    ensures DayNumber(a) < DayNumber(b)
  {
    MonthsMonotone(a.year, a.month, 13);
    MonthsInClosedForm(a.year, 13);
    if a.year < b.year {
      YearsMonotone(a.year, b.year);
    } else if a.month < b.month {
      MonthsMonotone(a.year, a.month, b.month);
    }
  }

  lemma DayNumberInjective(a: Date, b: Date)
    requires ValidDate(a) && ValidDate(b) && a.year >= 1970 && b.year >= 1970
    requires DayNumber(a) == DayNumber(b)
    ensures a == b
  {
    if DateLess(a, b) {
      DayNumberMonotone(a, b);
    } else if DateLess(b, a) {
      DayNumberMonotone(b, a);
    }
  }

  /** Every calendar date from 1970 on is the answer for each second of its own day. */
  lemma DateIsRecovered(date: Date, tod: int)
    requires ValidDate(date) && date.year >= 1970
    requires 0 <= tod < 86_400 && DayNumber(date) * 86_400 + tod < 0x1_0000_0000_0000_0000
    ensures DateOf(CivilFromUnix((DayNumber(date) * 86_400 + tod) as u64)) == date
  {
    hide CivilFromUnix, ValidDate;
    var secs := (DayNumber(date) * 86_400 + tod) as u64;
    CivilCountsDays(secs);
    DivIs(secs as int, 86_400, DayNumber(date));
    DayNumberInjective(DateOf(CivilFromUnix(secs)), date);
  }

  lemma NextDayNumber(d: Date)
    requires ValidDate(d) && d.year >= 1970
    ensures ValidDate(NextDay(d)) && NextDay(d).year >= 1970
    ensures DayNumber(NextDay(d)) == DayNumber(d) + 1
  {
    MonthsInClosedForm(d.year, 13);
  }

  /** The calendar turned over one day at a time from 1 January 1970. */
  function DayByDay(n: nat): Date {
    if n == 0 then Date(1970, 1, 1) else NextDay(DayByDay(n - 1))
  }

  lemma {:induction false} DayByDayCounts(n: nat)
    ensures var d := DayByDay(n); ValidDate(d) && d.year >= 1970 && DayNumber(d) == n
  {
    if n > 0 {
      DayByDayCounts(n - 1);
      NextDayNumber(DayByDay(n - 1));
    }
  }

  /** The division chain finds for every second the date that turning the calendar over once
      a day arrives at. */
  lemma AgreesWithDayByDay(secs: u64)
    ensures DateOf(CivilFromUnix(secs)) == DayByDay(secs as int / 86_400)
  {
    hide CivilFromUnix, ValidDate, DayNumber, DayByDay;
    CivilCountsDays(secs);
    DayByDayCounts(secs as int / 86_400);
    DayNumberInjective(DateOf(CivilFromUnix(secs)), DayByDay(secs as int / 86_400));
  }

  /** One day later is the next calendar day at the same time of day. */
  lemma NextDayFollows(secs: u64)
    requires secs as int + 86_400 < 0x1_0000_0000_0000_0000
    ensures var c, n := CivilFromUnix(secs), CivilFromUnix(secs + 86_400);
            && DateOf(n) == NextDay(DateOf(c))
            && n.hour == c.hour && n.minute == c.minute && n.second == c.second
  {
    var c, n := CivilFromUnix(secs), CivilFromUnix(secs + 86_400);
    CivilCountsDays(secs);
    CivilCountsDays(secs + 86_400);
    var q, r := secs as int / 86_400, secs as int % 86_400;
    DivIs(secs as int + 86_400, 86_400, q + 1);
    assert (secs as int + 86_400) % 86_400 == r;
    NextDayNumber(DateOf(c));
    DayNumberInjective(DateOf(n), NextDay(DateOf(c)));
  }

  lemma {:induction false} MarchMonotone(a: nat, b: nat)
    ensures a <= b ==> MarchDays(a) <= MarchDays(b)
    decreases b
  {
    if a < b {
      MarchMonotone(a, b - 1);
    }
  }

  // ----- the two renderings (shape of RFC 3339, section 5.6) -----

  const WIDTHS: seq<nat> := [4, 2, 2, 2, 2, 2]
  const ISO: seq<string> := ["-", "-", "T", ":", ":", "Z"]
  const COMPACT: seq<string> := ["", "", "-", "", "", ""]

  function Fields(c: Civil): (f: seq<nat>)
    requires c.year >= 0
    ensures |f| == 6
  {
    [c.year as nat, c.month as nat, c.day as nat, c.hour as nat, c.minute as nat, c.second as nat]
  }

  /** Zero-padded fields, each followed by its separator. */
  function Layout(fields: seq<nat>, widths: seq<nat>, seps: seq<string>): string
    requires |fields| == |widths| == |seps|
  {
    if fields == [] then ""
    else ZeroPad(widths[0], Decimal(fields[0])) + seps[0] + Layout(fields[1..], widths[1..], seps[1..])
  }

  function FormatIso8601Utc(secs: u64): string {
    Layout(Fields(CivilFromUnix(secs)), WIDTHS, ISO)
  }

  function FormatCompactUtc(secs: u64): string {
    Layout(Fields(CivilFromUnix(secs)), WIDTHS, COMPACT)
  }

  /** A number in at least `w` digits. */
  function Padded(w: nat, n: nat): string {
    ZeroPad(w, Decimal(n))
  }

  lemma LayoutOfSix(f: seq<nat>, widths: seq<nat>, seps: seq<string>)
    requires |f| == |widths| == |seps| == 6
    ensures Layout(f, widths, seps) ==
            Padded(widths[0], f[0]) + seps[0] + (Padded(widths[1], f[1]) + seps[1]
            + (Padded(widths[2], f[2]) + seps[2] + (Padded(widths[3], f[3]) + seps[3]
            + (Padded(widths[4], f[4]) + seps[4] + (Padded(widths[5], f[5]) + seps[5])))))
  {
    hide Layout, Padded;
    LayoutTail(f, widths, seps, 0);
    LayoutTail(f, widths, seps, 1);
    LayoutTail(f, widths, seps, 2);
    LayoutTail(f, widths, seps, 3);
    LayoutTail(f, widths, seps, 4);
    LayoutTail(f, widths, seps, 5);
    assert f[0..] == f && widths[0..] == widths && seps[0..] == seps;
  }

  lemma LayoutTail(f: seq<nat>, widths: seq<nat>, seps: seq<string>, i: nat)
    requires i < |f| == |widths| == |seps|
    ensures Layout(f[i..], widths[i..], seps[i..]) ==
            Padded(widths[i], f[i]) + seps[i] + Layout(f[i + 1..], widths[i + 1..], seps[i + 1..])
    ensures i + 1 == |f| ==> Layout(f[i + 1..], widths[i + 1..], seps[i + 1..]) == ""
  {
    hide ZeroPad, Decimal;
    assert f[i..][1..] == f[i + 1..] && widths[i..][1..] == widths[i + 1..] && seps[i..][1..] == seps[i + 1..];
  }

  /** What the two formats print at every second: the date that turning the calendar over day by
      day arrives at, and the time of day, year first, in at least four and two digits. */
  lemma FormatsPrint(secs: u64)
    ensures var d, tod := DayByDay(secs as int / 86_400), secs as int % 86_400;
            d.year >= 0 && d.month >= 0 && d.day >= 0 &&
            var year, month, day := Padded(4, d.year), Padded(2, d.month), Padded(2, d.day);
            var hour, minute, second := Padded(2, tod / 3600), Padded(2, tod / 60 % 60), Padded(2, tod % 60);
            && FormatIso8601Utc(secs) ==
               year + "-" + (month + "-" + (day + "T" + (hour + ":" + (minute + ":" + (second + "Z")))))
            && FormatCompactUtc(secs) ==
               year + (month + (day + "-" + (hour + (minute + second))))
  {
    hide DayByDay, CivilFromUnix, Padded, Layout, DayNumber;
    AgreesWithDayByDay(secs);
    CivilCountsDays(secs);
    var c := CivilFromUnix(secs);
    TimeParts(c.hour as int, c.minute as int, c.second as int);
    LayoutOfSix(Fields(c), WIDTHS, ISO);
    LayoutOfSix(Fields(c), WIDTHS, COMPACT);
    assert forall s: string :: s + "" == s;
  }

  lemma TimeParts(h: int, m: int, s: int)
    requires 0 <= h && 0 <= m < 60 && 0 <= s < 60
    ensures var tod := h * 3600 + m * 60 + s; tod / 3600 == h && tod / 60 % 60 == m && tod % 60 == s
  {
    assert (h * 3600 + m * 60 + s) / 60 == h * 60 + m;
  }

  predicate FieldsLess(f: seq<nat>, g: seq<nat>)
    requires |f| == |g|
  {
    f != [] && (f[0] < g[0] || (f[0] == g[0] && FieldsLess(f[1..], g[1..])))
  }

  /** Strings of one layout sort as their fields do, when every field fits its width. */
  lemma {:induction false} LayoutOrder(f: seq<nat>, g: seq<nat>, widths: seq<nat>, seps: seq<string>)
    requires |f| == |g| == |widths| == |seps|
    requires forall i :: 0 <= i < |f| ==> widths[i] > 0 && f[i] < Pow10(widths[i]) && g[i] < Pow10(widths[i])
    requires FieldsLess(f, g)
    ensures LexLess(Layout(f, widths, seps), Layout(g, widths, seps))
  {
    var a, b := ZeroPad(widths[0], Decimal(f[0])), ZeroPad(widths[0], Decimal(g[0]));
    PaddedIsFixed(widths[0], f[0]);
    PaddedIsFixed(widths[0], g[0]);
    var c, d := Layout(f[1..], widths[1..], seps[1..]), Layout(g[1..], widths[1..], seps[1..]);
    LexConcat(a + seps[0], b + seps[0], c, d);
    LexConcat(a, b, seps[0], seps[0]);
    LexTotal(seps[0], seps[0]);
    if f[0] < g[0] {
      FixedOrder(widths[0], f[0], g[0]);
    } else {
      LayoutOrder(f[1..], g[1..], widths[1..], seps[1..]);
    }
  }

  /** An earlier instant has lexicographically smaller calendar fields. */
  lemma EarlierFields(s1: u64, s2: u64)
    requires s1 < s2
    ensures FieldsLess(Fields(CivilFromUnix(s1)), Fields(CivilFromUnix(s2)))
  {
    CivilCountsDays(s1);
    CivilCountsDays(s2);
    var d1, d2 := DateOf(CivilFromUnix(s1)), DateOf(CivilFromUnix(s2));
    if DateLess(d2, d1) {
      DayNumberMonotone(d2, d1);
    }
    SixFieldsLess(CivilFromUnix(s1), CivilFromUnix(s2));
  }

  lemma SixFieldsLess(c1: Civil, c2: Civil)
    requires c1.year >= 0 && c2.year >= 0 && c1.minute < 60 && c2.minute < 60 && c1.second < 60 && c2.second < 60
    requires DateLess(DateOf(c1), DateOf(c2))
          || (DateOf(c1) == DateOf(c2) &&
              c1.hour as int * 3600 + c1.minute as int * 60 + c1.second as int <
              c2.hour as int * 3600 + c2.minute as int * 60 + c2.second as int)
    ensures FieldsLess(Fields(c1), Fields(c2))
  {
    var f, g := Fields(c1), Fields(c2);
    FirstDifference(f, g, if f[0] != g[0] then 0 else if f[1] != g[1] then 1 else if f[2] != g[2] then 2
                          else if f[3] != g[3] then 3 else if f[4] != g[4] then 4 else 5);
  }

  lemma {:induction false} FirstDifference(f: seq<nat>, g: seq<nat>, i: nat)
    requires |f| == |g| && i < |f| && f[i] < g[i]
    requires forall j :: 0 <= j < i ==> f[j] == g[j]
    ensures FieldsLess(f, g)
  {
    if i > 0 {
      FirstDifference(f[1..], g[1..], i - 1);
    }
  }

  const YEAR_2000: u64 := 946_684_800
  const YEAR_10000: u64 := 253_402_300_800
  const YEAR_20000: u64 := 568_971_820_800

  /** The first second of a year. */
  function YearStartSeconds(y: int): int {
    (365 * (y - 1) + (y - 1) / 4 - (y - 1) / 100 + (y - 1) / 400 + 306 - 719_468) * 86_400
  }

  lemma FirstOfYear(y: int)
    requires y >= 1970
    ensures DayNumber(Date(y, 1, 1)) * 86_400 == YearStartSeconds(y)
  {
    YearsInClosedForm(y);
    MarchClosedForm(y - 1);
  }

  lemma YearsOf(secs: u64, y1: int, y2: int)
    requires 1970 <= y1 <= y2
    requires YearStartSeconds(y1) <= secs as int < YearStartSeconds(y2)
    ensures y1 <= CivilFromUnix(secs).year as int < y2
  {
    CivilCountsDays(secs);
    FirstOfYear(y1);
    FirstOfYear(y2);
    hide YearStartSeconds;
    var d := DateOf(CivilFromUnix(secs));
    if d.year < y1 {
      DayNumberMonotone(d, Date(y1, 1, 1));
    } else if d.year >= y2 && d != Date(y2, 1, 1) {
      DayNumberMonotone(Date(y2, 1, 1), d);
    }
  }

  lemma FieldsFit(secs: u64)
    requires secs < YEAR_10000
    ensures forall i :: 0 <= i < 6 ==> Fields(CivilFromUnix(secs))[i] < Pow10(WIDTHS[i])
  {
    YearsOf(secs, 1970, 10_000);
    CivilCountsDays(secs);
    assert Pow10(2) == 100 && Pow10(4) == 10_000;
  }

  /** Before year 10000 the earlier instant always has the smaller string, in both
      renderings; so equal strings mean equal seconds. */
  lemma RenderingsSort(s1: u64, s2: u64)
    requires s1 < s2 < YEAR_10000
    ensures LexLess(FormatIso8601Utc(s1), FormatIso8601Utc(s2))
    ensures LexLess(FormatCompactUtc(s1), FormatCompactUtc(s2))
  {
    EarlierFields(s1, s2);
    FieldsFit(s1);
    FieldsFit(s2);
    LayoutOrder(Fields(CivilFromUnix(s1)), Fields(CivilFromUnix(s2)), WIDTHS, ISO);
    LayoutOrder(Fields(CivilFromUnix(s1)), Fields(CivilFromUnix(s2)), WIDTHS, COMPACT);
  }

  lemma RenderingsAreInjective(s1: u64, s2: u64)
    requires s1 < YEAR_10000 && s2 < YEAR_10000
    ensures FormatIso8601Utc(s1) == FormatIso8601Utc(s2) <==> s1 == s2
    ensures FormatCompactUtc(s1) == FormatCompactUtc(s2) <==> s1 == s2
  {
    LexTotal(FormatIso8601Utc(s1), FormatIso8601Utc(s1));
    LexTotal(FormatCompactUtc(s1), FormatCompactUtc(s1));
    if s1 < s2 {
      RenderingsSort(s1, s2);
    } else if s2 < s1 {
      RenderingsSort(s2, s1);
    }
  }

  /** The bound is the real one: no string of the years 2000 to 9999 sorts before one
      of the years 10000 to 19999. */
  lemma SortingEndsAtYear10000(s1: u64, s2: u64)
    requires YEAR_2000 <= s1 < YEAR_10000 <= s2 < YEAR_20000
    ensures !LexLess(FormatIso8601Utc(s1), FormatIso8601Utc(s2))
    ensures !LexLess(FormatCompactUtc(s1), FormatCompactUtc(s2))
  {
    hide CivilFromUnix, LexLess, Decimal, Leading, Pow10;
    YearsOf(s1, 2000, 10_000);
    YearsOf(s2, 10_000, 20_000);
    var y1, y2 := CivilFromUnix(s1).year as nat, CivilFromUnix(s2).year as nat;
    LeadingOfYear(y1);
    LeadingOfYear(y2);
    Powers();
    LeadingDigit(y1, 4);
    LeadingDigit(y2, 5);
    FirstDecides(FormatIso8601Utc(s1), FormatIso8601Utc(s2));
    FirstDecides(FormatCompactUtc(s1), FormatCompactUtc(s2));
    assert FormatIso8601Utc(s1)[0] == FormatCompactUtc(s1)[0] == Digit(Leading(y1));
    assert FormatIso8601Utc(s2)[0] == FormatCompactUtc(s2)[0] == Digit(Leading(y2));
  }

  lemma Powers()
    ensures Pow10(3) == 1000 && Pow10(4) == 10_000 && Pow10(5) == 100_000
  {
  }

  lemma FirstDecides(a: string, b: string)
    ensures a != "" && b != "" && a[0] > b[0] ==> !LexLess(a, b)
  {
  }

  lemma LeadingOfYear(y: nat)
    requires 1000 <= y < 100_000
    ensures Leading(y) == if y < 10_000 then y / 1000 else y / 10_000
  {
    var a, b := y / 10 / 10, y / 10 / 10 / 10;
    assert a == y / 100 && b == y / 1000 && b / 10 == y / 10_000;
    assert Leading(y) == Leading(y / 10) == Leading(a) == Leading(b);
  }

  lemma {:induction false} LeadingDigit(n: nat, w: nat)
    requires w > 0 && Pow10(w - 1) <= n < Pow10(w)
    ensures |Decimal(n)| == w && Decimal(n)[0] == Digit(Leading(n))
  {
    if w > 1 {
      LeadingDigit(n / 10, w - 1);
    }
  }

  function Leading(n: nat): (d: nat)
    ensures d < 10
  {
    if n < 10 then n else Leading(n / 10)
  }
}
