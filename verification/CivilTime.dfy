/**
 Unix seconds to a Gregorian date, and RFC 3339 printing
 (crates/sda-core/src/time.rs).

 Rust's fixed-width arithmetic is written out: `u32` subtraction and the `u32` and
 `i32` casts wrap, and `/` truncates toward zero.
 */
module CivilTime {
  import Lex
  import Decimal
  import Arith

  datatype Civil = Civil(year: int, month: int, day: int, hour: int, minute: int, second: int)

  const TWO_32: int := 0x1_0000_0000
  const I32_MIN: int := -0x8000_0000
  const I32_MAX: int := 0x7fff_ffff

  function ToU32(x: int): int { if 0 <= x < TWO_32 then x else x % TWO_32 }

  function ToI32(x: int): int { if I32_MIN <= x <= I32_MAX then x else (x - I32_MIN) % TWO_32 + I32_MIN }

  function TruncatedDiv(a: int, b: int): int
    requires b > 0
  {
    if a >= 0 then a / b else -(-a / b)
  }

  /** The part of the conversion inside one 400-year era, from the day of the era. */
  datatype EraSteps = EraSteps(yoe: int, doy: int, mp: int, dayOfMonth: int, month: int)

  function EraTrace(doe: int): EraSteps
  {
    var yoe := ToU32(ToU32(doe - doe / 1460) + doe / 36524 - doe / 146096) / 365;
    var doy := ToU32(doe - ToU32(365 * yoe + yoe / 4 - yoe / 100));
    var mp := (5 * doy + 2) / 153;
    var dayOfMonth := ToU32(doy - (153 * mp + 2) / 5) + 1;
    var month := if mp < 10 then mp + 3 else ToU32(mp - 9);
    EraSteps(yoe, doy, mp, dayOfMonth, month)
  }

  /** Every intermediate value of the conversion. */
  datatype Steps = Steps(tod: int, z: int, era: int, doe: int, inEra: EraSteps, y: int, year: int)

  function Trace(secs: int): Steps
  {
    var day := secs / 86400;
    var tod := ToU32(secs % 86400);
    var z := day + 719468;
    var era := TruncatedDiv(if z >= 0 then z else z - 146096, 146097);
    var doe := ToU32(z - era * 146097);
    var e := EraTrace(doe);
    Steps(tod, z, era, doe, e, WrappedYear(era, e.yoe), WrappedCivilYear(era, e))
  }

  /** The March-based year, and the calendar year, in 32-bit steps. */
  function WrappedYear(era: int, yoe: int): int { ToI32(yoe + ToI32(era * 400)) }

  function WrappedCivilYear(era: int, e: EraSteps): int
  {
    if e.month <= 2 then ToI32(WrappedYear(era, e.yoe) + 1) else WrappedYear(era, e.yoe)
  }

  function CivilFromUnixSecs(secs: int): Civil
  {
    var t := Trace(secs);
    Civil(t.year, t.inEra.month, t.inEra.dayOfMonth, t.tod / 3600, t.tod % 3600 / 60, t.tod % 60)
  }

  // ---- The proleptic Gregorian calendar, defined without reference to the algorithm ----

  predicate IsLeap(y: int) { y % 4 == 0 && (y % 100 != 0 || y % 400 == 0) }

  function DaysInMonth(y: int, m: int): int
  {
    if m == 2 then (if IsLeap(y) then 29 else 28)
    else if m == 4 || m == 6 || m == 9 || m == 11 then 30
    else 31
  }

  predicate ValidDate(c: Civil)
  {
    1 <= c.month <= 12 && 1 <= c.day <= DaysInMonth(c.year, c.month)
  }

  predicate Valid(c: Civil)
  {
    ValidDate(c) && 0 <= c.hour < 24 && 0 <= c.minute < 60 && 0 <= c.second < 60
  }

  /** Days from 0001-01-01 to the first of January of year `y`. */
  function DaysBeforeYear(y: int): int
  {
    365 * (y - 1) + (y - 1) / 4 - (y - 1) / 100 + (y - 1) / 400
  }

  function DaysBeforeMonth(y: int, m: int): int
    requires 1 <= m <= 12
    decreases m
  {
    if m == 1 then 0 else DaysBeforeMonth(y, m - 1) + DaysInMonth(y, m - 1)
  }

  /** Days from 1970-01-01; day 719162 of the count from year 1. */
  function DaysFromCivil(c: Civil): int
    requires 1 <= c.month <= 12
  {
    DaysBeforeYear(c.year) + DaysBeforeMonth(c.year, c.month) + c.day - 1 - 719162
  }

  function UnixSecs(c: Civil): int
    requires 1 <= c.month <= 12
  {
    DaysFromCivil(c) * 86400 + c.hour * 3600 + c.minute * 60 + c.second
  }

  /** The calendar's successor on dates. */
  function NextDate(c: Civil): Civil
  {
    if c.day < DaysInMonth(c.year, c.month) then c.(day := c.day + 1)
    else if c.month < 12 then c.(month := c.month + 1, day := 1)
    else c.(year := c.year + 1, month := 1, day := 1)
  }

  function Key(c: Civil): seq<int> { [c.year, c.month, c.day, c.hour, c.minute, c.second] }

  lemma Multiples(y: int)
    ensures y / 4 - (y - 1) / 4 == if y % 4 == 0 then 1 else 0
    ensures y / 100 - (y - 1) / 100 == if y % 100 == 0 then 1 else 0
    ensures y / 400 - (y - 1) / 400 == if y % 400 == 0 then 1 else 0
  {
  }

  lemma CenturyIsFourth(y: int)
    ensures y % 100 == 0 ==> y % 4 == 0
  {
    if y % 100 == 0 {
      Arith.Division(y, 4, 25 * (y / 100), 0);
    }
  }

  lemma FourthCentury(y: int)
    ensures y % 400 == 0 ==> y % 100 == 0
  {
    if y % 400 == 0 {
      Arith.Division(y, 100, 4 * (y / 400), 0);
    }
  }

  lemma LeapDays(y: int)
    ensures DaysBeforeYear(y + 1) - DaysBeforeYear(y) == if IsLeap(y) then 366 else 365
  {
    Multiples(y);
    CenturyIsFourth(y);
    FourthCentury(y);
  }

  /** A year of the reference calendar has 366 days exactly when it is leap. */
  lemma YearLength(y: int)
    ensures DaysBeforeYear(y + 1) - DaysBeforeYear(y) == if IsLeap(y) then 366 else 365
    ensures DaysBeforeMonth(y, 12) + 31 == DaysBeforeYear(y + 1) - DaysBeforeYear(y)
  {
    LeapDays(y);
    MonthTable(y);
  }

  lemma MonthTable(y: int)
    ensures var l := if IsLeap(y) then 1 else 0;
            && DaysBeforeMonth(y, 1) == 0 && DaysBeforeMonth(y, 2) == 31
            && DaysBeforeMonth(y, 3) == 59 + l && DaysBeforeMonth(y, 4) == 90 + l
            && DaysBeforeMonth(y, 5) == 120 + l && DaysBeforeMonth(y, 6) == 151 + l
            && DaysBeforeMonth(y, 7) == 181 + l && DaysBeforeMonth(y, 8) == 212 + l
            && DaysBeforeMonth(y, 9) == 243 + l && DaysBeforeMonth(y, 10) == 273 + l
            && DaysBeforeMonth(y, 11) == 304 + l && DaysBeforeMonth(y, 12) == 334 + l
  {
    assert DaysBeforeMonth(y, 3) == DaysBeforeMonth(y, 2) + DaysInMonth(y, 2);
    assert DaysBeforeMonth(y, 5) == DaysBeforeMonth(y, 4) + 30;
    assert DaysBeforeMonth(y, 7) == DaysBeforeMonth(y, 6) + 30;
    assert DaysBeforeMonth(y, 9) == DaysBeforeMonth(y, 8) + 31;
    assert DaysBeforeMonth(y, 11) == DaysBeforeMonth(y, 10) + 31;
  }

  // ---- The reference calendar counts days in order ----

  lemma YearsGrow(y: int, y': int)
    requires y < y'
    ensures DaysBeforeYear(y + 1) <= DaysBeforeYear(y')
  {
  }

  lemma DateWithinYear(c: Civil)
    requires ValidDate(c)
    ensures DaysBeforeYear(c.year) <= DaysFromCivil(c) + 719162 < DaysBeforeYear(c.year + 1)
  {
    MonthTable(c.year);
    YearLength(c.year);
  }

  lemma DatesOrdered(c: Civil, d: Civil)
    requires ValidDate(c) && ValidDate(d)
    requires DateBefore(c, d)
    ensures DaysFromCivil(c) < DaysFromCivil(d)
  {
    DateWithinYear(c);
    DateWithinYear(d);
    if c.year < d.year {
      YearsGrow(c.year, d.year);
    } else {
      MonthTable(c.year);
    }
  }

  predicate SameDate(c: Civil, d: Civil) { c.year == d.year && c.month == d.month && c.day == d.day }

  lemma NextDateAddsOne(c: Civil)
    requires ValidDate(c)
    ensures ValidDate(NextDate(c)) && DaysFromCivil(NextDate(c)) == DaysFromCivil(c) + 1
  {
    MonthTable(c.year);
    MonthTable(c.year + 1);
    YearLength(c.year);
  }

  // ---- The algorithm ----

  /** A day of a 400-year era as century, four-year cycle, year and day of a year that starts in March. */
  predicate Cycle(doe: int, c: int, q: int, r: int, doy: int)
  {
    && 0 <= c < 4 && 0 <= q < 25 && 0 <= r < 4 && 0 <= doy < 366
    && doe == 36524 * c + 1461 * q + 365 * r + doy
    && (doy == 365 ==> r == 3 && (q < 24 || c == 3))
  }

  lemma CycleExists(doe: int) returns (c: int, q: int, r: int, doy: int)
    requires 0 <= doe < 146097
    ensures Cycle(doe, c, q, r, doy)
  {
    c := if doe == 146096 then 3 else doe / 36524;
    var d := doe - 36524 * c;
    q := d / 1461;
    var e := d - 1461 * q;
    r := if e == 1460 then 3 else e / 365;
    doy := e - 365 * r;
  }

  /** The year-of-era formula inverts the cycle decomposition. */
  lemma YearOfEra(doe: int, c: int, q: int, r: int, doy: int)
    requires Cycle(doe, c, q, r, doy)
    ensures (doe - doe / 1460 + doe / 36524 - doe / 146096) / 365 == 100 * c + 4 * q + r
  {
    assert c == 0 || c == 1 || c == 2 || c == 3;
    assert r == 0 || r == 1 || r == 2 || r == 3;
    var rem := 24 * c + q + 365 * r + doy;
    assert doe == 1460 * (25 * c + q) + rem && 0 <= rem < 2920;
    var carry := if rem >= 1460 then 1 else 0;
    assert doe / 1460 == 25 * c + q + carry;
    assert doe < 146096 ==> doe / 36524 == c && doe / 146096 == 0;
    assert doe == 146096 ==> doe / 36524 == 4 && doe / 146096 == 1;
  }

  lemma YearDays(c: int, q: int, r: int)
    requires 0 <= c < 4 && 0 <= q < 25 && 0 <= r < 4
    ensures var y := 100 * c + 4 * q + r;
            365 * y + y / 4 - y / 100 == 36524 * c + 1461 * q + 365 * r && 0 <= y < 400
  {
  }

  lemma EraExact(z: int)
    ensures var era := TruncatedDiv(if z >= 0 then z else z - 146096, 146097);
            era == z / 146097 && ToU32(z - era * 146097) == z % 146097
  {
  }

  lemma MonthOfDay(doy: int)
    requires 0 <= doy < 366
    ensures var mp := (5 * doy + 2) / 153; 0 <= mp < 12 && 0 <= doy - (153 * mp + 2) / 5 < 31
  {
  }

  lemma NothingWraps(doe: int, yoe: int, doy: int)
    requires 0 <= doe < 146097 && 0 <= yoe < 400 && 0 <= doy < 366
    requires yoe == (doe - doe / 1460 + doe / 36524 - doe / 146096) / 365
    requires doe == 365 * yoe + yoe / 4 - yoe / 100 + doy
    ensures var mp := (5 * doy + 2) / 153;
            && 0 <= mp < 12
            && EraTrace(doe) == EraSteps(yoe, doy, mp, doy - (153 * mp + 2) / 5 + 1, if mp < 10 then mp + 3 else mp - 9)
  {
    assert 0 <= doe - doe / 1460 <= doe;
    assert 0 <= doe - doe / 1460 + doe / 36524 - doe / 146096 < TWO_32;
    MonthOfDay(doy);
  }

  /** Inside an era nothing wraps, and the steps invert the cycle decomposition. */
  lemma EraTraceExact(doe: int) returns (c: int, q: int, r: int)
    requires 0 <= doe < 146097
    ensures var e := EraTrace(doe);
            && Cycle(doe, c, q, r, e.doy) && e.yoe == 100 * c + 4 * q + r && 0 <= e.yoe < 400
            && doe == 365 * e.yoe + e.yoe / 4 - e.yoe / 100 + e.doy
            && 0 <= e.mp < 12 && e.mp == (5 * e.doy + 2) / 153
            && e.dayOfMonth == e.doy - (153 * e.mp + 2) / 5 + 1
            && e.month == if e.mp < 10 then e.mp + 3 else e.mp - 9
  {
    var doy;
    c, q, r, doy := CycleExists(doe);
    YearOfEra(doe, c, q, r, doy);
    YearDays(c, q, r);
    NothingWraps(doe, 100 * c + 4 * q + r, doy);
  }

  lemma TraceExact(secs: int)
    ensures var t := Trace(secs);
            && t.tod == secs % 86400 && t.z == secs / 86400 + 719468
            && t.era == t.z / 146097 && t.doe == t.z % 146097
            && t.inEra == EraTrace(t.doe)
  {
    EraExact(Trace(secs).z);
  }

  function Assemble(era: int, e: EraSteps, tod: int): Civil
  {
    Civil(e.yoe + 400 * era + (if e.month <= 2 then 1 else 0), e.month, e.dayOfMonth,
          tod / 3600, tod % 3600 / 60, tod % 60)
  }

  /** The date the calendar assigns, with the year not yet cut down to 32 bits. */
  function TrueCivil(secs: int): Civil
  {
    var t := Trace(secs);
    Assemble(t.era, t.inEra, t.tod)
  }

  /** The March-based day count agrees with the reference calendar. */
  lemma MarchCount(y: int, mp: int, day: int)
    requires 0 <= mp < 12
    ensures var c := Civil(if mp < 10 then y else y + 1, if mp < 10 then mp + 3 else mp - 9, day, 0, 0, 0);
            DaysFromCivil(c) == 365 * y + y / 4 - y / 100 + y / 400 + (153 * mp + 2) / 5 + day - 1 - 719468
  {
    MonthTable(y);
    MonthTable(y + 1);
    YearLength(y);
  }

  /** A March-based day of the year falls in the month the algorithm picks, on a day that month has. */
  lemma MonthHasDay(y: int, doy: int)
    requires 0 <= doy < 366
    requires doy == 365 ==> IsLeap(y + 1)
    ensures var mp := (5 * doy + 2) / 153; var d := doy - (153 * mp + 2) / 5 + 1;
            1 <= d <= DaysInMonth(if mp < 10 then y else y + 1, if mp < 10 then mp + 3 else mp - 9)
  {
  }

  lemma EraQuotients(y: int, era: int)
    requires 0 <= y < 400
    ensures (y + 400 * era) / 4 == y / 4 + 100 * era
    ensures (y + 400 * era) / 100 == y / 100 + 4 * era
    ensures (y + 400 * era) / 400 == era
  {
  }

  /** The days of era `era` start at 146097 * era. */
  lemma EraDays(era: int, c: int, q: int, r: int)
    requires 0 <= c < 4 && 0 <= q < 25 && 0 <= r < 4
    ensures var y := 100 * c + 4 * q + r + 400 * era;
            365 * y + y / 4 - y / 100 + y / 400 == 146097 * era + 36524 * c + 1461 * q + 365 * r
  {
    YearDays(c, q, r);
    EraQuotients(100 * c + 4 * q + r, era);
  }

  /** A year that ends a four-year cycle is followed by a leap February, but for three centuries in four. */
  lemma EraLeaps(era: int, c: int, q: int, r: int)
    requires 0 <= c < 4 && 0 <= q < 25 && r == 3 && (q < 24 || c == 3)
    ensures IsLeap(100 * c + 4 * q + r + 400 * era + 1)
  {
    var y := 100 * c + 4 * q + 4;
    Arith.Division(y + 400 * era, 4, 25 * c + q + 1 + 100 * era, 0);
    if q < 24 {
      Arith.Division(y + 400 * era, 100, c + 4 * era, 4 * q + 4);
    } else {
      Arith.Division(y + 400 * era, 400, 1 + era, 0);
    }
  }

  /** A day of a year that starts in March is a calendar date with the right day number. */
  lemma MarchDate(y: int, doy: int, mp: int, day: int, start: int)
    requires 0 <= doy < 366 && (doy == 365 ==> IsLeap(y + 1))
    requires mp == (5 * doy + 2) / 153 && day == doy - (153 * mp + 2) / 5 + 1
    requires start == 365 * y + y / 4 - y / 100 + y / 400
    ensures var date := Civil(if mp < 10 then y else y + 1, if mp < 10 then mp + 3 else mp - 9, day, 0, 0, 0);
            0 <= mp < 12 && ValidDate(date) && DaysFromCivil(date) == start + doy - 719468
  {
    MonthOfDay(doy);
    MonthHasDay(y, doy);
    MarchCount(y, mp, day);
  }

  /** Day number `z` past 0000-03-01, as the era steps decompose it, names a calendar date with that day number. */
  lemma EraDateInverts(z: int, c: int, q: int, r: int, doy: int, mp: int, day: int)
    requires Cycle(z % 146097, c, q, r, doy)
    requires mp == (5 * doy + 2) / 153 && day == doy - (153 * mp + 2) / 5 + 1
    ensures var y := 100 * c + 4 * q + r + 400 * (z / 146097);
            var date := Civil(if mp < 10 then y else y + 1, if mp < 10 then mp + 3 else mp - 9, day, 0, 0, 0);
            0 <= mp < 12 && ValidDate(date) && DaysFromCivil(date) == z - 719468
  {
    var era := z / 146097;
    var y := 100 * c + 4 * q + r + 400 * era;
    EraDays(era, c, q, r);
    if doy == 365 {
      EraLeaps(era, c, q, r);
    }
    MarchDate(y, doy, mp, day, 146097 * era + 36524 * c + 1461 * q + 365 * r);
  }

  /** Splitting the time of day loses nothing. */
  lemma TimeOfDay(date: Civil, tod: int)
    requires ValidDate(date) && 0 <= tod < 86400
    ensures var c := date.(hour := tod / 3600, minute := tod % 3600 / 60, second := tod % 60);
            Valid(c) && UnixSecs(c) == DaysFromCivil(date) * 86400 + tod
  {
  }

  lemma EraDate(z: int, e: EraSteps, c: int, q: int, r: int)
    requires Cycle(z % 146097, c, q, r, e.doy) && e.yoe == 100 * c + 4 * q + r
    requires e.mp == (5 * e.doy + 2) / 153 && e.dayOfMonth == e.doy - (153 * e.mp + 2) / 5 + 1
    requires e.month == if e.mp < 10 then e.mp + 3 else e.mp - 9
    ensures var date := Assemble(z / 146097, e, 0);
            ValidDate(date) && DaysFromCivil(date) == z - 719468
  {
    EraDateInverts(z, c, q, r, e.doy, e.mp, e.dayOfMonth);
  }

  lemma AssembleTime(era: int, e: EraSteps, tod: int)
    requires ValidDate(Assemble(era, e, 0)) && 0 <= tod < 86400
    ensures Valid(Assemble(era, e, tod))
    ensures UnixSecs(Assemble(era, e, tod)) == DaysFromCivil(Assemble(era, e, 0)) * 86400 + tod
  {
    TimeOfDay(Assemble(era, e, 0), tod);
  }

  /** The date before truncation is a calendar date, and the reference day count takes it back. */
  lemma TrueCivilInverts(secs: int)
    ensures Valid(TrueCivil(secs)) && UnixSecs(TrueCivil(secs)) == secs
  {
    TraceExact(secs);
    var z := secs / 86400 + 719468;
    var c, q, r := EraTraceExact(z % 146097);
    EraDate(z, EraTrace(z % 146097), c, q, r);
    AssembleTime(z / 146097, EraTrace(z % 146097), secs % 86400);
  }

  lemma WrapIsRemainder(x: int)
    ensures ToI32(x) == (x - I32_MIN) % TWO_32 + I32_MIN
  {
    if I32_MIN <= x <= I32_MAX {
      Arith.Division(x - I32_MIN, TWO_32, 0, x - I32_MIN);
    }
  }

  lemma WrapAdds(a: int, b: int)
    ensures ToI32(a + ToI32(b)) == ToI32(a + b)
  {
    WrapIsRemainder(b);
    WrapIsRemainder(a + b);
    WrapIsRemainder(a + ToI32(b));
    var k, x := (b - I32_MIN) / TWO_32, a + b - I32_MIN;
    Arith.Division(x - TWO_32 * k, TWO_32, x / TWO_32 - k, x % TWO_32);
  }

  lemma YearWraps(era: int, e: EraSteps, tod: int)
    ensures WrappedCivilYear(era, e) == ToI32(Assemble(era, e, tod).year)
  {
    WrapAdds(e.yoe, era * 400);
    WrapAdds(1, e.yoe + era * 400);
  }

  /** The 32-bit steps lose nothing but the high bits of the year. */
  lemma OnlyYearWraps(secs: int)
    ensures CivilFromUnixSecs(secs) == TrueCivil(secs).(year := ToI32(TrueCivil(secs).year))
  {
    var t := Trace(secs);
    YearWraps(t.era, t.inEra, t.tod);
  }

  // 1 January of year -2^31 and of year 2^31, in Unix seconds.
  const FIRST_SECOND: int := -67768100567971200
  const LAST_SECOND: int := 67767976233532799

  lemma YearBounds()
    ensures UnixSecs(Civil(I32_MIN, 1, 1, 0, 0, 0)) == FIRST_SECOND
    ensures UnixSecs(Civil(I32_MAX + 1, 1, 1, 0, 0, 0)) == LAST_SECOND + 1
  {
  }

  predicate DateBefore(c: Civil, d: Civil)
  {
    c.year < d.year || (c.year == d.year && (c.month < d.month || (c.month == d.month && c.day < d.day)))
  }

  predicate TimeBefore(c: Civil, d: Civil)
  {
    c.hour < d.hour || (c.hour == d.hour && (c.minute < d.minute || (c.minute == d.minute && c.second < d.second)))
  }

  lemma TripleOrder(a: int, b: int, c: int, x: int, y: int, z: int)
    ensures Lex.Before([a, b, c], [x, y, z]) <==> a < x || (a == x && (b < y || (b == y && c < z)))
  {
    Lex.Fields([a], [x], [b, c], [y, z]);
    Lex.Fields([b], [y], [c], [z]);
    assert [a, b, c] == [a] + [b, c] && [x, y, z] == [x] + [y, z];
    assert [b, c] == [b] + [c] && [y, z] == [y] + [z];
  }

  lemma KeyOrder(c: Civil, d: Civil)
    ensures Lex.Before(Key(c), Key(d)) <==> DateBefore(c, d) || (SameDate(c, d) && TimeBefore(c, d))
  {
    var a, b := [c.year, c.month, c.day], [d.year, d.month, d.day];
    var x, y := [c.hour, c.minute, c.second], [d.hour, d.minute, d.second];
    Lex.Fields(a, b, x, y);
    assert Key(c) == a + x && Key(d) == b + y;
    TripleOrder(c.year, c.month, c.day, d.year, d.month, d.day);
    TripleOrder(c.hour, c.minute, c.second, d.hour, d.minute, d.second);
    assert a == b ==> SameDate(c, d) by {
      assert a[0] == c.year && a[1] == c.month && a[2] == c.day;
    }
  }

  /** On calendar dates and times, lexicographic order is the order of the second counts. */
  lemma SecondsOrdered(c: Civil, d: Civil)
    requires Valid(c) && Valid(d)
    ensures Lex.Before(Key(c), Key(d)) <==> UnixSecs(c) < UnixSecs(d)
    ensures c == d <==> UnixSecs(c) == UnixSecs(d)
  {
    KeyOrder(c, d);
    if DateBefore(c, d) {
      DatesOrdered(c, d);
    } else if DateBefore(d, c) {
      DatesOrdered(d, c);
    } else {
      assert SameDate(c, d);
    }
  }

  // ---- Main results on dates ----

  /** A year has begun exactly if its first second has. */
  lemma YearBegun(secs: int, y: int)
    ensures UnixSecs(Civil(y, 1, 1, 0, 0, 0)) <= secs <==> y <= TrueCivil(secs).year
  {
    TrueCivilInverts(secs);
    var c, start := TrueCivil(secs), Civil(y, 1, 1, 0, 0, 0);
    SecondsOrdered(c, start);
    KeyOrder(c, start);
  }

  lemma RangeIsYear(secs: int)
    ensures I32_MIN <= TrueCivil(secs).year <= I32_MAX <==> FIRST_SECOND <= secs <= LAST_SECOND
  {
    YearBounds();
    YearBegun(secs, I32_MIN);
    YearBegun(secs, I32_MAX + 1);
  }

  /**
   The conversion returns a calendar date and time whose second count is the input exactly for the
   inputs whose year fits `i32`: from FIRST_SECOND to LAST_SECOND.
   */
  lemma CivilCorrectExactly(secs: int)
    ensures var c := CivilFromUnixSecs(secs);
            Valid(c) && UnixSecs(c) == secs <==> FIRST_SECOND <= secs <= LAST_SECOND
  {
    TrueCivilInverts(secs);
    OnlyYearWraps(secs);
    RangeIsYear(secs);
    var c := CivilFromUnixSecs(secs);
    if Valid(c) {
      SecondsOrdered(c, TrueCivil(secs));
    }
  }

  /** The subtractions on `u32` inside an era stay in range. */
  predicate SubtractionsFit(doe: int, e: EraSteps)
  {
    && 0 <= doe - doe / 1460
    && 0 <= doe - doe / 1460 + doe / 36524 - doe / 146096
    && 0 <= 365 * e.yoe + e.yoe / 4 - e.yoe / 100 <= doe
    && (153 * e.mp + 2) / 5 <= e.doy
  }

  /** The additions on `i32` that make up the year stay in range. */
  predicate AdditionsFit(era: int, e: EraSteps)
  {
    && I32_MIN <= e.yoe + ToI32(era * 400) <= I32_MAX
    && (e.month <= 2 ==> WrappedYear(era, e.yoe) + 1 <= I32_MAX)
  }

  /** A checked build does not panic. */
  predicate ChecksPass(secs: int)
  {
    var t := Trace(secs);
    SubtractionsFit(t.doe, t.inEra) && AdditionsFit(t.era, t.inEra)
  }

  lemma EraChecks(doe: int)
    requires 0 <= doe < 146097
    ensures SubtractionsFit(doe, EraTrace(doe)) && 0 <= EraTrace(doe).yoe < 400
  {
    var c, q, r := EraTraceExact(doe);
    var e := EraTrace(doe);
    assert e.doy >= 0 && 0 <= e.mp < 12;
    assert (153 * e.mp + 2) / 5 <= e.doy by {
      assert 153 * e.mp <= 5 * e.doy + 2;
    }
  }

  /** The era counted from 1 March of year 0, by the calendar. */
  function EraOf(secs: int): int { (secs / 86400 + 719468) / 146097 }

  /** Both additions fit exactly if the plain sum on the cast first year of the era does. */
  lemma SumFits(w: int, yoe: int, carry: int)
    requires I32_MIN <= w <= I32_MAX && 0 <= yoe < 400 && 0 <= carry <= 1
    ensures I32_MIN <= yoe + w <= I32_MAX && (carry == 1 ==> ToI32(yoe + w) + 1 <= I32_MAX)
            <==> w + yoe + carry <= I32_MAX
  {
  }

  lemma AdditionsFitExactly(era: int, e: EraSteps, tod: int)
    requires 0 <= e.yoe < 400
    ensures var year := Assemble(era, e, tod).year;
            && era * 400 <= year <= era * 400 + 400
            && (AdditionsFit(era, e) <==> ToI32(era * 400) + (year - era * 400) <= I32_MAX)
  {
    SumFits(ToI32(era * 400), e.yoe, if e.month <= 2 then 1 else 0);
  }

  lemma TraceChecks(secs: int)
    ensures SubtractionsFit(Trace(secs).doe, Trace(secs).inEra) && 0 <= Trace(secs).inEra.yoe < 400
    ensures Trace(secs).era == (secs / 86400 + 719468) / 146097
  {
    TraceExact(secs);
    EraChecks((secs / 86400 + 719468) % 146097);
  }

  /** Whether a checked build passes, told by the first year of the era and the year. */
  lemma ChecksPassByEra(secs: int)
    ensures SubtractionsFit(Trace(secs).doe, Trace(secs).inEra)
    ensures var first, year := EraOf(secs) * 400, TrueCivil(secs).year;
            first <= year <= first + 400 && (ChecksPass(secs) <==> ToI32(first) + (year - first) <= I32_MAX)
  {
    var t := Trace(secs);
    TraceExact(secs);
    TraceChecks(secs);
    AdditionsFitExactly(t.era, t.inEra, t.tod);
  }

  /** The years that a cast to 32 bits takes for the least one. */
  function Turn(k: int): int { I32_MAX + 1 + k * TWO_32 }

  function TurnSecond(k: int): int { UnixSecs(Civil(Turn(k), 1, 1, 0, 0, 0)) }

  /** The first era that starts in or after a year. */
  function EraFrom(y: int): int { (y + 399) / 400 }

  function EraSecond(n: int): int { UnixSecs(Civil(400 * n, 3, 1, 0, 0, 0)) }

  /** From a turn to the end of the era it falls into. */
  ghost predicate Overruns(secs: int, k: int) { TurnSecond(k) <= secs < EraSecond(EraFrom(Turn(k))) }

  lemma NextTurn(first: int) returns (k: int)
    ensures Turn(k - 1) <= first < Turn(k) && ToI32(first) == first - k * TWO_32
  {
    WrapIsRemainder(first);
    k := (first - I32_MIN) / TWO_32;
  }

  /** The sum overflows exactly if a turn lies between the first year of the era and the year. */
  lemma OverflowIsTurn(first: int, year: int)
    requires first <= year
    ensures ToI32(first) + (year - first) <= I32_MAX <==> forall k :: !(first < Turn(k) <= year)
  {
    var k := NextTurn(first);
    assert ToI32(first) + (year - first) <= I32_MAX <==> year < Turn(k);
    forall l | first < Turn(l) ensures Turn(k) <= Turn(l) {
      assert k - 1 < l;
    }
  }

  lemma EraMultiples(n: int)
    ensures 400 * n / 4 == 100 * n && 400 * n / 100 == 4 * n && 400 * n / 400 == n
  {
    Arith.Division(400 * n, 4, 100 * n, 0);
    Arith.Division(400 * n, 100, 4 * n, 0);
    Arith.Division(400 * n, 400, n, 0);
  }

  lemma EraStart(n: int)
    ensures EraSecond(n) == (146097 * n - 719468) * 86400
  {
    EraMultiples(n);
    MarchCount(400 * n, 0, 1);
  }

  /** An era has begun exactly if its first second has. */
  lemma EraBegun(secs: int, n: int)
    ensures EraSecond(n) <= secs <==> n <= EraOf(secs)
  {
    EraStart(n);
    Arith.QuotientAtLeast(secs, 86400, 146097 * n - 719468);
    Arith.QuotientAtLeast(secs / 86400 + 719468, 146097, n);
  }

  lemma EraFromExactly(y: int, n: int)
    ensures EraFrom(y) <= n <==> y <= 400 * n
  {
  }

  lemma OverrunsExactly(secs: int, k: int)
    ensures Overruns(secs, k) <==> EraOf(secs) * 400 < Turn(k) <= TrueCivil(secs).year
  {
    YearBegun(secs, Turn(k));
    EraBegun(secs, EraFrom(Turn(k)));
    EraFromExactly(Turn(k), EraOf(secs));
  }

  /**
   For every count of seconds: no `u32` subtraction underflows, and a checked build panics exactly from the
   first of January of a year that is 2^31 modulo 2^32 up to the end of the 400-year era this day falls into.
   */
  lemma ChecksPassExactly(secs: int)
    ensures SubtractionsFit(Trace(secs).doe, Trace(secs).inEra)
    ensures ChecksPass(secs) <==> forall k :: !Overruns(secs, k)
  {
    ChecksPassByEra(secs);
    var first, year := EraOf(secs) * 400, TrueCivil(secs).year;
    OverflowIsTurn(first, year);
    forall k ensures Overruns(secs, k) <==> first < Turn(k) <= year {
      OverrunsExactly(secs, k);
    }
  }

  // 1 March of year -2147483600, the first year of the first era whose start fits `i32`.
  const FIRST_CHECKED_SECOND: int := -67768099048022400

  const FIRST_CHECKED_ERA: int := -5368709

  lemma FirstCheckedEra(secs: int)
    ensures FIRST_CHECKED_SECOND <= secs <==> FIRST_CHECKED_ERA <= EraOf(secs)
  {
    EraStart(FIRST_CHECKED_ERA);
    EraBegun(secs, FIRST_CHECKED_ERA);
  }

  lemma OverflowWithinYears(era: int, year: int)
    requires I32_MIN <= year <= I32_MAX && era * 400 <= year <= era * 400 + 400
    ensures ToI32(era * 400) + (year - era * 400) <= I32_MAX <==> FIRST_CHECKED_ERA <= era
  {
  }

  /**
   Among the years that fit `i32`, those from -2147483648 to February of -2147483600 panic in a checked build,
   although the date is right in a build that wraps; from then on none does.
   */
  lemma ChecksPassWithinYears(secs: int)
    requires FIRST_SECOND <= secs <= LAST_SECOND
    ensures ChecksPass(secs) <==> FIRST_CHECKED_SECOND <= secs
  {
    ChecksPassByEra(secs);
    RangeIsYear(secs);
    OverflowWithinYears(EraOf(secs), TrueCivil(secs).year);
    FirstCheckedEra(secs);
  }

  /** Both directions of the conversion: every calendar date and time with a 32-bit year comes back. */
  lemma CivilRoundTrip(c: Civil)
    requires Valid(c) && I32_MIN <= c.year <= I32_MAX
    ensures CivilFromUnixSecs(UnixSecs(c)) == c
  {
    var secs := UnixSecs(c);
    TrueCivilInverts(secs);
    OnlyYearWraps(secs);
    SecondsOrdered(c, TrueCivil(secs));
  }

  /** The conversion is strictly monotone. */
  lemma CivilMonotone(s: int, t: int)
    requires FIRST_SECOND <= s <= LAST_SECOND && FIRST_SECOND <= t <= LAST_SECOND
    ensures s < t <==> Lex.Before(Key(CivilFromUnixSecs(s)), Key(CivilFromUnixSecs(t)))
  {
    CivilCorrectExactly(s);
    CivilCorrectExactly(t);
    SecondsOrdered(CivilFromUnixSecs(s), CivilFromUnixSecs(t));
  }

  lemma SuccessorUnique(c: Civil, d: Civil)
    requires Valid(c) && Valid(d) && UnixSecs(d) == UnixSecs(c) + 86400
    ensures d == NextDate(c)
  {
    NextDateAddsOne(c);
    SecondsOrdered(NextDate(c), d);
  }

  /** One day later is the calendar's next date at the same time of day. */
  lemma DayByDay(secs: int)
    requires FIRST_SECOND <= secs && secs + 86400 <= LAST_SECOND
    ensures CivilFromUnixSecs(secs + 86400) == NextDate(CivilFromUnixSecs(secs))
  {
    CivilCorrectExactly(secs);
    CivilCorrectExactly(secs + 86400);
    SuccessorUnique(CivilFromUnixSecs(secs), CivilFromUnixSecs(secs + 86400));
  }

  /** A date and time is the result for its own second count and for no other. */
  lemma DateOfSecond(secs: int, c: Civil)
    requires FIRST_SECOND <= secs <= LAST_SECOND && Valid(c) && I32_MIN <= c.year <= I32_MAX
    ensures CivilFromUnixSecs(secs) == c <==> secs == UnixSecs(c)
  {
    CivilCorrectExactly(secs);
    CivilRoundTrip(c);
  }

  const EPOCH := Civil(1970, 1, 1, 0, 0, 0)

  /** Second 0 is the first of January 1970, midnight. */
  lemma EpochIs1970()
    ensures UnixSecs(EPOCH) == 0 && CivilFromUnixSecs(0) == EPOCH
  {
    DateOfSecond(0, EPOCH);
  }

  // ---- RFC 3339 text ----

  function ToI64(x: int): int
  {
    if -0x8000_0000_0000_0000 <= x <= 0x7fff_ffff_ffff_ffff then x
    else (x + 0x8000_0000_0000_0000) % 0x1_0000_0000_0000_0000 - 0x8000_0000_0000_0000
  }

  /** `{y:04}` for a signed number: the sign takes one of the places. */
  function PaddedYear(y: int): string
  {
    if y >= 0 then Decimal.Text(Decimal.Padded(y, 4)) else "-" + Decimal.Text(Decimal.Padded(-y, 3))
  }

  /** A list of numbers printed in fixed-width fields, each followed by one separator. */
  function Row(ns: seq<nat>, ws: seq<nat>, seps: string): string
    requires |ns| == |ws| == |seps|
  {
    if ns == [] then "" else Decimal.Text(Decimal.Padded(ns[0], ws[0])) + [seps[0]] + Row(ns[1..], ws[1..], seps[1..])
  }

  /** `YYYY-MM-DDTHH:MM:SS` and one more character, then further fields. */
  function DateText(c: Civil, sep: char, ns: seq<nat>, ws: seq<nat>, seps: string): string
    requires c.month >= 0 && c.day >= 0 && c.hour >= 0 && c.minute >= 0 && c.second >= 0
    requires |ns| == |ws| == |seps|
  {
    PaddedYear(c.year) + "-" +
      Row([c.month, c.day, c.hour, c.minute, c.second] + ns, [2, 2, 2, 2, 2] + ws, "-T::" + [sep] + seps)
  }

  lemma FieldsNonNegative(secs: int)
    ensures var c := CivilFromUnixSecs(secs);
            c.month >= 0 && c.day >= 0 && c.hour >= 0 && c.minute >= 0 && c.second >= 0
  {
    TrueCivilInverts(secs);
    OnlyYearWraps(secs);
  }

  /** Times are nanoseconds from the epoch; those before it print as the epoch. */
  function WholeSeconds(at: int): int { ToI64((if at < 0 then 0 else at) / 1_000_000_000) }

  function Millis(at: int): nat { (if at < 0 then 0 else at) % 1_000_000_000 / 1_000_000 }

  /** Whole seconds and milliseconds of a time from the epoch on; a time before it counts as the epoch. */
  lemma TimeSplits(at: int)
    ensures at < 0 ==> WholeSeconds(at) == 0 && Millis(at) == 0
    ensures 0 <= at < 0x8000_0000_0000_0000 * 1_000_000_000 ==>
              0 <= at - 1_000_000_000 * WholeSeconds(at) - 1_000_000 * Millis(at) < 1_000_000 && Millis(at) < 1000
  {
    if at >= 0 {
      SecondsFit(at);
    }
  }

  lemma SecondsFit(at: nat)
    ensures at < 0x8000_0000_0000_0000 * 1_000_000_000 ==> WholeSeconds(at) == at / 1_000_000_000
  {
  }

  function FormatRfc3339Utc(at: int): string
  {
    FieldsNonNegative(WholeSeconds(at));
    DateText(CivilFromUnixSecs(WholeSeconds(at)), 'Z', [], [], "")
  }

  function FormatRfc3339UtcMillis(at: int): string
  {
    FieldsNonNegative(WholeSeconds(at));
    DateText(CivilFromUnixSecs(WholeSeconds(at)), '.', [Millis(at)], [3], "Z")
  }

  /** Rust compares strings byte by byte; the text is ASCII. */
  function Codes(s: string): (r: seq<int>)
    ensures |r| == |s|
  {
    seq(|s|, i requires 0 <= i < |s| => s[i] as int)
  }

  lemma CodesConcat(a: string, b: string)
    ensures Codes(a + b) == Codes(a) + Codes(b)
  {
  }

  /** Fields of the same width, holding numbers that fit, compare like the numbers. */
  lemma NumberField(m: nat, n: nat, w: nat)
    requires w >= 1 && m < Decimal.Pow10(w) && n < Decimal.Pow10(w)
    ensures var a, b := Codes(Decimal.Text(Decimal.Padded(m, w))), Codes(Decimal.Text(Decimal.Padded(n, w)));
            && |a| == |b| == w
            && (Lex.Before(a, b) <==> m < n)
            && (a == b <==> m == n)
  {
    Decimal.PaddedIsFixed(m, w);
    Decimal.PaddedIsFixed(n, w);
    var x, y := Decimal.Fixed(m, w), Decimal.Fixed(n, w);
    Decimal.FixedOrder(m, n, w);
    Decimal.FixedOrder(n, m, w);
    Shifted(x, y);
    Shifted(y, x);
    Lex.Trichotomy(Codes(Decimal.Text(x)), Codes(Decimal.Text(y)));
    Lex.Irreflexive(Codes(Decimal.Text(x)));
  }

  /** Replacing digits by their ASCII codes keeps the order. */
  lemma {:induction false} Shifted(x: seq<Decimal.Digit>, y: seq<Decimal.Digit>)
    requires |x| == |y|
    ensures Lex.Before(Codes(Decimal.Text(x)), Codes(Decimal.Text(y))) <==> Lex.Before(x, y)
    decreases |x|
  {
    if x != [] {
      assert Codes(Decimal.Text(x))[1..] == Codes(Decimal.Text(x[1..]));
      assert Codes(Decimal.Text(y))[1..] == Codes(Decimal.Text(y[1..]));
      Shifted(x[1..], y[1..]);
    }
  }

  ghost predicate FitsRow(ns: seq<nat>, ws: seq<nat>)
  {
    |ns| == |ws| && forall i :: 0 <= i < |ns| ==> ws[i] >= 1 && ns[i] < Decimal.Pow10(ws[i])
  }

  function Sum(ws: seq<nat>): nat { if ws == [] then 0 else ws[0] + Sum(ws[1..]) }

  /** Rows with the same layout have the same width and compare like the lists of numbers. */
  lemma {:induction false} RowOrder(m: seq<nat>, n: seq<nat>, ws: seq<nat>, seps: string)
    requires FitsRow(m, ws) && FitsRow(n, ws) && |seps| == |ws|
    ensures |Row(m, ws, seps)| == |Row(n, ws, seps)| == Sum(ws) + |ws|
    ensures Lex.Before(Codes(Row(m, ws, seps)), Codes(Row(n, ws, seps))) <==> Lex.Before(m, n)
    decreases |ws|
  {
    if ws != [] {
      NumberField(m[0], n[0], ws[0]);
      RowOrder(m[1..], n[1..], ws[1..], seps[1..]);
      var a, b := Decimal.Text(Decimal.Padded(m[0], ws[0])), Decimal.Text(Decimal.Padded(n[0], ws[0]));
      var x, y := Row(m[1..], ws[1..], seps[1..]), Row(n[1..], ws[1..], seps[1..]);
      var sep := [seps[0]];
      CodesConcat(a + sep, x);
      CodesConcat(b + sep, y);
      CodesConcat(a, sep);
      CodesConcat(b, sep);
      Lex.Fields(Codes(a) + Codes(sep), Codes(b) + Codes(sep), Codes(x), Codes(y));
      Lex.Fields(Codes(a), Codes(b), Codes(sep), Codes(sep));
      Lex.Irreflexive(Codes(sep));
      assert Codes(a) + Codes(sep) == Codes(b) + Codes(sep) ==> Codes(a) == Codes(b) by {
        assert (Codes(a) + Codes(sep))[..|a|] == Codes(a) && (Codes(b) + Codes(sep))[..|b|] == Codes(b);
      }
    }
  }

  // 9999-12-31T23:59:59Z
  const LAST_FOUR_DIGIT_SECOND: int := 253402300799

  predicate FourDigitYear(at: int) { 0 <= at < (LAST_FOUR_DIGIT_SECOND + 1) * 1_000_000_000 }

  lemma FourDigitBound()
    ensures UnixSecs(Civil(10000, 1, 1, 0, 0, 0)) == LAST_FOUR_DIGIT_SECOND + 1
  {
  }

  /** From the epoch on, the year has four digits exactly up to the end of 9999. */
  lemma FourDigits(secs: int)
    requires 0 <= secs <= LAST_SECOND
    ensures var c := CivilFromUnixSecs(secs);
            Valid(c) && 1970 <= c.year && (c.year < 10000 <==> secs <= LAST_FOUR_DIGIT_SECOND)
  {
    CivilCorrectExactly(secs);
    var c := CivilFromUnixSecs(secs);
    var first, bound := Civil(1970, 1, 1, 0, 0, 0), Civil(10000, 1, 1, 0, 0, 0);
    FourDigitBound();
    SecondsOrdered(c, first);
    KeyOrder(c, first);
    SecondsOrdered(c, bound);
    KeyOrder(c, bound);
  }

  lemma WidthSum(ws: seq<nat>)
    ensures Sum([2, 2, 2, 2, 2] + ws) == 10 + Sum(ws)
  {
    var w := [2] + ws;
    assert Sum(w) == 2 + Sum(ws) by { assert w[1..] == ws; }
    var w2 := [2] + w;
    assert Sum(w2) == 4 + Sum(ws) by { assert w2[1..] == w; }
    var w3 := [2] + w2;
    assert Sum(w3) == 6 + Sum(ws) by { assert w3[1..] == w2; }
    var w4 := [2] + w3;
    assert Sum(w4) == 8 + Sum(ws) by { assert w4[1..] == w3; }
    assert ([2, 2, 2, 2, 2] + ws)[1..] == w4;
  }

  lemma DateFits(c: Civil, ms: seq<nat>, ws: seq<nat>)
    requires Valid(c) && 0 <= c.year < 10000 && FitsRow(ms, ws)
    ensures FitsRow([c.year] + ([c.month, c.day, c.hour, c.minute, c.second] + ms), [4] + ([2, 2, 2, 2, 2] + ws))
  {
    PowersOfTen();
    var ns: seq<nat>, v: seq<nat> := [c.year, c.month, c.day, c.hour, c.minute, c.second], [4, 2, 2, 2, 2, 2];
    assert FitsRow(ns, v);
    assert [c.year] + ([c.month, c.day, c.hour, c.minute, c.second] + ms) == ns + ms;
    assert [4] + ([2, 2, 2, 2, 2] + ws) == v + ws;
  }

  /** Printed dates with four-digit years compare like their fields, and all have one width. */
  lemma DateTextOrder(c: Civil, d: Civil, sep: char, ms: seq<nat>, ns: seq<nat>, ws: seq<nat>, seps: string)
    requires Valid(c) && Valid(d) && 0 <= c.year < 10000 && 0 <= d.year < 10000
    requires FitsRow(ms, ws) && FitsRow(ns, ws) && |seps| == |ws|
    ensures var a, b := DateText(c, sep, ms, ws, seps), DateText(d, sep, ns, ws, seps);
            && |a| == 20 + Sum(ws) + |ws|
            && (Lex.Before(Codes(a), Codes(b)) <==> Lex.Before(Key(c) + ms, Key(d) + ns))
  {
    var x, y := [c.month, c.day, c.hour, c.minute, c.second] + ms, [d.month, d.day, d.hour, d.minute, d.second] + ns;
    var w, p := [2, 2, 2, 2, 2] + ws, "-T::" + [sep] + seps;
    assert Key(c) + ms == [c.year] + x && Key(d) + ns == [d.year] + y;
    DateFits(c, ms, ws);
    DateFits(d, ns, ws);
    RowOrder([c.year] + x, [d.year] + y, [4] + w, "-" + p);
    assert ([c.year] + x)[1..] == x && ([d.year] + y)[1..] == y && ([4] + w)[1..] == w && ("-" + p)[1..] == p;
    WidthSum(ws);
  }

  lemma PowersOfTen()
    ensures Decimal.Pow10(2) == 100 && Decimal.Pow10(3) == 1000 && Decimal.Pow10(4) == 10000
  {
    assert Decimal.Pow10(3) == 10 * Decimal.Pow10(2);
  }

  lemma KeysAndTail(s: int, t: int, m: seq<nat>, n: seq<nat>)
    requires FIRST_SECOND <= s <= LAST_SECOND && FIRST_SECOND <= t <= LAST_SECOND
    ensures Lex.Before(Key(CivilFromUnixSecs(s)) + m, Key(CivilFromUnixSecs(t)) + n) <==>
              s < t || (s == t && Lex.Before(m, n))
  {
    var x, y := Key(CivilFromUnixSecs(s)), Key(CivilFromUnixSecs(t));
    Lex.Fields(x, y, m, n);
    CivilMonotone(s, t);
    CivilMonotone(t, s);
    Lex.Trichotomy(x, y);
    Lex.Irreflexive(x);
  }

  /** Texts with one layout compare like the times, then like the further fields. */
  lemma TextSorts(s: int, t: int, sep: char, ms: seq<nat>, ns: seq<nat>, ws: seq<nat>, seps: string)
    requires 0 <= s <= LAST_FOUR_DIGIT_SECOND && 0 <= t <= LAST_FOUR_DIGIT_SECOND
    requires FitsRow(ms, ws) && FitsRow(ns, ws) && |seps| == |ws|
    ensures Valid(CivilFromUnixSecs(s)) && Valid(CivilFromUnixSecs(t))
    ensures var a, b := DateText(CivilFromUnixSecs(s), sep, ms, ws, seps),
                        DateText(CivilFromUnixSecs(t), sep, ns, ws, seps);
            && |a| == 20 + Sum(ws) + |ws|
            && (Lex.Before(Codes(a), Codes(b)) <==> s < t || (s == t && Lex.Before(ms, ns)))
  {
    FourDigits(s);
    FourDigits(t);
    DateTextOrder(CivilFromUnixSecs(s), CivilFromUnixSecs(t), sep, ms, ns, ws, seps);
    KeysAndTail(s, t, ms, ns);
  }

  /**
   Section 5.1 of RFC 3339: for the years 1970 to 9999 the text with second resolution has 20 characters
   and sorts, character by character, like the times.
   */
  lemma SecondsTextSorts(a: int, b: int)
    requires FourDigitYear(a) && FourDigitYear(b)
    ensures |FormatRfc3339Utc(a)| == 20
    ensures Lex.Before(Codes(FormatRfc3339Utc(a)), Codes(FormatRfc3339Utc(b))) <==>
              a / 1_000_000_000 < b / 1_000_000_000
  {
    TextSorts(WholeSeconds(a), WholeSeconds(b), 'Z', [], [], [], "");
  }

  lemma SplitMillis(at: int)
    requires FourDigitYear(at)
    ensures at / 1_000_000 == 1000 * WholeSeconds(at) + Millis(at) && 0 <= Millis(at) < 1000
    ensures 0 <= WholeSeconds(at) <= LAST_FOUR_DIGIT_SECOND
  {
  }

  lemma MillisOrder(a: int, b: int)
    requires FourDigitYear(a) && FourDigitYear(b)
    ensures a / 1_000_000 < b / 1_000_000 <==>
            || WholeSeconds(a) < WholeSeconds(b)
            || (WholeSeconds(a) == WholeSeconds(b) && Lex.Before([Millis(a)], [Millis(b)]))
  {
    SplitMillis(a);
    SplitMillis(b);
  }

  /** The same with milliseconds: 24 characters, sorted at millisecond resolution. */
  lemma MillisTextSorts(a: int, b: int)
    requires FourDigitYear(a) && FourDigitYear(b)
    ensures |FormatRfc3339UtcMillis(a)| == 24
    ensures Lex.Before(Codes(FormatRfc3339UtcMillis(a)), Codes(FormatRfc3339UtcMillis(b))) <==>
              a / 1_000_000 < b / 1_000_000
  {
    SplitMillis(a);
    SplitMillis(b);
    MillisOrder(a, b);
    PowersOfTen();
    TextSorts(WholeSeconds(a), WholeSeconds(b), '.', [Millis(a)], [Millis(b)], [3], "Z");
  }

  /** The year takes four places exactly if it has at most four digits, or a sign and at most three. */
  lemma YearWidth(y: int)
    ensures |PaddedYear(y)| == 4 <==> -999 <= y <= 9999
  {
    PowersOfTen();
    if y >= 0 {
      Decimal.DigitCount(y, 4);
    } else {
      Decimal.DigitCount(-y, 3);
    }
  }

  predicate TwoDigits(c: Civil)
  {
    && 0 <= c.month < 100 && 0 <= c.day < 100 && 0 <= c.hour < 100 && 0 <= c.minute < 100 && 0 <= c.second < 100
  }

  lemma FieldsTwoDigits(secs: int)
    ensures TwoDigits(CivilFromUnixSecs(secs))
  {
    TrueCivilInverts(secs);
    OnlyYearWraps(secs);
  }

  lemma DateWidth(c: Civil)
    requires TwoDigits(c)
    ensures |DateText(c, 'Z', [], [], "")| == |PaddedYear(c.year)| + 16
  {
    var ns: seq<nat> := [c.month, c.day, c.hour, c.minute, c.second] + [];
    var ws: seq<nat> := [2, 2, 2, 2, 2] + [];
    PowersOfTen();
    RowOrder(ns, ns, ws, "-T::" + ['Z'] + "");
    WidthSum([]);
  }

  /** For every time the text has 20 characters exactly if the year printed, wrapped or not, takes four places. */
  lemma WidthExactly(at: int)
    ensures |FormatRfc3339Utc(at)| == 20 <==> -999 <= CivilFromUnixSecs(WholeSeconds(at)).year <= 9999
  {
    FieldsTwoDigits(WholeSeconds(at));
    DateWidth(CivilFromUnixSecs(WholeSeconds(at)));
    YearWidth(CivilFromUnixSecs(WholeSeconds(at)).year);
  }

  /** Up to the end of the 32-bit years the width of 20 marks the times up to the end of 9999. */
  lemma WidthWithinYears(at: int)
    requires at < (LAST_SECOND + 1) * 1_000_000_000
    ensures |FormatRfc3339Utc(at)| == 20 <==> at < 0 || FourDigitYear(at)
  {
    WidthExactly(at);
    FourDigits(WholeSeconds(at));
  }

  // ---- Reading the text ----

  predicate TextAt(s: string, lo: nat, hi: nat, text: string, mark: char)
  {
    lo <= hi < |s| && s[lo..hi] == text && s[hi] == mark
  }

  lemma TextAfter(pre: string, row: string, lo: nat, hi: nat, text: string, mark: char, k: nat)
    requires TextAt(row, lo, hi, text, mark) && k == |pre|
    ensures TextAt(pre + row, k + lo, k + hi, text, mark)
  {
  }

  lemma TextInFront(text: string, mark: char, rest: string)
    ensures TextAt(text + [mark] + rest, 0, |text|, text, mark)
  {
  }

  /** Texts, each followed by its mark. */
  function Marked(texts: seq<string>, marks: string): string
    requires |texts| == |marks|
  {
    if texts == [] then "" else texts[0] + [marks[0]] + Marked(texts[1..], marks[1..])
  }

  lemma {:induction false} MarkedAt(texts: seq<string>, marks: string, i: nat, lo: nat, hi: nat)
    requires |texts| == |marks| && i < |texts| && (forall k :: 0 <= k < i ==> |texts[k]| == 2)
    requires lo == 3 * i && hi == lo + |texts[i]|
    ensures TextAt(Marked(texts, marks), lo, hi, texts[i], marks[i])
    decreases i
  {
    var rest := Marked(texts[1..], marks[1..]);
    if i == 0 {
      TextInFront(texts[0], marks[0], rest);
    } else {
      MarkedAt(texts[1..], marks[1..], i - 1, lo - 3, hi - 3);
      TextAfter(texts[0] + [marks[0]], rest, lo - 3, hi - 3, texts[i], marks[i], 3);
    }
  }

  function Texts(ns: seq<nat>, ws: seq<nat>): (texts: seq<string>)
    requires |ns| == |ws|
    ensures |texts| == |ns|
  {
    seq(|ns|, i requires 0 <= i < |ns| => Decimal.Text(Decimal.Padded(ns[i], ws[i])))
  }

  lemma {:induction false} RowIsMarked(ns: seq<nat>, ws: seq<nat>, marks: string)
    requires |ns| == |ws| == |marks|
    ensures Row(ns, ws, marks) == Marked(Texts(ns, ws), marks)
  {
    if ns != [] {
      RowIsMarked(ns[1..], ws[1..], marks[1..]);
      assert Texts(ns, ws)[1..] == Texts(ns[1..], ws[1..]);
    }
  }

  /** A year in four places, then texts of which the first five are two characters long. */
  lemma MarkedStands(year: string, texts: seq<string>, marks: string, s: string)
    requires |year| == 4 && |texts| == |marks| >= 5 && (forall k :: 0 <= k < 5 ==> |texts[k]| == 2)
    requires s == year + "-" + Marked(texts, marks)
    ensures TextAt(s, 0, 4, year, '-') && TextAt(s, 5, 7, texts[0], marks[0]) && TextAt(s, 8, 10, texts[1], marks[1])
    ensures TextAt(s, 11, 13, texts[2], marks[2]) && TextAt(s, 14, 16, texts[3], marks[3])
    ensures TextAt(s, 17, 19, texts[4], marks[4])
    ensures |texts| > 5 ==> TextAt(s, 20, 20 + |texts[5]|, texts[5], marks[5])
  {
    TextInFront(year, '-', Marked(texts, marks));
    AfterYear(year, texts, marks, 0, 5, 7);
    AfterYear(year, texts, marks, 1, 8, 10);
    AfterYear(year, texts, marks, 2, 11, 13);
    AfterYear(year, texts, marks, 3, 14, 16);
    AfterYear(year, texts, marks, 4, 17, 19);
    if |texts| > 5 {
      AfterYear(year, texts, marks, 5, 20, 20 + |texts[5]|);
    }
  }

  lemma AfterYear(year: string, texts: seq<string>, marks: string, i: nat, lo: nat, hi: nat)
    requires |year| == 4 && |texts| == |marks| && i < |texts| && (forall k :: 0 <= k < i ==> |texts[k]| == 2)
    requires lo == 5 + 3 * i && hi == lo + |texts[i]|
    ensures TextAt(year + "-" + Marked(texts, marks), lo, hi, texts[i], marks[i])
  {
    MarkedAt(texts, marks, i, lo - 5, hi - 5);
    TextAfter(year + "-", Marked(texts, marks), lo - 5, hi - 5, texts[i], marks[i], 5);
  }

  /** A number in decimal, zeros in front. */
  function Places(n: int, w: nat): string { if n < 0 then "" else Decimal.Text(Decimal.Padded(n, w)) }

  lemma PlacesWidth(n: nat, w: nat)
    requires w >= 1 && n < Decimal.Pow10(w)
    ensures |Places(n, w)| == w
  {
    Decimal.PaddedIsFixed(n, w);
  }

  lemma TwoPlaces(c: Civil)
    requires TwoDigits(c)
    ensures |Places(c.month, 2)| == 2 && |Places(c.day, 2)| == 2 && |Places(c.hour, 2)| == 2
    ensures |Places(c.minute, 2)| == 2 && |Places(c.second, 2)| == 2
  {
    PowersOfTen();
    PlacesWidth(c.month, 2);
    PlacesWidth(c.day, 2);
    PlacesWidth(c.hour, 2);
    PlacesWidth(c.minute, 2);
    PlacesWidth(c.second, 2);
  }

  /** The date and time as it stands in the text. */
  predicate DateStands(s: string, c: Civil, sep: char)
  {
    && TextAt(s, 0, 4, Places(c.year, 4), '-') && TextAt(s, 5, 7, Places(c.month, 2), '-')
    && TextAt(s, 8, 10, Places(c.day, 2), 'T') && TextAt(s, 11, 13, Places(c.hour, 2), ':')
    && TextAt(s, 14, 16, Places(c.minute, 2), ':') && TextAt(s, 17, 19, Places(c.second, 2), sep)
  }

  lemma DateTexts(c: Civil, ms: seq<nat>, ws: seq<nat>)
    requires TwoDigits(c) && |ms| == |ws|
    ensures var texts := Texts([c.month, c.day, c.hour, c.minute, c.second] + ms, [2, 2, 2, 2, 2] + ws);
            && texts[0] == Places(c.month, 2) && texts[1] == Places(c.day, 2) && texts[2] == Places(c.hour, 2)
            && texts[3] == Places(c.minute, 2) && texts[4] == Places(c.second, 2)
            && (|ms| > 0 ==> texts[5] == Places(ms[0], ws[0]))
  {
  }

  lemma TextsStand(c: Civil, sep: char, texts: seq<string>, marks: string, s: string)
    requires |Places(c.year, 4)| == 4 && |texts| == |marks| >= 5 && (forall k :: 0 <= k < 5 ==> |texts[k]| == 2)
    requires texts[0] == Places(c.month, 2) && texts[1] == Places(c.day, 2) && texts[2] == Places(c.hour, 2)
    requires texts[3] == Places(c.minute, 2) && texts[4] == Places(c.second, 2)
    requires marks[0] == '-' && marks[1] == 'T' && marks[2] == ':' && marks[3] == ':' && marks[4] == sep
    requires s == Places(c.year, 4) + "-" + Marked(texts, marks)
    ensures DateStands(s, c, sep)
    ensures |texts| > 5 ==> TextAt(s, 20, 20 + |texts[5]|, texts[5], marks[5])
  {
    MarkedStands(Places(c.year, 4), texts, marks, s);
  }

  lemma DateIsMarked(c: Civil, sep: char, ms: seq<nat>, ws: seq<nat>, seps: string)
    requires TwoDigits(c) && 0 <= c.year <= 9999 && |ms| == |ws| == |seps|
    ensures |Places(c.year, 4)| == 4
    ensures DateText(c, sep, ms, ws, seps) ==
            Places(c.year, 4) + "-" +
            Marked(Texts([c.month, c.day, c.hour, c.minute, c.second] + ms, [2, 2, 2, 2, 2] + ws),
                   "-T::" + [sep] + seps)
  {
    YearWidth(c.year);
    RowIsMarked([c.month, c.day, c.hour, c.minute, c.second] + ms, [2, 2, 2, 2, 2] + ws, "-T::" + [sep] + seps);
  }

  lemma MarksAre(sep: char, seps: string)
    ensures var marks := "-T::" + [sep] + seps;
            && |marks| == 5 + |seps| && marks[0] == '-' && marks[1] == 'T' && marks[2] == ':' && marks[3] == ':'
            && marks[4] == sep && (seps != [] ==> marks[5] == seps[0])
  {
  }

  lemma DateFields(c: Civil, sep: char, ms: seq<nat>, ws: seq<nat>, seps: string)
    requires TwoDigits(c) && 0 <= c.year <= 9999 && |ms| == |ws| == |seps|
    ensures DateStands(DateText(c, sep, ms, ws, seps), c, sep)
    ensures |ms| > 0 ==>
              TextAt(DateText(c, sep, ms, ws, seps), 20, 20 + |Places(ms[0], ws[0])|, Places(ms[0], ws[0]), seps[0])
  {
    DateTexts(c, ms, ws);
    TwoPlaces(c);
    MarksAre(sep, seps);
    DateIsMarked(c, sep, ms, ws, seps);
    TextsStand(c, sep, Texts([c.month, c.day, c.hour, c.minute, c.second] + ms, [2, 2, 2, 2, 2] + ws),
               "-T::" + [sep] + seps, DateText(c, sep, ms, ws, seps));
  }

  /** `YYYY-MM-DDTHH:MM:SSZ`: the fields of the date and time, in this order and with these marks between them. */
  lemma SecondsTextReads(at: int)
    requires 0 <= CivilFromUnixSecs(WholeSeconds(at)).year <= 9999
    ensures |FormatRfc3339Utc(at)| == 20
    ensures DateStands(FormatRfc3339Utc(at), CivilFromUnixSecs(WholeSeconds(at)), 'Z')
  {
    FieldsTwoDigits(WholeSeconds(at));
    WidthExactly(at);
    DateFields(CivilFromUnixSecs(WholeSeconds(at)), 'Z', [], [], "");
  }

  /** `YYYY-MM-DDTHH:MM:SS.mmmZ`. */
  lemma MillisTextReads(at: int)
    requires 0 <= CivilFromUnixSecs(WholeSeconds(at)).year <= 9999
    ensures DateStands(FormatRfc3339UtcMillis(at), CivilFromUnixSecs(WholeSeconds(at)), '.')
    ensures TextAt(FormatRfc3339UtcMillis(at), 20, 23, Places(Millis(at), 3), 'Z')
  {
    FieldsTwoDigits(WholeSeconds(at));
    PowersOfTen();
    PlacesWidth(Millis(at), 3);
    DateFields(CivilFromUnixSecs(WholeSeconds(at)), '.', [Millis(at)], [3], "Z");
  }
}
