/** Calendar dates from a count of days: the three copies of the computation, in
    their own arithmetics, and the five date readers built on them
    (crates/fs-ntfs/src/date.rs, crates/fs-apfs/src/civil.rs,
    crates/fs-hfs/src/date.rs, crates/fs-ext/src/lib.rs:417-438 and
    crates/reclaim-carve/src/validators/isobmff.rs:210-232). */
module Civil {
  import opened Wrappers

  datatype Date = Date(year: int, month: int, day: int)

  /** Rust's division: towards zero. */
  function TruncDiv(a: int, b: int): int
    requires b > 0
  {
    if a >= 0 then a / b else -(-a / b)
  }

  function YearOfEra(doe: int): int { (doe - doe / 1460 + doe / 36524 - doe / 146_096) / 365 }

  /** Day, month and year from the year that begins in March, and the day in it. */
  function InMarchYear(y: int, doy: int): Date {
    var mp := (5 * doy + 2) / 153;
    var d := doy - (153 * mp + 2) / 5 + 1;
    var m := if mp < 10 then mp + 3 else mp - 9;
    Date(if m <= 2 then y + 1 else y, m, d)
  }

  function YearStartInEra(yoe: int): int { 365 * yoe + yoe / 4 - yoe / 100 }

  /** The date of a day of a 400-year era. */
  function InEraOf(era: int, doe: int): Date {
    var yoe := YearOfEra(doe);
    InMarchYear(yoe + era * 400, doe - YearStartInEra(yoe))
  }

  /** `as u64`. */
  function ToU64(x: int): nat { if 0 <= x < 0x1_0000_0000_0000_0000 then x else x % 0x1_0000_0000_0000_0000 }

  function EraTowardsZero(z: int): int { TruncDiv(if z >= 0 then z else z - 146_096, 146_097) }

  /** `civil_from_days` of NTFS and ext: days since 1970-01-01, unsigned from the
      day of the era on. */
  function CivilFromDays(days: int): Date {
    var z := days + 719_468;
    var era := EraTowardsZero(z);
    InEraOf(era, ToU64(DayOfEra(z, era)))
  }

  function DayOfEra(z: int, era: int): int { z - era * 146_097 }

  function SignedYearOfEra(doe: int): int {
    TruncDiv(doe - TruncDiv(doe, 1460) + TruncDiv(doe, 36_524) - TruncDiv(doe, 146_096), 365)
  }

  function SignedInMarchYear(y: int, doy: int): Date {
    var mp := TruncDiv(5 * doy + 2, 153);
    var d := doy - TruncDiv(153 * mp + 2, 5) + 1;
    var m := if mp < 10 then mp + 3 else mp - 9;
    Date(if m <= 2 then y + 1 else y, m, d)
  }

  function SignedInEraOf(era: int, doe: int): Date {
    var yoe := SignedYearOfEra(doe);
    SignedInMarchYear(yoe + era * 400, doe - (365 * yoe + TruncDiv(yoe, 4) - TruncDiv(yoe, 100)))
  }

  /** The copy in the APFS and HFS+ readers: signed throughout. */
  function SignedCivil(days: int): Date {
    var z := days + 719_468;
    var era := EraTowardsZero(z);
    SignedInEraOf(era, DayOfEra(z, era))
  }

  /** The copy in the movie validator: the era is `div_euclid`, the rest signed. */
  function EuclidCivil(days: int): Date {
    var z := days + 719_468;
    var era := z / 146_097;
    SignedInEraOf(era, DayOfEra(z, era))
  }

  // ----------------------------------------------------------- the calendar itself

  predicate IsLeap(y: int) { y % 4 == 0 && (y % 100 != 0 || y % 400 == 0) }

  function DaysIn(y: int, m: int): int {
    if m == 2 then (if IsLeap(y) then 29 else 28)
    else if m == 4 || m == 6 || m == 9 || m == 11 then 30 else 31
  }

  predicate Valid(d: Date) { 1 <= d.month <= 12 && 1 <= d.day <= DaysIn(d.year, d.month) }

  function NextDay(d: Date): Date {
    if d.day < DaysIn(d.year, d.month) then Date(d.year, d.month, d.day + 1)
    else if d.month < 12 then Date(d.year, d.month + 1, 1)
    else Date(d.year + 1, 1, 1)
  }

  /** Days of the months before `m`. */
  function DaysBefore(y: int, m: int): int
    decreases m
  {
    if m <= 1 then 0 else DaysBefore(y, m - 1) + DaysIn(y, m - 1)
  }

  function LeapsUpTo(y: int): int { y / 4 - y / 100 + y / 400 }

  /** Days from 0001-01-01 to the first day of the year. */
  function YearStart(y: int): int { 365 * (y - 1) + LeapsUpTo(y - 1) }

  /** Days since 1970-01-01, counted by years and months. */
  function DayNumber(d: Date): int { YearStart(d.year) + DaysBefore(d.year, d.month) + d.day - 1 - 719_162 }

  lemma Every4(y: int)
    ensures y / 4 == (y - 1) / 4 + (if y % 4 == 0 then 1 else 0)
  {
  }

  lemma Every100(y: int)
    ensures y / 100 == (y - 1) / 100 + (if y % 100 == 0 then 1 else 0)
  {
  }

  lemma Every400(y: int)
    ensures y / 400 == (y - 1) / 400 + (if y % 400 == 0 then 1 else 0)
  {
  }

  lemma CenturyIsFourth(y: int)
    requires y % 100 == 0
    ensures y % 4 == 0
  {
    var q := y / 100;
    assert y == 100 * q;
  }

  lemma FourthCenturyIsCentury(y: int)
    requires y % 400 == 0
    ensures y % 100 == 0
  {
    var q := y / 400;
    assert y == 400 * q;
  }

  lemma CenturiesAreFourths(y: int)
    ensures y % 100 == 0 ==> y % 4 == 0
    ensures y % 400 == 0 ==> y % 100 == 0
  {
    if y % 100 == 0 {
      CenturyIsFourth(y);
    }
    if y % 400 == 0 {
      FourthCenturyIsCentury(y);
    }
  }

  lemma LeapsGrow(y: int)
    ensures LeapsUpTo(y) == LeapsUpTo(y - 1) + (if IsLeap(y) then 1 else 0)
  {
    Every4(y);
    Every100(y);
    Every400(y);
    CenturiesAreFourths(y);
  }

  lemma YearLength(y: int)
    ensures YearStart(y + 1) == YearStart(y) + (if IsLeap(y) then 366 else 365)
  {
    LeapsGrow(y);
  }

  lemma MonthTable(y: int, m: int)
    requires 1 <= m <= 12
    ensures DaysBefore(y, m) ==
            [0, 31, 59, 90, 120, 151, 181, 212, 243, 273, 304, 334][m - 1] + (if m > 2 && IsLeap(y) then 1 else 0)
  {
    assert DaysBefore(y, 1) == 0;
    assert DaysBefore(y, 2) == 31;
    assert DaysBefore(y, 3) == 31 + DaysIn(y, 2);
    assert DaysBefore(y, 5) == DaysBefore(y, 3) + 61;
    assert DaysBefore(y, 7) == DaysBefore(y, 5) + 61;
    assert DaysBefore(y, 9) == DaysBefore(y, 7) + 62;
    assert DaysBefore(y, 11) == DaysBefore(y, 9) + 61;
  }

  lemma DaysOfYear(y: int)
    ensures DaysBefore(y, 12) + 31 == if IsLeap(y) then 366 else 365
  {
    MonthTable(y, 12);
  }

  // ----------------------------------------------- the algorithm against the calendar

  /** Where the months begin in a year that begins in March. */
  function MarchStart(mp: int): int { (153 * mp + 2) / 5 }

  lemma MarchTable(y: int, mp: int)
    requires 0 <= mp <= 11
    ensures mp < 10 ==> DaysBefore(y, mp + 3) == MarchStart(mp) + 59 + (if IsLeap(y) then 1 else 0)
    ensures mp < 10 ==> DaysIn(y, mp + 3) == MarchStart(mp + 1) - MarchStart(mp)
    ensures mp >= 10 ==> DaysBefore(y, mp - 9) == MarchStart(mp) - 306
    ensures mp == 10 ==> DaysIn(y, 1) == MarchStart(11) - MarchStart(10)
  {
    MonthTable(y, if mp < 10 then mp + 3 else mp - 9);
  }

  lemma MarchMonthOf(doy: int) returns (mp: int)
    requires 0 <= doy <= 365
    ensures mp == (5 * doy + 2) / 153 && 0 <= mp <= 11
    ensures MarchStart(mp) <= doy < MarchStart(mp + 1)
  {
    mp := (5 * doy + 2) / 153;
  }

  /** The day of the year that begins in March: month and day are found. */
  lemma MarchMonth(y: int, doy: int)
    requires 0 <= doy <= 365 && (doy == 365 ==> IsLeap(y + 1))
    ensures Valid(InMarchYear(y, doy))
    ensures DayNumber(InMarchYear(y, doy)) == YearStart(y + 1) - 306 + doy - 719_162
  {
    var mp := MarchMonthOf(doy);
    MarchTable(y, mp);
    MarchTable(y + 1, mp);
    YearLength(y);
    if mp < 10 {
      assert InMarchYear(y, doy) == Date(y, mp + 3, doy - MarchStart(mp) + 1);
    } else {
      assert InMarchYear(y, doy) == Date(y + 1, mp - 9, doy - MarchStart(mp) + 1);
    }
  }

  /** 400 years from their centuries, four-year spans, years and days. */
  function EraDay(c: int, t: int, s: int, j: int): int { 36_524 * c + 1461 * t + 365 * s + j }

  predicate InEra(c: int, t: int, s: int, j: int) {
    0 <= c <= 3 && 0 <= t <= 24 && 0 <= s <= 3 && 0 <= j <= 365 && (j == 365 ==> s == 3 && (t < 24 || c == 3))
  }

  lemma SplitEra(doe: int) returns (c: int, t: int, s: int, j: int)
    requires 0 <= doe < 146_097
    ensures InEra(c, t, s, j) && doe == EraDay(c, t, s, j)
  {
    c := if doe / 36_524 > 3 then 3 else doe / 36_524;
    var inCentury := doe - 36_524 * c;
    t := inCentury / 1461;
    var inSpan := inCentury - 1461 * t;
    s := if inSpan / 365 > 3 then 3 else inSpan / 365;
    j := inSpan - 365 * s;
  }

  /** The closed formula finds the year of the era. */
  lemma YearOfEraIs(c: int, t: int, s: int, j: int)
    requires InEra(c, t, s, j)
    ensures YearOfEra(EraDay(c, t, s, j)) == 100 * c + 4 * t + s
  {
    var doe := EraDay(c, t, s, j);
    var q := 25 * c + t;
    assert doe == 1460 * q + (q - c + 365 * s + j);
    assert doe / 1460 == if q - c + 365 * s + j >= 1460 then q + 1 else q;
    assert doe / 36_524 == if 1461 * t + 365 * s + j >= 36_524 then c + 1 else c;
    assert doe / 146_096 == if doe >= 146_096 then 1 else 0;
  }

  lemma EraOf(z: int)
    ensures EraTowardsZero(z) == z / 146_097
  {
  }

  lemma YearQuotients(era: int, c: int, t: int, s: int)
    requires 0 <= c <= 3 && 0 <= t <= 24 && 0 <= s <= 3
    ensures (400 * era + 100 * c + 4 * t + s) / 4 == 100 * era + 25 * c + t
    ensures (400 * era + 100 * c + 4 * t + s) / 100 == 4 * era + c
    ensures (400 * era + 100 * c + 4 * t + s) / 400 == era
  {
  }

  lemma LeapYears(era: int, c: int, t: int, s: int)
    requires 0 <= c <= 3 && 0 <= t <= 24 && 0 <= s <= 3
    ensures IsLeap(400 * era + 100 * c + 4 * t + s + 1) <==> s == 3 && (t < 24 || c == 3)
  {
    var y := 400 * era + 100 * c + 4 * t + s;
    YearQuotients(era, c, t, s);
    Every4(y + 1);
    Every100(y + 1);
    Every400(y + 1);
    CenturiesAreFourths(y + 1);
  }

  lemma YearsBefore(era: int, c: int, t: int, s: int)
    requires 0 <= c <= 3 && 0 <= t <= 24 && 0 <= s <= 3
    ensures YearStart(400 * era + 100 * c + 4 * t + s + 1) == 146_097 * era + EraDay(c, t, s, 0)
  {
    YearQuotients(era, c, t, s);
  }

  lemma EraIs(z: int, era: int, doe: int)
    requires z == era * 146_097 + doe && 0 <= doe < 146_097
    ensures EraTowardsZero(z) == era
  {
    EraOf(z);
  }

  lemma InEraInParts(era: int, c: int, t: int, s: int, j: int)
    requires InEra(c, t, s, j)
    ensures InEraOf(era, EraDay(c, t, s, j)) == InMarchYear(400 * era + 100 * c + 4 * t + s, j)
  {
    YearOfEraIs(c, t, s, j);
    YearQuotients(0, c, t, s);
    assert YearStartInEra(100 * c + 4 * t + s) == EraDay(c, t, s, 0);
  }

  lemma CivilInParts(z: int, era: int, doe: int)
    requires z + 719_468 == era * 146_097 + doe && 0 <= doe < 146_097
    ensures CivilFromDays(z) == InEraOf(era, doe)
  {
    EraIs(z + 719_468, era, doe);
    DayOfEraIs(z + 719_468, era, doe);
  }

  lemma SignedInParts(z: int, era: int, doe: int)
    requires z + 719_468 == era * 146_097 + doe && 0 <= doe < 146_097
    ensures SignedCivil(z) == SignedInEraOf(era, doe)
  {
    EraIs(z + 719_468, era, doe);
    DayOfEraIs(z + 719_468, era, doe);
  }

  lemma EuclidInParts(z: int, era: int, doe: int)
    requires z + 719_468 == era * 146_097 + doe && 0 <= doe < 146_097
    ensures EuclidCivil(z) == SignedInEraOf(era, doe)
  {
    DayOfEraIs(z + 719_468, era, doe);
  }

  lemma DayOfEraIs(z: int, era: int, doe: int)
    requires z == era * 146_097 + doe && 0 <= doe < 146_097
    ensures DayOfEra(z, era) == doe && ToU64(doe) == doe && z / 146_097 == era
  {
  }

  lemma DateOfParts(era: int, c: int, t: int, s: int, j: int)
    requires InEra(c, t, s, j)
    ensures Valid(InEraOf(era, EraDay(c, t, s, j)))
    ensures DayNumber(InEraOf(era, EraDay(c, t, s, j))) == 146_097 * era + EraDay(c, t, s, j) - 719_468
  {
    InEraInParts(era, c, t, s, j);
    YearsBefore(era, c, t, s);
    LeapYears(era, c, t, s);
    MarchMonth(400 * era + 100 * c + 4 * t + s, j);
  }

  lemma PartsOf(z: int) returns (era: int, c: int, t: int, s: int, j: int)
    ensures InEra(c, t, s, j) && z + 719_468 == era * 146_097 + EraDay(c, t, s, j)
    ensures CivilFromDays(z) == InEraOf(era, EraDay(c, t, s, j))
  {
    era := (z + 719_468) / 146_097;
    c, t, s, j := SplitEra((z + 719_468) % 146_097);
    CivilInParts(z, era, EraDay(c, t, s, j));
  }

  // ------------------------------------------------------------ the copies agree

  lemma TowardsZeroIsDown(a: int, b: int)
    requires a >= 0 && b > 0
    ensures TruncDiv(a, b) == a / b
  {
  }

  lemma SignedYearIs(c: int, t: int, s: int, j: int)
    requires InEra(c, t, s, j)
    ensures SignedYearOfEra(EraDay(c, t, s, j)) == YearOfEra(EraDay(c, t, s, j)) == 100 * c + 4 * t + s
  {
    var doe := EraDay(c, t, s, j);
    YearOfEraIs(c, t, s, j);
    assert doe - doe / 1460 + doe / 36_524 - doe / 146_096 >= 0;
  }

  lemma SignedMarchIs(y: int, doy: int)
    requires 0 <= doy <= 365
    ensures SignedInMarchYear(y, doy) == InMarchYear(y, doy)
  {
    TowardsZeroIsDown(5 * doy + 2, 153);
    TowardsZeroIsDown(153 * ((5 * doy + 2) / 153) + 2, 5);
  }

  /** Nothing the unsigned copy subtracts is larger than what it is taken from. */
  lemma NothingUnderflows(c: int, t: int, s: int, j: int)
    requires InEra(c, t, s, j)
    ensures var doe := EraDay(c, t, s, j);
            && doe >= doe / 1460 && doe - doe / 1460 + doe / 36_524 >= doe / 146_096
            && doe - YearStartInEra(YearOfEra(doe)) == j && j >= MarchStart((5 * j + 2) / 153)
  {
    YearOfEraIs(c, t, s, j);
    YearQuotients(0, c, t, s);
    var mp := MarchMonthOf(j);
  }

  lemma SignedInEraIs(era: int, c: int, t: int, s: int, j: int)
    requires InEra(c, t, s, j)
    ensures SignedInEraOf(era, EraDay(c, t, s, j)) == InEraOf(era, EraDay(c, t, s, j))
  {
    SignedYearIs(c, t, s, j);
    NothingUnderflows(c, t, s, j);
    SignedMarchIs(100 * c + 4 * t + s + era * 400, j);
  }

  lemma InEraIsBelow(c: int, t: int, s: int, j: int)
    requires InEra(c, t, s, j)
    ensures 0 <= EraDay(c, t, s, j) < 146_097
  {
  }

  /** For every day there is, the three copies give one date. */
  lemma CopiesAgree(days: int)
    ensures SignedCivil(days) == CivilFromDays(days) && EuclidCivil(days) == CivilFromDays(days)
  {
    var era, c, t, s, j := PartsOf(days);
    var doe := EraDay(c, t, s, j);
    InEraIsBelow(c, t, s, j);
    SignedInParts(days, era, doe);
    EuclidInParts(days, era, doe);
    SignedInEraIs(era, c, t, s, j);
  }

  /** The date of every day there is, is valid. */
  lemma CivilIsValid(z: int)
    ensures Valid(CivilFromDays(z))
  {
    var era, c, t, s, j := PartsOf(z);
    DateOfParts(era, c, t, s, j);
  }

  /** And it is that day. */
  lemma CivilIsThatDay(z: int)
    ensures DayNumber(CivilFromDays(z)) == z
  {
    var era, c, t, s, j := PartsOf(z);
    DateOfParts(era, c, t, s, j);
  }

  predicate Earlier(a: Date, b: Date) {
    a.year < b.year || (a.year == b.year && (a.month < b.month || (a.month == b.month && a.day < b.day)))
  }

  lemma YearsRise(a: int, b: int)
    requires a <= b
    ensures YearStart(a) <= YearStart(b)
    decreases b - a
  {
    if a < b {
      YearsRise(a, b - 1);
      YearLength(b - 1);
    }
  }

  lemma {:induction false} MonthsRise(y: int, m: int, n: int)
    requires 1 <= m < n
    ensures DaysBefore(y, m) + DaysIn(y, m) <= DaysBefore(y, n)
    decreases n
  {
    if m < n - 1 {
      MonthsRise(y, m, n - 1);
    }
  }

  lemma InsideYear(d: Date)
    requires Valid(d)
    ensures YearStart(d.year) <= DayNumber(d) + 719_162 < YearStart(d.year + 1)
  {
    MonthTable(d.year, d.month);
    YearLength(d.year);
    DaysOfYear(d.year);
    if d.month < 12 {
      MonthsRise(d.year, d.month, 12);
    }
  }

  /** Earlier dates have smaller numbers, so no two dates share one. */
  lemma EarlierIsLess(a: Date, b: Date)
    requires Valid(a) && Valid(b) && Earlier(a, b)
    ensures DayNumber(a) < DayNumber(b)
  {
    if a.year < b.year {
      InsideYear(a);
      InsideYear(b);
      YearsRise(a.year + 1, b.year);
    } else if a.month < b.month {
      MonthsRise(a.year, a.month, b.month);
    }
  }

  lemma NumberIsUnique(d: Date, e: Date)
    requires Valid(d) && Valid(e) && DayNumber(d) == DayNumber(e)
    ensures d == e
  {
    if Earlier(e, d) {
      EarlierIsLess(e, d);
    } else if Earlier(d, e) {
      EarlierIsLess(d, e);
    }
  }

  lemma CivilIs(d: Date, z: int)
    requires Valid(d) && DayNumber(d) == z
    ensures CivilFromDays(z) == d
  {
    CivilIsValid(z);
    CivilIsThatDay(z);
    NumberIsUnique(d, CivilFromDays(z));
  }

  /** `civil_from_days` and the day count are each other's inverse. */
  lemma CivilIsInverse(d: Date)
    requires Valid(d)
    ensures CivilFromDays(DayNumber(d)) == d
  {
    CivilIs(d, DayNumber(d));
  }

  lemma NextDayIsNext(d: Date)
    requires Valid(d)
    ensures Valid(NextDay(d)) && DayNumber(NextDay(d)) == DayNumber(d) + 1
  {
    if d.day >= DaysIn(d.year, d.month) {
      if d.month < 12 {
        assert DaysBefore(d.year, d.month + 1) == DaysBefore(d.year, d.month) + DaysIn(d.year, d.month);
      } else {
        YearLength(d.year);
        DaysOfYear(d.year);
      }
    }
  }

  lemma NextDayIsThatDay(d: Date, z: int)
    requires Valid(d) && DayNumber(d) == z
    ensures CivilFromDays(z + 1) == NextDay(d)
  {
    NextDayIsNext(d);
    CivilIs(NextDay(d), z + 1);
  }

  /** The day after any day is the next calendar day. */
  lemma CivilFollowsTheCalendar(z: int)
    ensures CivilFromDays(z + 1) == NextDay(CivilFromDays(z))
  {
    CivilIsValid(z);
    CivilIsThatDay(z);
    NextDayIsThatDay(CivilFromDays(z), z);
  }

  /** Day 0 is 1970-01-01. */
  lemma CivilAtTheEpoch()
    ensures CivilFromDays(0) == Date(1970, 1, 1)
  {
    CivilIs(Date(1970, 1, 1), 0);
  }

  // --------------------------------------------------------------- the five readers

  const SECONDS_A_DAY: int := 86_400
  const LAST_PLAUSIBLE: int := 4_102_444_800
  const EPOCH_DIFF: int := 11_644_473_600
  const HFS_EPOCH_OFFSET: int := 2_082_844_800

  /** NTFS, from 100 ns intervals since 1601. */
  function FiletimeDate(ft: nat): Option<Date> {
    if ft == 0 then None
    else
      var secs := ft / 10_000_000 - EPOCH_DIFF;
      if !(-62_135_596_800 <= secs <= 253_402_300_799) then None
      else
        var d := CivilFromDays(secs / SECONDS_A_DAY);
        if !(1 <= d.month <= 12) || !(1 <= d.day <= 31) then None else Some(d)
  }

  /** APFS and HFS+, from Unix seconds. */
  function DateFromUnix(secs: int): Option<Date> {
    if secs <= 0 || secs > LAST_PLAUSIBLE then None else Some(SignedCivil(secs / SECONDS_A_DAY))
  }

  /** HFS+, from seconds since 1904. */
  function HfsDate(secs: nat): Option<Date> {
    if secs == 0 then None else DateFromUnix(secs - HFS_EPOCH_OFFSET)
  }

  /** ext, from Unix seconds. */
  function DateFromEpoch(secs: nat): Option<Date> {
    if secs == 0 then None else Some(CivilFromDays(TruncDiv(secs, SECONDS_A_DAY)))
  }

  /** The movie validator, from seconds since 1904. */
  function MovieDate(secs: nat): Option<Date> {
    if secs < HFS_EPOCH_OFFSET then None
    else Some(EuclidCivil((secs - HFS_EPOCH_OFFSET) / SECONDS_A_DAY))
  }

  /** A FILETIME is refused exactly when it is 0 or after the year 9999; the check
      of month and day never refuses, and the year has four digits. */
  lemma FiletimeIsRefusedIff(ft: nat)
    ensures FiletimeDate(ft) == None <==> ft == 0 || ft / 10_000_000 > 253_402_300_799 + 11_644_473_600
    ensures FiletimeDate(ft).Some? ==> 1601 <= FiletimeDate(ft).value.year <= 9999
  {
    var days := (ft / 10_000_000 - EPOCH_DIFF) / SECONDS_A_DAY;
    var d := CivilFromDays(days);
    CivilIsValid(days);
    CivilIsThatDay(days);
    InsideYear(d);
    if d.year < 1601 {
      YearsRise(d.year + 1, 1601);
    } else if d.year > 9999 {
      YearsRise(10_000, d.year);
    }
  }

  /** All readers give one moment one date wherever their own limits accept it. */
  lemma ReadersAgree(secs: nat, part: nat)
    requires part < 10_000_000
    ensures FiletimeDate((secs + 11_644_473_600) * 10_000_000 + part)
         == if secs <= 253_402_300_799 then Some(CivilFromDays(secs / 86_400)) else None
    ensures DateFromUnix(secs)
         == if 0 < secs <= 4_102_444_800 then Some(CivilFromDays(secs / 86_400)) else None
    ensures HfsDate(secs + 2_082_844_800) == DateFromUnix(secs)
    ensures DateFromEpoch(secs) == if secs > 0 then Some(CivilFromDays(secs / 86_400)) else None
    ensures MovieDate(secs + 2_082_844_800) == Some(CivilFromDays(secs / 86_400))
  {
    FiletimeOf(secs, part);
    CopiesAgree(secs / 86_400);
  }

  lemma FiletimeOf(secs: nat, part: nat)
    requires part < 10_000_000
    ensures FiletimeDate((secs + 11_644_473_600) * 10_000_000 + part)
         == if secs <= 253_402_300_799 then Some(CivilFromDays(secs / 86_400)) else None
  {
    var ft := (secs + 11_644_473_600) * 10_000_000 + part;
    assert ft / 10_000_000 == secs + 11_644_473_600;
    FiletimeIsRefusedIff(ft);
  }

  /** So do the moments before 1970: a FILETIME counts days from 1601 on. */
  lemma FiletimeCountsDays(ft: nat)
    requires FiletimeDate(ft).Some?
    ensures FiletimeDate(ft) == Some(CivilFromDays(ft / 864_000_000_000 - 134_774))
  {
    var secs := ft / 10_000_000;
    assert secs / 86_400 == ft / 864_000_000_000;
    assert (secs - 11_644_473_600) / 86_400 == secs / 86_400 - 134_774;
  }

  /** An HFS+ date is refused up to 1970 and after 2100, a movie's before 1970. */
  lemma MacDatesAreRefusedIff(secs: nat)
    ensures HfsDate(secs) == None <==> secs <= 2_082_844_800 || secs > 2_082_844_800 + 4_102_444_800
    ensures MovieDate(secs) == None <==> secs < 2_082_844_800
  {
  }

  lemma NumberOfFirst(y: int, days: int)
    requires days == YearStart(y) - 719_162
    ensures CivilFromDays(days) == Date(y, 1, 1)
  {
    CivilIs(Date(y, 1, 1), days);
  }

  /** The epochs of the readers are dates: Windows, classic Mac OS and Unix. */
  lemma EpochsAreDates()
    ensures CivilFromDays(-134_774) == Date(1601, 1, 1) && EPOCH_DIFF == 134_774 * 86_400
    ensures CivilFromDays(-24_107) == Date(1904, 1, 1) && HFS_EPOCH_OFFSET == 24_107 * 86_400
    ensures CivilFromDays(0) == Date(1970, 1, 1)
  {
    NumberOfFirst(1601, -134_774);
    NumberOfFirst(1904, -24_107);
    NumberOfFirst(1970, 0);
  }

  /** Their limits are dates too. */
  lemma LimitsAreDates()
    ensures CivilFromDays(47_482) == Date(2100, 1, 1) && LAST_PLAUSIBLE == 47_482 * 86_400
    ensures CivilFromDays(2_932_897) == Date(10_000, 1, 1) && 253_402_300_800 == 2_932_897 * 86_400
  {
    NumberOfFirst(2100, 47_482);
    NumberOfFirst(10_000, 2_932_897);
  }
}
