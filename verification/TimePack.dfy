/**
 File times: broken-down dates to seconds since 2001, and those seconds packed into
 an EXT inode and into an NTFS FILETIME.

 The date conversion counts every fourth year as a leap year. It is compared with a
 calendar that ticks second by second under that rule, and with the Gregorian one.
 */
module TimePack {
  import opened Words

  /** A broken-down time as the file interface carries it. */
  datatype Bdfe = Bdfe(sec: int, min: int, hour: int, day: int, month: int, year: int)

  // ----- the conversion -----

  const MONTHS: seq<nat> := [31, 28, 31, 30, 31, 30, 31, 31, 30, 31, 30, 31,
                             31, 29, 31, 30, 31, 30, 31, 31, 30, 31, 30, 31]

  function YearsOf(year: int): (y: nat)
  {
    var low := year % 0x1_0000;
    if low < 2001 then 0 else low - 2001
  }

  /** Where a year's months start in the table. */
  function TableBase(years: nat): (b: nat)
  {
    if (years + 1) % 4 == 0 then 12 else 0
  }

  function TableDays(base: nat, i: nat): (n: nat)
    ensures n <= 31
  {
    if base + i < 24 then MONTHS[base + i] else 0
  }

  /** Days of the first `n` months of the table part at `base`. */
  function MonthSum(base: nat, n: nat): (s: nat)
    ensures s <= 31 * n
  {
    if n == 0 then 0 else MonthSum(base, n - 1) + TableDays(base, n - 1)
  }

  function MonthsBefore(month: int): (n: nat)
  {
    if month % 256 == 0 then 0 else month % 256 - 1
  }

  /** Days of `y` whole years. */
  function YearDays(y: nat): (d: nat)
  {
    365 * y + y / 4
  }

  /** Days since 2001, reduced to 32 bits twice, as computed. */
  function DayWord(t: Bdfe): (d: u32)
  {
    var y := YearsOf(t.year);
    Wrap32(Wrap32(YearDays(y) + MonthSum(TableBase(y), MonthsBefore(t.month))) - 1 + t.day % 256)
  }

  /** Seconds since 2001-01-01 00:00:00, reduced to 32 bits at every step. */
  function KosSeconds(t: Bdfe): (s: u32)
  {
    var hours := Wrap32(DayWord(t) * 24 + t.hour % 256);
    var minutes := Wrap32(hours * 60 + t.min % 256);
    Wrap32(minutes * 60 + t.sec % 256)
  }

  /** The month loop runs downwards from the month before. */
  method FsCalculateTime(t: Bdfe) returns (total: u32)
    ensures total == KosSeconds(t)
  {
    hide MonthSum, TableDays;
    var years := YearsOf(t.year);
    var base := TableBase(years);
    var index: int := t.month % 256 - 1;
    var sum: int := SumMonths(base, index);
    var days: int := Wrap32(years * 365 + years / 4 + sum);
    days := Wrap32(days - 1 + t.day % 256);
    var acc: int := Wrap32(days * 24 + t.hour % 256);
    acc := Wrap32(acc * 60 + t.min % 256);
    total := Wrap32(acc * 60 + t.sec % 256);
  }

  method SumMonths(base: nat, from: int) returns (sum: u32)
    requires base <= 12 && -1 <= from < 255
    ensures sum == MonthSum(base, if from < 0 then 0 else from)
  {
    hide TableDays;
    var index := from - 1;
    sum := 0;
    ghost var n: nat := if from < 0 then 0 else from;
    while index >= 0
      invariant -1 <= index < n || (index < 0 && n == 0)
      invariant index >= -2 && sum + MonthSum(base, if index < 0 then 0 else index + 1) == MonthSum(base, n)
      decreases index
    {
      sum := Wrap32(sum + TableDays(base, index));
      index := index - 1;
    }
  }

  // ----- the every-fourth-year calendar -----

  function MonthLength(leap: bool, month: int): (n: nat)
  {
    if month == 2 then (if leap then 29 else 28)
    else if month == 4 || month == 6 || month == 9 || month == 11 then 30
    else 31
  }

  /** A time of day on a day that exists when months of `year` are as long as `leap` says. */
  predicate Exists(t: Bdfe, leap: bool)
  {
    1 <= t.month <= 12 && 1 <= t.day <= MonthLength(leap, t.month)
    && 0 <= t.hour < 24 && 0 <= t.min < 60 && 0 <= t.sec < 60
  }

  /** The dates whose seconds fit 32 bits. */
  predicate Valid(t: Bdfe)
  {
    2001 <= t.year <= 2136 && Exists(t, t.year % 4 == 0)
  }

  lemma TableIsCalendar(years: nat, month: nat)
    requires 1 <= month <= 12
    ensures TableDays(TableBase(years), month - 1) == MonthLength((years + 2001) % 4 == 0, month)
  {
  }

  lemma QuarterSum(base: nat, k: nat)
    ensures MonthSum(base, k + 3)
            == MonthSum(base, k) + TableDays(base, k) + TableDays(base, k + 1) + TableDays(base, k + 2)
  {
    hide TableDays;
    assert MonthSum(base, k + 1) == MonthSum(base, k) + TableDays(base, k);
    assert MonthSum(base, k + 2) == MonthSum(base, k + 1) + TableDays(base, k + 1);
  }

  lemma TableQuarter(base: nat, k: nat)
    requires (base == 0 || base == 12) && (k == 0 || k == 3 || k == 6 || k == 9)
    ensures TableDays(base, k) + TableDays(base, k + 1) + TableDays(base, k + 2)
            == if k == 0 then (if base == 12 then 91 else 90) else if k == 3 then 91 else 92
  {
  }

  lemma YearSumFrom(base: nat, k: nat)
    requires (base == 0 || base == 12) && k == 0
    ensures MonthSum(base, k + 12) == if base == 12 then 366 else 365
  {
    NoMonths(base);
    hide MonthSum, TableDays;
    QuarterSum(base, k);
    QuarterSum(base, k + 3);
    QuarterSum(base, k + 6);
    QuarterSum(base, k + 9);
    TableQuarter(base, k);
    TableQuarter(base, k + 3);
    TableQuarter(base, k + 6);
    TableQuarter(base, k + 9);
  }

  lemma YearSum(leap: bool)
    ensures MonthSum(if leap then 12 else 0, 12) == if leap then 366 else 365
  {
    hide MonthSum;
    YearSumFrom(if leap then 12 else 0, 0);
  }

  lemma NoMonths(base: nat)
    ensures MonthSum(base, 0) == 0
  {
  }

  /** Day number without any reduction. */
  function Days(year: int, month: int, day: int): (d: int)
    requires year >= 2001 && month >= 1
  {
    var y := year - 2001;
    YearDays(y) + MonthSum(TableBase(y), month - 1) + day - 1
  }

  function Seconds(t: Bdfe): (s: int)
    requires t.year >= 2001 && t.month >= 1
  {
    ((Days(t.year, t.month, t.day) * 24 + t.hour) * 60 + t.min) * 60 + t.sec
  }

  lemma {:induction false} MonthSumGrows(base: nat, m: nat, n: nat)
    requires m <= n
    ensures MonthSum(base, m) <= MonthSum(base, n)
    decreases n
  {
    if m < n {
      MonthSumGrows(base, m, n - 1);
    }
  }

  /** A day lies inside its month, and a month inside its year. */
  lemma DayInYear(year: int, month: int, day: int)
    requires year >= 2001 && 1 <= month <= 12 && 1 <= day <= MonthLength(year % 4 == 0, month)
    ensures var y := year - 2001; YearDays(y) <= Days(year, month, day) < YearDays(y + 1)
    ensures var y := year - 2001;
            MonthSum(TableBase(y), month) == MonthSum(TableBase(y), month - 1) + MonthLength(year % 4 == 0, month)
  {
    hide MonthLength;
    var y := year - 2001;
    TableIsCalendar(y, month);
    MonthSumGrows(TableBase(y), month, 12);
    YearSum((y + 1) % 4 == 0);
    assert (y + 1) / 4 == y / 4 + if (y + 1) % 4 == 0 then 1 else 0;
  }

  lemma DaysBound(t: Bdfe)
    requires Valid(t)
    ensures 0 <= Days(t.year, t.month, t.day) < 49674
  {
    hide MonthSum, MonthLength;
    DayInYear(t.year, t.month, t.day);
    var y := t.year - 2001;
    assert y + 1 <= 136;
  }

  /** No reduction ever bites on a valid date. */
  lemma NoWrap(t: Bdfe)
    requires Valid(t)
    ensures KosSeconds(t) == Seconds(t)
  {
    hide DayWord, Days, MonthLength;
    DaysBound(t);
    DayFits(t);
    SecondsFit(Days(t.year, t.month, t.day), t.hour, t.min, t.sec);
  }

  lemma DayFits(t: Bdfe)
    requires Valid(t) && 0 <= Days(t.year, t.month, t.day) < 49674
    ensures DayWord(t) == Days(t.year, t.month, t.day)
  {
    hide MonthSum, YearDays, TableBase, Days;
    var y, m := t.year - 2001, t.month - 1;
    assert YearsOf(t.year) == y && MonthsBefore(t.month) == m;
    assert t.day % 256 == t.day && t.day <= 31;
    DaysAre(t.year, t.month, t.day);
    DayWraps(YearDays(y) + MonthSum(TableBase(y), m), t.day);
  }

  lemma DaysAre(year: int, month: int, day: int)
    requires year >= 2001 && month >= 1
    ensures var y := year - 2001;
            Days(year, month, day) == YearDays(y) + MonthSum(TableBase(y), month - 1) + day - 1
  {
  }

  lemma DayWraps(before: nat, day: int)
    requires 1 <= day <= 31 && before + day - 1 < 49674
    ensures Wrap32(Wrap32(before) - 1 + day) == before + day - 1
  {
  }

  lemma SecondsFit(d: int, hour: int, min: int, sec: int)
    requires 0 <= d < 49674 && 0 <= hour < 24 && 0 <= min < 60 && 0 <= sec < 60
    ensures Wrap32(Wrap32(Wrap32(d * 24 + hour % 256) * 60 + min % 256) * 60 + sec % 256)
            == ((d * 24 + hour) * 60 + min) * 60 + sec
  {
    assert Wrap32(d * 24 + hour % 256) == d * 24 + hour;
    assert Wrap32((d * 24 + hour) * 60 + min % 256) == (d * 24 + hour) * 60 + min;
  }

  // ----- order and counting -----

  predicate DateBefore(s: Bdfe, t: Bdfe)
  {
    s.year < t.year || (s.year == t.year && (s.month < t.month || (s.month == t.month && s.day < t.day)))
  }

  predicate SameDate(s: Bdfe, t: Bdfe)
  {
    s.year == t.year && s.month == t.month && s.day == t.day
  }

  predicate Before(s: Bdfe, t: Bdfe)
  {
    DateBefore(s, t)
    || (SameDate(s, t) &&
           (s.hour < t.hour || (s.hour == t.hour && (s.min < t.min || (s.min == t.min && s.sec < t.sec)))))
  }

  lemma LaterDate(s: Bdfe, t: Bdfe)
    requires Valid(s) && Valid(t) && DateBefore(s, t)
    ensures Days(s.year, s.month, s.day) < Days(t.year, t.month, t.day)
  {
    hide MonthSum, MonthLength;
    DayInYear(s.year, s.month, s.day);
    DayInYear(t.year, t.month, t.day);
    if s.year < t.year {
      var x, y := s.year - 2001, t.year - 2001;
      assert YearDays(x + 1) <= YearDays(y);
    } else if s.month < t.month {
      MonthSumGrows(TableBase(s.year - 2001), s.month, t.month - 1);
    }
  }

  /** Later valid times have larger second counts. */
  lemma StrictlyIncreasing(s: Bdfe, t: Bdfe)
    requires Valid(s) && Valid(t) && Before(s, t)
    ensures KosSeconds(s) < KosSeconds(t)
  {
    hide KosSeconds, Days, MonthLength;
    NoWrap(s);
    NoWrap(t);
    if DateBefore(s, t) {
      LaterDate(s, t);
    }
  }

  /** One second later in the every-fourth-year calendar. */
  function Next(t: Bdfe): (n: Bdfe)
  {
    if t.sec < 59 then t.(sec := t.sec + 1)
    else if t.min < 59 then t.(sec := 0, min := t.min + 1)
    else if t.hour < 23 then t.(sec := 0, min := 0, hour := t.hour + 1)
    else if t.day < MonthLength(t.year % 4 == 0, t.month) then Bdfe(0, 0, 0, t.day + 1, t.month, t.year)
    else if t.month < 12 then Bdfe(0, 0, 0, 1, t.month + 1, t.year)
    else Bdfe(0, 0, 0, 1, 1, t.year + 1)
  }

  const EPOCH: Bdfe := Bdfe(0, 0, 0, 1, 1, 2001)
  const LAST: Bdfe := Bdfe(59, 59, 23, 31, 12, 2136)

  lemma MonthTurns(year: int, month: int)
    requires year >= 2001 && 1 <= month < 12
    ensures Days(year, month + 1, 1) == Days(year, month, MonthLength(year % 4 == 0, month)) + 1
  {
    hide MonthSum, MonthLength, TableBase, YearDays, Days;
    var length := MonthLength(year % 4 == 0, month);
    MonthPositive(year % 4 == 0, month);
    DayInYear(year, month, length);
    DaysAre(year, month, length);
    DaysAre(year, month + 1, 1);
  }

  lemma MonthPositive(leap: bool, month: int)
    ensures MonthLength(leap, month) >= 1 && MonthLength(leap, 12) == 31
  {
  }

  lemma YearTurns(year: int)
    requires year >= 2001
    ensures Days(year + 1, 1, 1) == Days(year, 12, 31) + 1
  {
    var y := year - 2001;
    hide MonthSum, MonthLength;
    NoMonths(TableBase(y + 1));
    YearSum((y + 1) % 4 == 0);
    MonthPositive(year % 4 == 0, 12);
    DayInYear(year, 12, 31);
    assert (y + 1) / 4 == y / 4 + if (y + 1) % 4 == 0 then 1 else 0;
  }

  lemma NextDay(t: Bdfe)
    requires Valid(t) && t.hour == 23 && t.min == 59 && t.sec == 59
    ensures Next(t).year >= 2001 && Next(t).month >= 1
    ensures Days(Next(t).year, Next(t).month, Next(t).day) == Days(t.year, t.month, t.day) + 1
  {
    hide MonthSum, MonthLength, TableBase;
    if t.day == MonthLength(t.year % 4 == 0, t.month) {
      if t.month < 12 {
        MonthTurns(t.year, t.month);
      } else {
        MonthPositive(t.year % 4 == 0, 12);
        YearTurns(t.year);
      }
    }
  }

  lemma NextValid(t: Bdfe)
    requires Valid(t) && t != LAST
    ensures Valid(Next(t))
  {
  }

  lemma NextSecond(t: Bdfe)
    requires Valid(t)
    ensures Next(t).year >= 2001 && Next(t).month >= 1 && Seconds(Next(t)) == Seconds(t) + 1
  {
    hide Days, MonthSum;
    if t.hour == 23 && t.min == 59 && t.sec == 59 {
      NextDay(t);
    }
  }

  lemma YearStarts(year: int)
    requires year >= 2001
    ensures Days(year, 1, 1) == YearDays(year - 2001)
  {
    hide MonthSum;
    NoMonths(TableBase(year - 2001));
  }

  lemma EpochValid()
    ensures Valid(EPOCH)
  {
  }

  lemma FirstSecond(t: Bdfe)
    requires t == EPOCH && Days(2001, 1, 1) == YearDays(0)
    ensures Seconds(t) == 0
  {
    hide Days;
  }

  lemma EpochIsZero()
    ensures KosSeconds(EPOCH) == 0
  {
    hide KosSeconds, Days, Seconds, Valid;
    assert Valid(EPOCH) by { EpochValid(); }
    NoWrap(EPOCH);
    YearStarts(2001);
    FirstSecond(EPOCH);
  }

  /** One more for each second: from zero at the epoch, the conversion counts seconds. */
  lemma CountsSeconds(t: Bdfe)
    requires Valid(t) && t != LAST
    ensures KosSeconds(EPOCH) == 0
    ensures Valid(Next(t)) && KosSeconds(Next(t)) == KosSeconds(t) + 1
  {
    hide KosSeconds, Seconds, Valid, Next;
    EpochIsZero();
    NextValid(t);
    NoWrap(t);
    NoWrap(Next(t));
    NextSecond(t);
  }

  // ----- the Gregorian calendar -----

  predicate GregorianLeap(year: int)
  {
    year % 4 == 0 && (year % 100 != 0 || year % 400 == 0)
  }

  /** Days from the start of one year to the start of another. */
  function GregorianYears(from: int, year: int): (d: nat)
    requires year >= from
    decreases year - from
  {
    if year == from then 0 else GregorianYears(from, year - 1) + if GregorianLeap(year - 1) then 366 else 365
  }

  function GregorianMonths(leap: bool, n: nat): (d: nat)
  {
    if n == 0 then 0 else GregorianMonths(leap, n - 1) + MonthLength(leap, n)
  }

  /** Seconds from the start of a year to a date of the Gregorian calendar. */
  function GregorianSeconds(from: int, t: Bdfe): (s: int)
    requires t.year >= from && t.month >= 1
  {
    var d := GregorianYears(from, t.year) + GregorianMonths(GregorianLeap(t.year), t.month - 1) + t.day - 1;
    ((d * 24 + t.hour) * 60 + t.min) * 60 + t.sec
  }

  lemma {:induction false} GregorianYearsIs(year: int)
    requires 2001 <= year <= 2136
    ensures var y := year - 2001; GregorianYears(2001, year) == 365 * y + y / 4 - if year > 2100 then 1 else 0
    decreases year
  {
    if year > 2001 {
      GregorianYearsIs(year - 1);
    }
  }

  lemma {:induction false} MonthSumIs(years: nat, n: nat)
    requires n <= 12
    ensures MonthSum(TableBase(years), n) == GregorianMonths((years + 2001) % 4 == 0, n)
  {
    hide MonthLength, TableDays;
    if n > 0 {
      MonthSumIs(years, n - 1);
      TableIsCalendar(years, n);
    }
  }

  lemma {:induction false} LeapMonths(n: nat)
    requires n <= 12
    ensures GregorianMonths(true, n) == GregorianMonths(false, n) + if n >= 2 then 1 else 0
  {
    if n > 0 {
      LeapMonths(n - 1);
    }
  }

  /** The date is in or after March 2100. */
  predicate After2100(t: Bdfe)
  {
    t.year > 2100 || (t.year == 2100 && t.month >= 3)
  }

  /**
   Against the Gregorian calendar the conversion is exact through 28 February 2100 and one day
   ahead from 1 March 2100 on, because 2100 is not a leap year.
   */
  lemma GregorianAgreement(t: Bdfe)
    requires 2001 <= t.year <= 2136 && Exists(t, GregorianLeap(t.year))
    ensures KosSeconds(t) == GregorianSeconds(2001, t) + if After2100(t) then 86400 else 0
    ensures KosSeconds(t) == GregorianSeconds(2001, t) <==> !After2100(t)
  {
    hide KosSeconds, MonthSum, GregorianYears, GregorianMonths;
    assert Valid(t);
    NoWrap(t);
    GregorianYearsIs(t.year);
    MonthSumIs(t.year - 2001, t.month - 1);
    LeapMonths(t.month - 1);
    LeapRule(t.year);
  }

  lemma LeapRule(year: int)
    requires 2001 <= year <= 2136
    ensures GregorianLeap(year) <==> year % 4 == 0 && year != 2100
  {
  }

  // ----- packing -----

  const UNIX_OFFSET: u32 := 978_307_200

  /** Sign extension of a 32-bit word. */
  function Signed(x: u32): (s: int)
  {
    if x < 0x8000_0000 then x else x - TWO32
  }

  /** What a reader makes of the pair: the sign-extended time plus the extra epoch bits. */
  function Decoded(time: u32, extra: u32): (s: int)
  {
    Signed(time) + TWO32 * extra
  }

  /**
   The two words go to slots of the inode; a missing extra slot is not written. The stored
   pair decodes to the count plus the epoch offset, whatever the count.
   */
  method WriteTimePack(inode: array<u32>, kos: u32, timeAt: nat, extraAt: Option<nat>)
    requires timeAt < inode.Length
    requires extraAt.Some? ==> extraAt.value < inode.Length && extraAt.value != timeAt
    modifies inode
    ensures forall i | 0 <= i < inode.Length && i != timeAt && extraAt != Some(i) :: inode[i] == old(inode[i])
    ensures inode[timeAt] == Wrap32(kos + UNIX_OFFSET)
    ensures extraAt.Some? ==> inode[extraAt.value] < 3
                              && Decoded(inode[timeAt], inode[extraAt.value]) == kos + UNIX_OFFSET
  {
    var eax: int, edx: int := kos, 0;
    var sum: int := eax + UNIX_OFFSET;
    eax := Wrap32(sum);
    if sum >= TWO32 {
      edx := Wrap32(edx + 1);
    }
    if Signed(eax) < 0 {
      edx := Wrap32(edx + 1);
    }
    inode[timeAt] := eax;
    if extraAt.Some? {
      inode[extraAt.value] := edx % 4;
    }
  }

  /** Seconds since 2001 as a FILETIME: low and high words of a 64-bit count. */
  function Filetime(t: Bdfe): (r: (u32, u32))
  {
    var total: int := KosSeconds(t) * 10_000_000 + 3_365_781_504 + TWO32 * 29_389_701;
    (total % TWO32, total / TWO32 % TWO32)
  }

  function Qword(lo: u32, hi: u32): (v: u64)
  {
    TWO32 * hi + lo
  }

  /** A later start leaves out the days before it. */
  lemma {:induction false} YearsFrom(from: int, start: int, year: int)
    requires from <= start <= year
    ensures GregorianYears(from, year) == GregorianYears(from, start) + GregorianYears(start, year)
    decreases year - start
  {
    hide GregorianLeap;
    if start < year {
      YearsFrom(from, start, year - 1);
    }
  }

  /** Leap years from year 1 up to `year`. */
  function Leaps(year: nat): (n: int)
  {
    year / 4 - year / 100 + year / 400
  }

  lemma LeapsNext(year: nat)
    ensures Leaps(year + 1) == Leaps(year) + if GregorianLeap(year + 1) then 1 else 0
  {
    NextMultiple(year, 4);
    NextMultiple(year, 100);
    NextMultiple(year, 400);
    var q := (year + 1) / 400;
    if (year + 1) % 400 == 0 {
      assert year + 1 == 100 * (4 * q);
    }
    if (year + 1) % 100 == 0 {
      assert year + 1 == 4 * (25 * ((year + 1) / 100));
    }
  }

  lemma NextMultiple(x: nat, n: nat)
    requires n == 4 || n == 100 || n == 400
    ensures (x + 1) / n == x / n + if (x + 1) % n == 0 then 1 else 0
  {
  }

  lemma {:induction false} YearsByLeaps(from: nat, year: nat)
    requires 1 <= from <= year
    ensures GregorianYears(from, year) == 365 * (year - from) + Leaps(year - 1) - Leaps(from - 1)
    decreases year - from
  {
    hide GregorianLeap, Leaps;
    if from < year {
      YearsByLeaps(from, year - 1);
      LeapsNext(year - 2);
    }
  }

  /** The seconds of the Gregorian calendar from 1970 and from 1601, counted on from 2001. */
  lemma Epochs(t: Bdfe)
    requires t.year >= 2001 && t.month >= 1
    ensures GregorianSeconds(1970, t) == GregorianSeconds(2001, t) + 11_323 * 86_400
    ensures GregorianSeconds(1601, t) == GregorianSeconds(2001, t) + 146_097 * 86_400
  {
    hide GregorianYears, GregorianMonths, GregorianLeap;
    YearsByLeaps(1970, 2001);
    YearsByLeaps(1601, 2001);
    YearsFrom(1970, 2001, t.year);
    YearsFrom(1601, 2001, t.year);
  }

  /** The second count of a date plus the epoch offset is the Unix time, a day ahead from March 2100 on. */
  lemma UnixMeaning(t: Bdfe)
    requires 2001 <= t.year <= 2136 && Exists(t, GregorianLeap(t.year))
    ensures KosSeconds(t) + UNIX_OFFSET == GregorianSeconds(1970, t) + if After2100(t) then 86400 else 0
  {
    hide KosSeconds, GregorianSeconds, GregorianLeap;
    GregorianAgreement(t);
    Epochs(t);
  }

  /** The FILETIME of a date counts tenths of microseconds of the Gregorian calendar since 1601, up to March 2100. */
  lemma FiletimeMeaning(t: Bdfe)
    ensures Qword(Filetime(t).0, Filetime(t).1) == 10_000_000 * (KosSeconds(t) + 146_097 * 86_400)
    ensures 2001 <= t.year <= 2136 && Exists(t, GregorianLeap(t.year)) ==>
              Qword(Filetime(t).0, Filetime(t).1)
              == 10_000_000 * (GregorianSeconds(1601, t) + if After2100(t) then 86400 else 0)
  {
    hide KosSeconds, GregorianSeconds, GregorianLeap;
    var total: int := KosSeconds(t) * 10_000_000 + 3_365_781_504 + TWO32 * 29_389_701;
    assert total == 10_000_000 * (KosSeconds(t) + 146_097 * 86_400);
    assert 0 <= total < TWO32 * TWO32;
    QwordOf(total);
    if 2001 <= t.year <= 2136 && Exists(t, GregorianLeap(t.year)) {
      GregorianAgreement(t);
      Epochs(t);
    }
  }

  lemma QwordOf(total: nat)
    requires total < TWO64
    ensures Qword(total % TWO32, total / TWO32 % TWO32) == total
  {
    assert total / TWO32 < TWO32;
  }
}
