/**
 * The date arithmetic of the append-month handler (server.js, lines 100-107). The
 * last month's 'DD/MM/YY' label is split on '/', each part is read with
 * parseInt, the parts become a Date, setMonth moves it one month on (letting
 * the day of month overflow), the result is snapped to the last day of the
 * month it lands in and printed back as 'DD/MM/YY'. A Date holds days up to
 * 100,000,000 days either side of 1 January 1970 (section 21.4.1.1 of
 * ECMA-262); a step that leaves that range gives an Invalid Date, which
 * every later step keeps and which prints as 'NaN/NaN/aN'.
 *
 * Months are numbered from 0 (January) to 11, as Date's getMonth reports them.
 */
module Calendar {
  import opened Wrappers

  // ---------------------------------------------------------------------
  // The proleptic Gregorian calendar of JavaScript's Date
  // ---------------------------------------------------------------------

  predicate IsLeapYear(y: int) {
    y % 4 == 0 && (y % 100 != 0 || y % 400 == 0)
  }

  /** The number of days of month `m` of year `y`. */
  function DaysInMonth(y: int, m: int): (n: int)
    requires 0 <= m < 12
    ensures 28 <= n <= 31
    ensures m == 1 ==> (n == 29 <==> IsLeapYear(y))
  {
    if m == 1 then (if IsLeapYear(y) then 29 else 28)
    else if m == 3 || m == 5 || m == 8 || m == 10 then 30
    else 31
  }

  /** A day as Date's local getters report it: getFullYear, getMonth and getDate. */
  datatype Date = Date(year: int, month: int, day: int) {
    predicate Valid() {
      0 <= month < 12 && 1 <= day <= DaysInMonth(year, month)
    }
  }

  /** The year and month that follow month `m` of year `y`. */
  function MonthAfter(y: int, m: int): (r: (int, int))
    requires 0 <= m < 12
    ensures 0 <= r.1 < 12
    ensures r.1 == (m + 1) % 12 && r.0 == y + (m + 1) / 12
  {
    if m == 11 then (y + 1, 0) else (y, m + 1)
  }

  /** The year and month that precede month `m` of year `y`. */
  function MonthBefore(y: int, m: int): (r: (int, int))
    requires 0 <= m < 12
    ensures 0 <= r.1 < 12
    ensures MonthAfter(r.0, r.1) == (y, m)
  {
    if m == 0 then (y - 1, 11) else (y, m - 1)
  }

  /**
   * Day `d` of month `m` of year `y`, where `d` may lie outside the month:
   * a day past the month's end carries into the following months, a day
   * below 1 borrows from the preceding ones, as Date does.
   */
  function Normalize(y: int, m: int, d: int): (r: Date)
    requires 0 <= m < 12
    ensures r.Valid()
    decreases if d < 1 then 1 - d else 0, if d < 1 then 0 else d
  {
    if d < 1 then
      var (py, pm) := MonthBefore(y, m);
      Normalize(py, pm, d + DaysInMonth(py, pm))
    else if d > DaysInMonth(y, m) then
      var (ny, nm) := MonthAfter(y, m);
      Normalize(ny, nm, d - DaysInMonth(y, m))
    else
      Date(y, m, d)
  }

  /** MakeDay: a month index outside 0..11 carries into the year first. */
  function MakeDay(y: int, m: int, d: int): (r: Date)
    ensures r.Valid()
  {
    Normalize(y + m / 12, m % 12, d)
  }

  /** The Date constructor reads a year argument from 0 to 99 as 1900 + y. */
  function FullYear(y: int): int {
    if 0 <= y <= 99 then 1900 + y else y
  }

  /**
   * The number of days from 1 January 1970 to `t`, negative before it
   * (days from civil in the proleptic Gregorian calendar, counted in
   * 400-year eras of 146097 days from a year that starts on 1 March).
   */
  function DayNumber(t: Date): int {
    MarchFirst(if t.month < 2 then t.year - 1 else t.year) + DaysFromMarch(t)
  }

  /** The day number of 1 March of year `p`, the start of the year the day count is taken in. */
  function MarchFirst(p: int): int {
    var era := p / 400;
    var yearOfEra := p - era * 400;
    era * 146097 + EraDays(yearOfEra) - 719468
  }

  /** The days of the first `n` years (from March) of a 400-year era. */
  function EraDays(n: int): int {
    n * 365 + n / 4 - n / 100
  }

  /** The days from 1 March of the year `t` is counted in. */
  function DaysFromMarch(t: Date): int {
    var monthFromMarch := if t.month < 2 then t.month + 10 else t.month - 2;
    (153 * monthFromMarch + 2) / 5 + t.day - 1
  }

  /** The days a Date can hold lie at most this many days from 1 January 1970. */
  const MaxDays: int := 100000000

  /** The first and the last day a Date can hold (RangeEnds shows they are MaxDays either side of 1970). */
  const EarliestDate: Date := Date(-271821, 3, 20)
  const LatestDate: Date := Date(275760, 8, 13)

  /** Day `t` is not later than day `u`. */
  predicate NotAfter(t: Date, u: Date) {
    || t.year < u.year
    || (t.year == u.year && (t.month < u.month || (t.month == u.month && t.day <= u.day)))
  }

  predicate InRange(t: Date) {
    NotAfter(EarliestDate, t) && NotAfter(t, LatestDate)
  }

  /** TimeClip: a day outside the range becomes an Invalid Date, None here. */
  function TimeClip(t: Date): (r: Option<Date>)
    ensures r.Some? <==> InRange(t)
    ensures r.Some? ==> r.value == t
  {
    if InRange(t) then Some(t) else None
  }

  /**
   * V8, the engine under Node, computes MakeDay only for a year argument of
   * at most a million either way and a month argument of at most ten million
   * either way; beyond them MakeDay is NaN, an Invalid Date, before the day
   * argument is taken into account.
   */
  const MaxYearArgument: int := 1000000
  const MaxMonthArgument: int := 10000000

  predicate WithinMakeDayLimits(y: int, m: int) {
    -MaxYearArgument <= y <= MaxYearArgument && -MaxMonthArgument <= m <= MaxMonthArgument
  }

  /** The Date constructor called with a year, a month and a day, in local time. */
  function NewDate(y: int, m: int, d: int): (r: Option<Date>)
    ensures !WithinMakeDayLimits(FullYear(y), m) ==> r.None?
    ensures r.Some? ==> r.value.Valid() && InRange(r.value)
  {
    if WithinMakeDayLimits(FullYear(y), m) then TimeClip(MakeDay(FullYear(y), m, d)) else None
  }

  /** Setting the month of `t` to `m`: keeps the year and the day of month of `t`, which may overflow. */
  function SetMonth(t: Date, m: int): (r: Option<Date>)
    ensures !WithinMakeDayLimits(t.year, m) ==> r.None?
    ensures r.Some? ==> r.value.Valid() && InRange(r.value)
  {
    if WithinMakeDayLimits(t.year, m) then TimeClip(MakeDay(t.year, m, t.day)) else None
  }

  /** The last day of month `m` of year `y`. */
  function LastDay(y: int, m: int): (r: Date)
    requires 0 <= m < 12
    ensures r.Valid()
  {
    Date(y, m, DaysInMonth(y, m))
  }

  lemma NormalizeValid(t: Date)
    requires t.Valid()
    ensures Normalize(t.year, t.month, t.day) == t
  {
  }

  /** Day 0 of the month after month `m` is the last day of month `m`. */
  lemma {:induction false} DayZeroIsLastDay(y: int, m: int)
    requires 0 <= m < 12
    ensures MakeDay(y, m + 1, 0) == LastDay(y, m)
  {
    var (ny, nm) := MonthAfter(y, m);
    assert MonthBefore(ny, nm) == (y, m);
    assert MakeDay(y, m + 1, 0) == Normalize(ny, nm, 0);
  }

  /**
   * Moving `t` one month on keeps its day when the day fits in the following
   * month, and otherwise overflows into the month after that.
   */
  lemma {:induction false} SetMonthOverflow(t: Date)
    requires t.Valid()
    ensures var (ny, nm) := MonthAfter(t.year, t.month);
      MakeDay(t.year, t.month + 1, t.day) ==
        if t.day <= DaysInMonth(ny, nm) then Date(ny, nm, t.day)
        else var (y2, m2) := MonthAfter(ny, nm); Date(y2, m2, t.day - DaysInMonth(ny, nm))
  {
    var (ny, nm) := MonthAfter(t.year, t.month);
    assert MakeDay(t.year, t.month + 1, t.day) == Normalize(ny, nm, t.day);
    if t.day > DaysInMonth(ny, nm) {
      var (y2, m2) := MonthAfter(ny, nm);
      assert Normalize(ny, nm, t.day) == Normalize(y2, m2, t.day - DaysInMonth(ny, nm));
    }
  }

  /** From 1 March of year `p` to 1 March of the next year: 366 days when that year is a leap year, else 365. */
  lemma MarchToMarch(p: int)
    ensures MarchFirst(p + 1) == MarchFirst(p) + (if IsLeapYear(p + 1) then 366 else 365)
  {
    var era, yoe := p / 400, p % 400;
    assert p == 400 * era + yoe;
    MarchFirstStep(p, era, yoe);
    LeapOfEraYear(p + 1, era, yoe);
    if yoe < 399 {
      EraDaysStep(yoe);
    }
  }

  /** The days from one 1 March to the next, read off the era: the last year of an era closes it with 366. */
  lemma MarchFirstStep(p: int, era: int, yoe: int)
    requires p == 400 * era + yoe && 0 <= yoe < 400
    ensures MarchFirst(p + 1) - MarchFirst(p) == if yoe == 399 then 366 else EraDays(yoe + 1) - EraDays(yoe)
  {
    MarchFirstOf(p, era, yoe);
    if yoe == 399 {
      MarchFirstOf(p + 1, era + 1, 0);
      assert EraDays(399) == 146097 - 366 && EraDays(0) == 0;
    } else {
      MarchFirstOf(p + 1, era, yoe + 1);
    }
  }

  /** Year `q`, which follows year `yoe` of era `era`, is a leap year as its place in the era says. */
  lemma LeapOfEraYear(q: int, era: int, yoe: int)
    requires q == 400 * era + yoe + 1 && 0 <= yoe < 400
    ensures IsLeapYear(q) == (yoe == 399 || ((yoe + 1) % 4 == 0 && (yoe + 1) % 100 != 0))
  {
    if yoe == 399 {
      EraShift(0, era + 1);
    } else {
      EraShift(yoe + 1, era);
      assert (yoe + 1) % 400 == yoe + 1;
    }
  }

  /** 1 March of the year `yoe` of era `era`. */
  lemma MarchFirstOf(p: int, era: int, yoe: int)
    requires p == 400 * era + yoe && 0 <= yoe < 400
    ensures MarchFirst(p) == era * 146097 + EraDays(yoe) - 719468
  {
    assert p / 400 == era;
    assert p - era * 400 == yoe;
  }

  /** One more year of an era adds 366 days when it is a leap year of the era, else 365. */
  lemma EraDaysStep(n: int)
    requires 0 <= n < 399
    ensures EraDays(n + 1) == EraDays(n) + (if (n + 1) % 4 == 0 && ((n + 1) % 100 != 0) then 366 else 365)
  {
    assert (n + 1) / 4 - n / 4 == (if (n + 1) % 4 == 0 then 1 else 0);
    assert (n + 1) / 100 - n / 100 == (if (n + 1) % 100 == 0 then 1 else 0);
  }

  /** Whole 400-year eras do not change whether a year is a leap year. */
  lemma EraShift(x: int, q: int)
    ensures IsLeapYear(x + 400 * q) == IsLeapYear(x)
  {
    ShiftMod4(x, 100 * q);
    ShiftMod100(x, 4 * q);
    ShiftMod400(x, q);
  }

  lemma ShiftMod4(x: int, k: int)
    ensures (x + 4 * k) % 4 == x % 4
  {
    assert x + 4 * k == 4 * (x / 4 + k) + x % 4;
  }

  lemma ShiftMod100(x: int, k: int)
    ensures (x + 100 * k) % 100 == x % 100
  {
    assert x + 100 * k == 100 * (x / 100 + k) + x % 100;
  }

  lemma ShiftMod400(x: int, k: int)
    ensures (x + 400 * k) % 400 == x % 400
  {
    assert x + 400 * k == 400 * (x / 400 + k) + x % 400;
  }

  /** Month `k` counted from March (0) to January (10) is as long as the gap to the next month's start. */
  lemma MonthFromMarch(k: int)
    requires 0 <= k < 11
    ensures (153 * (k + 1) + 2) / 5 - (153 * k + 2) / 5 == DaysInMonth(0, (k + 2) % 12)
  {
  }

  /** Going one month on from the first of month `m` of year `y` adds the days of that month to the day count. */
  lemma MonthStepDayNumber(y: int, m: int)
    requires 0 <= m < 12
    ensures var (ny, nm) := MonthAfter(y, m);
      DayNumber(Date(ny, nm, 1)) == DayNumber(Date(y, m, 1)) + DaysInMonth(y, m)
  {
    if m == 1 {
      FebruaryStep(y);
    } else if m == 0 {
      SameYearStep(y - 1, Date(y, 0, 1), Date(y, 1, 1));
    } else if m == 11 {
      SameYearStep(y, Date(y, 11, 1), Date(y + 1, 0, 1));
    } else {
      SameYearStep(y, Date(y, m, 1), Date(y, m + 1, 1));
    }
  }

  /** From 1 February to 1 March: the days of February of that year. */
  lemma FebruaryStep(y: int)
    ensures DayNumber(Date(y, 2, 1)) == DayNumber(Date(y, 1, 1)) + DaysInMonth(y, 1)
  {
    assert DayNumber(Date(y, 1, 1)) == MarchFirst(y - 1) + 337;
    assert DayNumber(Date(y, 2, 1)) == MarchFirst(y);
    MarchToMarch(y - 1);
  }

  /** Two firsts of consecutive months counted in the same year from March are a month's days apart. */
  lemma SameYearStep(p: int, t: Date, u: Date)
    requires 0 <= t.month < 12 && t.month != 1 && t.day == 1 && u.day == 1
    requires u.month == (t.month + 1) % 12
    requires p == (if t.month < 2 then t.year - 1 else t.year) == (if u.month < 2 then u.year - 1 else u.year)
    ensures DayNumber(u) == DayNumber(t) + DaysInMonth(t.year, t.month)
  {
    NextMonthFromMarch(t, u);
    assert DayNumber(t) == MarchFirst(p) + DaysFromMarch(t);
    assert DayNumber(u) == MarchFirst(p) + DaysFromMarch(u);
  }

  /** The first of the next month is the month's days further from March, February aside. */
  lemma NextMonthFromMarch(t: Date, u: Date)
    requires 0 <= t.month < 12 && t.month != 1 && t.day == 1 && u.day == 1
    requires u.month == (t.month + 1) % 12
    ensures DaysFromMarch(u) == DaysFromMarch(t) + DaysInMonth(t.year, t.month)
  {
    var k := if t.month < 2 then t.month + 10 else t.month - 2;
    MonthFromMarch(k);
    assert (k + 2) % 12 == t.month;
    assert DaysInMonth(0, t.month) == DaysInMonth(t.year, t.month);
  }

  /**
   * The date `Normalize` gives lies `d` - 1 days after the first of month
   * `m` of year `y`: the carry and the borrow move whole months.
   */
  lemma {:induction false} NormalizeDayNumber(y: int, m: int, d: int)
    requires 0 <= m < 12
    ensures DayNumber(Normalize(y, m, d)) == DayNumber(Date(y, m, 1)) + d - 1
    decreases if d < 1 then 1 - d else 0, if d < 1 then 0 else d
  {
    var first := DayNumber(Date(y, m, 1));
    if d < 1 {
      var (py, pm) := MonthBefore(y, m);
      var days := DaysInMonth(py, pm);
      assert Normalize(y, m, d) == Normalize(py, pm, d + days);
      NormalizeDayNumber(py, pm, d + days);
      MonthStepDayNumber(py, pm);
      assert DayNumber(Date(py, pm, 1)) == first - days;
    } else if d > DaysInMonth(y, m) {
      var (ny, nm) := MonthAfter(y, m);
      var days := DaysInMonth(y, m);
      assert Normalize(y, m, d) == Normalize(ny, nm, d - days);
      NormalizeDayNumber(ny, nm, d - days);
      MonthStepDayNumber(y, m);
      assert DayNumber(Date(ny, nm, 1)) == first + days;
    } else {
      assert Normalize(y, m, d) == Date(y, m, d);
      assert DaysFromMarch(Date(y, m, d)) == DaysFromMarch(Date(y, m, 1)) + d - 1;
    }
  }

  /**
   * MakeDay as section 21.4.1.28 of ECMA-262 defines it: the day `d` - 1
   * days after the first of month `m` mod 12 of year `y` + floor(`m` / 12).
   */
  lemma MakeDayNumber(y: int, m: int, d: int)
    ensures DayNumber(MakeDay(y, m, d)) == DayNumber(Date(y + m / 12, m % 12, 1)) + d - 1
  {
    var yy, mm := y + m / 12, m % 12;
    var r := MakeDay(y, m, d);
    assert r == Normalize(yy, mm, d);
    NormalizeDayNumber(yy, mm, d);
    assert DayNumber(r) == DayNumber(Date(yy, mm, 1)) + d - 1;
  }

  /** The first day of 1970 is day 0. */
  lemma EpochIsDayZero()
    ensures DayNumber(Date(1970, 0, 1)) == 0
  {
  }

  /** The range ends on 13 September 275760, exactly MaxDays days after 1 January 1970. */
  lemma RangeEnd()
    ensures DayNumber(LatestDate) == MaxDays && DayNumber(Date(275760, 8, 14)) == MaxDays + 1
    ensures InRange(LatestDate) && !InRange(Date(275760, 8, 14))
  {
    assert MarchFirst(275760) == 99999804 by {
      assert 275760 / 400 == 689 && 275760 - 689 * 400 == 160;
      assert EraDays(160) == 58439;
    }
    assert DaysFromMarch(LatestDate) == 196;
  }

  /** The range starts on 20 April of the year -271821, exactly MaxDays days before 1 January 1970. */
  lemma RangeStart()
    ensures DayNumber(EarliestDate) == -MaxDays && DayNumber(Date(-271821, 3, 19)) == -MaxDays - 1
    ensures InRange(EarliestDate) && !InRange(Date(-271821, 3, 19))
  {
    assert MarchFirst(-271821) == -100000050 by {
      assert -271821 / 400 == -680 && -271821 - (-680) * 400 == 179;
      assert EraDays(179) == 65378;
    }
    assert DaysFromMarch(EarliestDate) == 50;
  }

  /** Every valid day of the years -100000 to 100000 lies in the range. */
  lemma ModestYearInRange(t: Date)
    requires t.Valid() && -100000 <= t.year <= 100000
    ensures InRange(t)
  {
  }

  /** No day of the year 280000 or later lies in the range. */
  lemma FarYearOutOfRange(t: Date)
    requires t.Valid() && t.year >= 280000
    ensures !InRange(t)
  {
  }

  /**
   * The date the append-month handler gives the month after `t`: the last
   * day of the month that `t` plus one month lands in. When the day of `t`
   * does not exist in the following month (31 January, 31 March), that is
   * the month after the following one.
   */
  function AppendedMonthEnd(t: Date): (r: Date)
    requires t.Valid()
    ensures r.Valid() && r.day == DaysInMonth(r.year, r.month)
  {
    var (ny, nm) := MonthAfter(t.year, t.month);
    if t.day <= DaysInMonth(ny, nm) then LastDay(ny, nm)
    else
      var (y2, m2) := MonthAfter(ny, nm);
      LastDay(y2, m2)
  }

  // ---------------------------------------------------------------------
  // Strings: split, parseInt, String and padStart
  // ---------------------------------------------------------------------

  /** Splitting `s` at every occurrence of a one-character separator. */
  function Split(s: string, sep: char): (parts: seq<string>)
    ensures |parts| >= 1
    ensures forall i :: 0 <= i < |parts| ==> sep !in parts[i]
  {
    if s == [] then [""]
    else
      var rest := Split(s[1..], sep);
      if s[0] == sep then [""] + rest
      else [[s[0]] + rest[0]] + rest[1..]
  }

  /** The pieces `parts` joined with the separator between them. */
  function Join(parts: seq<string>, sep: char): string
    requires |parts| >= 1
  {
    if |parts| == 1 then parts[0] else parts[0] + [sep] + Join(parts[1..], sep)
  }

  /** Text without the separator is glued onto the first part. */
  lemma {:induction false} SplitPrefix(p: string, s: string, sep: char)
    requires sep !in p
    ensures Split(p + s, sep) == [p + Split(s, sep)[0]] + Split(s, sep)[1..]
  {
    if p != [] {
      SplitPrefix(p[1..], s, sep);
      assert (p + s)[1..] == p[1..] + s;
      assert (p + s)[0] == p[0];
      assert [p[0]] + (p[1..] + Split(s, sep)[0]) == p + Split(s, sep)[0];
    } else {
      assert p + s == s;
      assert p + Split(s, sep)[0] == Split(s, sep)[0];
      assert Split(s, sep) == [Split(s, sep)[0]] + Split(s, sep)[1..];
    }
  }

  /** Splitting undoes joining parts that do not contain the separator. */
  lemma {:induction false} SplitJoin(parts: seq<string>, sep: char)
    requires |parts| >= 1
    requires forall i :: 0 <= i < |parts| ==> sep !in parts[i]
    ensures Split(Join(parts, sep), sep) == parts
  {
    if |parts| == 1 {
      SplitPrefix(parts[0], [], sep);
      assert parts[0] + [] == parts[0];
    } else {
      var tail := Join(parts[1..], sep);
      SplitJoin(parts[1..], sep);
      var s := [sep] + tail;
      assert s[1..] == tail && s[0] == sep;
      assert Split(s, sep) == [""] + parts[1..];
      SplitPrefix(parts[0], s, sep);
      assert parts[0] + [sep] + tail == parts[0] + s;
      assert parts[0] + "" == parts[0];
    }
  }

  /** Joining undoes splitting. */
  lemma {:induction false} JoinSplit(s: string, sep: char)
    ensures Join(Split(s, sep), sep) == s
  {
    if s != [] {
      JoinSplit(s[1..], sep);
      var rest := Split(s[1..], sep);
      if s[0] == sep {
        assert ([""] + rest)[1..] == rest;
        assert s == [sep] + s[1..];
      } else {
        var parts := [[s[0]] + rest[0]] + rest[1..];
        assert parts[1..] == rest[1..];
        if |rest| == 1 {
          assert s == [s[0]] + s[1..];
        } else {
          assert Join(rest, sep) == rest[0] + [sep] + Join(rest[1..], sep);
          assert s == [s[0]] + s[1..];
        }
      }
    }
  }

  /** The characters parseInt skips before a number: JavaScript's white space and line terminators. */
  predicate IsJsWhiteSpace(c: char) {
    || c == '\t' || c == '\n' || c == '\U{000B}' || c == '\U{000C}' || c == '\r' || c == ' '
    || c == '\U{00A0}' || c == '\U{1680}' || ('\U{2000}' <= c <= '\U{200A}')
    || c == '\U{2028}' || c == '\U{2029}' || c == '\U{202F}' || c == '\U{205F}'
    || c == '\U{3000}' || c == '\U{FEFF}'
  }

  function TrimStart(s: string): (r: string)
    ensures r == [] || !IsJsWhiteSpace(r[0])
    ensures |r| <= |s| && r == s[|s| - |r|..]
    ensures s != [] && !IsJsWhiteSpace(s[0]) ==> r == s
  {
    if s != [] && IsJsWhiteSpace(s[0]) then TrimStart(s[1..]) else s
  }

  predicate IsDigit(c: char) {
    '0' <= c <= '9'
  }

  predicate AllDigits(s: string) {
    forall i :: 0 <= i < |s| ==> IsDigit(s[i])
  }

  /** The longest prefix of `s` made of decimal digits. */
  function DigitPrefix(s: string): (r: string)
    ensures AllDigits(r) && r <= s
    ensures |r| < |s| ==> !IsDigit(s[|r|])
  {
    if s != [] && IsDigit(s[0]) then [s[0]] + DigitPrefix(s[1..]) else []
  }

  function DigitValue(c: char): int
    requires IsDigit(c)
  {
    c as int - '0' as int
  }

  function DigitChar(n: int): (c: char)
    requires 0 <= n < 10
    ensures IsDigit(c) && DigitValue(c) == n
  {
    ('0' as int + n) as char
  }

  /** The number a run of decimal digits denotes. */
  function DigitsValue(s: string): nat
    requires AllDigits(s)
  {
    if s == [] then 0 else 10 * DigitsValue(s[..|s| - 1]) + DigitValue(s[|s| - 1])
  }

  /** Decimal parseInt; None stands for NaN. */
  function ParseInt(s: string): (r: Option<int>)
    ensures TrimStart(s) == [] ==> r.None?
    ensures r.Some? && r.value < 0 ==> var t := TrimStart(s); t != [] && t[0] == '-'
    ensures s != [] && IsDigit(s[0]) ==> r.Some? && r.value >= 0
  {
    var t := TrimStart(s);
    var negative := t != [] && t[0] == '-';
    var unsigned := if t != [] && (t[0] == '-' || t[0] == '+') then t[1..] else t;
    var digits := DigitPrefix(unsigned);
    var value: int := DigitsValue(digits);
    if digits == [] then None
    else if negative then Some(-value)
    else Some(value)
  }

  /** The decimal digits of `n`, without leading zeros. */
  function NatToString(n: nat): (s: string)
    ensures |s| >= 1 && AllDigits(s)
  {
    if n < 10 then [DigitChar(n)] else NatToString(n / 10) + [DigitChar(n % 10)]
  }

  /** The decimal string of an integer, with a minus sign when negative. */
  function IntToString(n: int): (s: string)
    ensures '/' !in s
  {
    if n < 0 then "-" + NatToString(-n) else NatToString(n)
  }

  lemma {:induction false} NatToStringValue(n: nat)
    ensures DigitsValue(NatToString(n)) == n
  {
    if n >= 10 {
      NatToStringValue(n / 10);
      var s := NatToString(n);
      assert s[..|s| - 1] == NatToString(n / 10);
    }
  }

  lemma {:induction false} DigitPrefixOfDigits(s: string)
    requires AllDigits(s)
    ensures DigitPrefix(s) == s
  {
    if s != [] {
      DigitPrefixOfDigits(s[1..]);
    }
  }

  /** parseInt reads a run of digits as the number it denotes. */
  lemma ParseIntOfDigits(s: string)
    requires s != [] && AllDigits(s)
    ensures ParseInt(s) == Some(DigitsValue(s))
  {
    assert !IsJsWhiteSpace(s[0]) && s[0] != '-' && s[0] != '+';
    assert TrimStart(s) == s;
    DigitPrefixOfDigits(s);
  }

  /** parseInt reads back what String prints. */
  lemma ParseIntOfIntToString(n: int)
    ensures ParseInt(IntToString(n)) == Some(n)
  {
    var m := if n < 0 then -n else n;
    NatToStringValue(m);
    var digits := NatToString(m);
    if n < 0 {
      var s := "-" + digits;
      assert IntToString(n) == s;
      assert s[0] == '-' && !IsJsWhiteSpace(s[0]);
      assert TrimStart(s) == s;
      assert s[1..] == digits;
      DigitPrefixOfDigits(digits);
      assert DigitPrefix(s[1..]) == digits;
      assert ParseInt(s) == Some(-(DigitsValue(digits) as int));
    } else {
      ParseIntOfDigits(digits);
    }
  }

  /** A string padded on the left with zeros to at least two characters. */
  function PadStart2(s: string): string {
    if |s| == 0 then "00" else if |s| == 1 then "0" + s else s
  }

  /** The last two characters of a string (all of it when shorter). */
  function Last2(s: string): string {
    if |s| >= 2 then s[|s| - 2..] else s
  }

  /** The label the handler prints for `t`: two-digit day, two-digit month, last two characters of the year. */
  function FormatLabel(t: Date): (r: string)
    ensures t.Valid() ==> |r| >= 7 && r[2] == '/' && r[5] == '/'
    ensures t.Valid() ==> IsDigit(r[0]) && IsDigit(r[1]) && IsDigit(r[3]) && IsDigit(r[4])
    ensures t.Valid() ==> r[6..] == Last2(IntToString(t.year))
  {
    var s := PadStart2(IntToString(t.day)) + "/" + PadStart2(IntToString(t.month + 1)) + "/" + Last2(IntToString(t.year));
    if t.Valid() then Padded(t.day); Padded(t.month + 1); s else s
  }

  /** What the handler prints when a part of the label is not a number: String(NaN) is 'NaN' and its last two characters are 'aN'. */
  const InvalidLabel: string := "NaN/NaN/aN"

  /**
   * The date label of the month appended after a month labelled `date`: the
   * NaN label exactly when the date steps give an Invalid Date.
   */
  function NextSnapshotDate(date: string): (r: string)
    ensures r == InvalidLabel <==> NextFromParts(Split(date, '/')).None?
  {
    LabelOf(NextFromParts(Split(date, '/')))
  }

  /** How the handler prints the date it computed; None, an Invalid Date, prints as the NaN label. */
  function LabelOf(end: Option<Date>): (r: string)
    requires end.Some? ==> end.value.Valid()
    ensures r == InvalidLabel <==> end.None?
  {
    match end
    case None => InvalidLabel
    case Some(t) => assert InvalidLabel[0] == 'N'; FormatLabel(t)
  }

  /**
   * The handler's steps once the label is split at '/': parse three numbers
   * and step the date; None when a part is missing or not a number, or a
   * step leaves the range of a Date.
   */
  function NextFromParts(parts: seq<string>): (r: Option<Date>)
    requires |parts| >= 1
    ensures r.Some? ==> r.value.Valid() && r.value.day == DaysInMonth(r.value.year, r.value.month)
  {
    var day := ParseInt(parts[0]);
    var month := if |parts| > 1 then ParseInt(parts[1]) else None;
    var year := if |parts| > 2 then ParseInt(parts[2]) else None;
    NextFromNumbers(day, month, year)
  }

  /**
   * The date stepped to from the parsed day, month and two-digit year: a
   * month's last day, or None when any part is NaN or a step leaves the
   * range of a Date.
   */
  function NextFromNumbers(day: Option<int>, month: Option<int>, year: Option<int>): (r: Option<Date>)
    ensures day.None? || month.None? || year.None? ==> r.None?
    ensures r.Some? ==> r.value.Valid() && r.value.day == DaysInMonth(r.value.year, r.value.month)
  {
    if day.None? || month.None? || year.None? then None
    else MonthEndAfter(year.value + 2000, month.value - 1, day.value)
  }

  /**
   * The handler's three Date steps: the date built from `y`, `m` and `d`,
   * moved one month on with setMonth, then day 0 of the month after that.
   * An Invalid Date at any step stays invalid. Whatever the arguments, a
   * valid result is the last day of its month.
   */
  function MonthEndAfter(y: int, m: int, d: int): (r: Option<Date>)
    ensures r.Some? ==> r.value.Valid() && InRange(r.value) && r.value.day == DaysInMonth(r.value.year, r.value.month)
  {
    match NewDate(y, m, d)
    case None => None
    case Some(last) =>
      match SetMonth(last, last.month + 1)
      case None => None
      case Some(moved) =>
        DayZeroIsLastDay(FullYear(moved.year), moved.month);
        NewDate(moved.year, moved.month + 1, 0)
  }

  // ---------------------------------------------------------------------
  // What the handler computes
  // ---------------------------------------------------------------------

  /** The two digits of a number below 100. */
  function TwoDigits(n: int): (s: string)
    requires 0 <= n <= 99
    ensures |s| == 2 && '/' !in s && AllDigits(s)
  {
    [DigitChar(n / 10), DigitChar(n % 10)]
  }

  /** Two digits read back as the number they denote. */
  lemma ParseTwoDigits(a: int, b: int)
    requires 0 <= a < 10 && 0 <= b < 10
    ensures ParseInt([DigitChar(a), DigitChar(b)]) == Some(10 * a + b)
  {
    var s := [DigitChar(a), DigitChar(b)];
    assert AllDigits(s);
    ParseIntOfDigits(s);
    assert s[..1] == [DigitChar(a)];
    assert DigitsValue([DigitChar(a)]) == a by { assert [DigitChar(a)][..0] == []; }
    assert DigitsValue(s) == 10 * a + b;
  }

  /** A number below 100 printed as two digits reads back as itself. */
  lemma ParseTwoDigitsOf(n: int)
    requires 0 <= n <= 99
    ensures ParseInt(TwoDigits(n)) == Some(n)
  {
    var a, b := n / 10, n % 10;
    assert n == 10 * a + b;
    assert TwoDigits(n) == [DigitChar(a), DigitChar(b)];
    ParseTwoDigits(a, b);
  }

  /** A number below 100, printed and padded to two characters, is its two digits. */
  lemma Padded(n: int)
    requires 0 <= n <= 99
    ensures PadStart2(IntToString(n)) == TwoDigits(n)
  {
    if n < 10 {
      assert DigitChar(0) == '0';
    } else {
      assert NatToString(n / 10) == [DigitChar(n / 10)];
    }
  }

  lemma LastTwoDigits(y: int)
    requires y >= 10
    ensures (y % 100) / 10 == (y / 10) % 10 && (y % 100) % 10 == y % 10
  {
    var q, r := y / 100, y % 100;
    var a, b := r / 10, r % 10;
    assert r == 10 * a + b && 0 <= a < 10 && 0 <= b < 10;
    assert y == 10 * (10 * q + a) + b;
    assert y / 10 == 10 * q + a;
    assert y % 10 == b;
  }

  /** The last two characters of a printed year from 10 on are the two digits of the year modulo 100. */
  lemma YearSuffix(y: int)
    requires y >= 10
    ensures Last2(IntToString(y)) == TwoDigits(y % 100)
  {
    var s := NatToString(y);
    var u := NatToString(y / 10);
    assert s == u + [DigitChar(y % 10)];
    if y / 10 < 10 {
      assert u == [DigitChar((y / 10) % 10)];
    } else {
      assert u == NatToString(y / 100) + [DigitChar((y / 10) % 10)];
    }
    assert s[|s| - 2..] == [DigitChar((y / 10) % 10), DigitChar(y % 10)];
    LastTwoDigits(y);
  }

  /** The label of a date of the years 10 and later: its day, month and year digits separated by '/'. */
  lemma FormatLabelDigits(t: Date)
    requires t.Valid() && t.year >= 10
    ensures FormatLabel(t) == TwoDigits(t.day) + "/" + TwoDigits(t.month + 1) + "/" + TwoDigits(t.year % 100)
  {
    Padded(t.day);
    Padded(t.month + 1);
    YearSuffix(t.year);
  }

  /** Joining three parts puts the separator between them. */
  lemma JoinThree(a: string, b: string, c: string, sep: char)
    ensures Join([a, b, c], sep) == a + [sep] + b + [sep] + c
  {
    assert [a, b, c][1..] == [b, c];
    assert [b, c][1..] == [c];
    assert Join([c], sep) == c;
    assert Join([b, c], sep) == b + [sep] + c;
    assert Join([a, b, c], sep) == a + [sep] + (b + [sep] + c);
    assert a + [sep] + (b + [sep] + c) == a + [sep] + b + [sep] + c;
  }

  /** The label of a date of the years 10 and later splits into its day, month and year digits. */
  lemma LabelParts(t: Date)
    requires t.Valid() && t.year >= 10
    ensures var parts := Split(FormatLabel(t), '/');
      && |parts| == 3
      && parts[0] == TwoDigits(t.day)
      && parts[1] == TwoDigits(t.month + 1)
      && parts[2] == TwoDigits(t.year % 100)
  {
    var p0, p1, p2 := TwoDigits(t.day), TwoDigits(t.month + 1), TwoDigits(t.year % 100);
    FormatLabelDigits(t);
    JoinThree(p0, p1, p2, '/');
    SplitJoin([p0, p1, p2], '/');
  }

  /** A valid day of the years 100 to 100000 is built as itself. */
  lemma BuiltAsItself(t: Date)
    requires t.Valid() && 100 <= t.year <= 100000
    ensures NewDate(t.year, t.month, t.day) == Some(t)
  {
    NormalizeValid(t);
    ModestYearInRange(t);
  }

  /** Moving a valid day of the years 100 to 99999 one month on stays in the range. */
  lemma MovedInRange(t: Date)
    requires t.Valid() && 100 <= t.year < 100000
    ensures SetMonth(t, t.month + 1) == Some(MakeDay(t.year, t.month + 1, t.day))
    ensures 100 <= MakeDay(t.year, t.month + 1, t.day).year <= 100000
  {
    SetMonthOverflow(t);
    ModestYearInRange(MakeDay(t.year, t.month + 1, t.day));
  }

  /** Day 0 of the month after a valid day of the years 100 to 100000 is the last day of its month. */
  lemma DayZeroInRange(t: Date)
    requires t.Valid() && 100 <= t.year <= 100000
    ensures NewDate(t.year, t.month + 1, 0) == Some(LastDay(t.year, t.month))
  {
    DayZeroIsLastDay(t.year, t.month);
    ModestYearInRange(LastDay(t.year, t.month));
  }

  /** The last day of the month `t` moves to with setMonth is AppendedMonthEnd. */
  lemma MovedMonthEnd(t: Date)
    requires t.Valid()
    ensures var moved := MakeDay(t.year, t.month + 1, t.day);
      LastDay(moved.year, moved.month) == AppendedMonthEnd(t)
  {
    SetMonthOverflow(t);
  }

  /** When the first two Date steps stay valid, the result is day 0 of the month after the moved date. */
  lemma MonthEndAfterSteps(y: int, m: int, d: int, last: Date, moved: Date)
    requires NewDate(y, m, d) == Some(last) && SetMonth(last, last.month + 1) == Some(moved)
    ensures MonthEndAfter(y, m, d) == NewDate(moved.year, moved.month + 1, 0)
  {
  }

  /** The handler's three Date steps, from a valid day of the years 100 to 99999, end at AppendedMonthEnd. */
  lemma AppendedDate(t: Date)
    requires t.Valid() && 100 <= t.year < 100000
    ensures MonthEndAfter(t.year, t.month, t.day) == Some(AppendedMonthEnd(t))
  {
    BuiltAsItself(t);
    MovedInRange(t);
    var moved := MakeDay(t.year, t.month + 1, t.day);
    MonthEndAfterSteps(t.year, t.month, t.day, t, moved);
    DayZeroInRange(moved);
    MovedMonthEnd(t);
  }

  /**
   * For a label printed from a valid date of the years 2000 to 2099, the
   * appended month's label is that of AppendedMonthEnd: the last day of the
   * month one month on, which skips a month when the day overflows.
   */
  lemma NextSnapshotDateOfLabel(t: Date)
    requires t.Valid() && 2000 <= t.year <= 2099
    ensures NextSnapshotDate(FormatLabel(t)) == FormatLabel(AppendedMonthEnd(t))
  {
    var s := FormatLabel(t);
    LabelParts(t);
    CenturyYear(t.year);
    NextFromDigits(t, Split(s, '/'));
    LabelAfterParts(s, Split(s, '/'), AppendedMonthEnd(t));
  }

  /** The label printed after `s` when its parts step to the valid date `end`. */
  lemma LabelAfterParts(s: string, parts: seq<string>, end: Date)
    requires parts == Split(s, '/') && end.Valid() && NextFromParts(parts) == Some(end)
    ensures NextSnapshotDate(s) == FormatLabel(end)
  {
  }

  /** The two digits of a year of the 2000s are those of the year minus 2000. */
  lemma CenturyYear(y: int)
    requires 2000 <= y <= 2099
    ensures TwoDigits(y % 100) == TwoDigits(y - 2000)
  {
    assert y % 100 == y - 2000;
  }

  /** The three two-digit parts of a date of the years 2000 to 2099 step to AppendedMonthEnd. */
  lemma NextFromDigits(t: Date, parts: seq<string>)
    requires t.Valid() && 2000 <= t.year <= 2099
    requires |parts| == 3 && parts[0] == TwoDigits(t.day) && parts[1] == TwoDigits(t.month + 1)
    requires parts[2] == TwoDigits(t.year - 2000)
    ensures NextFromParts(parts) == Some(AppendedMonthEnd(t))
  {
    ParseTwoDigitsOf(t.day);
    ParseTwoDigitsOf(t.month + 1);
    ParseTwoDigitsOf(t.year - 2000);
    NextFromParsedDate(parts, t);
  }

  /** Three parts that parse as numbers step to the date the handler computes from them. */
  lemma NextFromParsed(parts: seq<string>, d: int, m: int, y: int)
    requires |parts| == 3
    requires ParseInt(parts[0]) == Some(d) && ParseInt(parts[1]) == Some(m) && ParseInt(parts[2]) == Some(y)
    ensures NextFromParts(parts) == NextFromNumbers(Some(d), Some(m), Some(y))
  {
  }

  /** Parts that read back as the numbers of a valid date of the years 2000 to 2099 step to AppendedMonthEnd. */
  lemma NextFromParsedDate(parts: seq<string>, t: Date)
    requires t.Valid() && 2000 <= t.year <= 2099 && |parts| == 3
    requires ParseInt(parts[0]) == Some(t.day) && ParseInt(parts[1]) == Some(t.month + 1)
    requires ParseInt(parts[2]) == Some(t.year - 2000)
    ensures NextFromParts(parts) == Some(AppendedMonthEnd(t))
  {
    NextFromParsed(parts, t.day, t.month + 1, t.year - 2000);
    NextFromDate(t);
  }

  /** Three numbers step through the Date steps from year `y` + 2000, month `m` - 1 and day `d`. */
  lemma NextFromNumbersOfSome(d: int, m: int, y: int)
    ensures NextFromNumbers(Some(d), Some(m), Some(y)) == MonthEndAfter(y + 2000, m - 1, d)
  {
  }

  /** The numbers of a valid date of the years 2000 to 2099 step to AppendedMonthEnd. */
  lemma NextFromDate(t: Date)
    requires t.Valid() && 2000 <= t.year <= 2099
    ensures NextFromNumbers(Some(t.day), Some(t.month + 1), Some(t.year - 2000)) == Some(AppendedMonthEnd(t))
  {
    var y, m := t.year - 2000, t.month + 1;
    NextFromNumbersOfSome(t.day, m, y);
    assert y + 2000 == t.year && m - 1 == t.month;
    AppendedDate(t);
  }

  /** The numbers of a valid date of the year 280000 or later leave the range: the result is an Invalid Date. */
  lemma BeyondDateRange(d: int, m: int, y: int)
    requires 1 <= m <= 12 && y + 2000 >= 280000 && 1 <= d <= DaysInMonth(y + 2000, m - 1)
    ensures NextFromNumbers(Some(d), Some(m), Some(y)) == None
  {
    var t := Date(y + 2000, m - 1, d);
    NormalizeValid(t);
    assert MakeDay(FullYear(y + 2000), m - 1, d) == t;
    FarYearOutOfRange(t);
  }

  /** Three parts that parse as numbers past the range of a Date print as the NaN label. */
  lemma InvalidOfParts(date: string, parts: seq<string>, d: int, m: int, y: int)
    requires Split(date, '/') == parts && |parts| == 3
    requires ParseInt(parts[0]) == Some(d) && ParseInt(parts[1]) == Some(m) && ParseInt(parts[2]) == Some(y)
    requires 1 <= m <= 12 && y + 2000 >= 280000 && 1 <= d <= DaysInMonth(y + 2000, m - 1)
    ensures NextSnapshotDate(date) == InvalidLabel
  {
    NextFromParsed(parts, d, m, y);
    BeyondDateRange(d, m, y);
  }

  lemma SplitFarLabel()
    ensures Split("01/01/300000", '/') == ["01", "01", "300000"]
  {
    JoinThree("01", "01", "300000", '/');
    assert "01" + "/" + "01" + "/" + "300000" == "01/01/300000";
    SplitJoin(["01", "01", "300000"], '/');
  }

  lemma ParseOne(s: string)
    requires s == "01"
    ensures ParseInt(s) == Some(1)
  {
    assert AllDigits(s);
    ParseIntOfDigits(s);
    assert DigitsValue(s[..1]) == 0 by { assert s[..1][..0] == []; }
  }

  lemma FarYearDigits(s: string)
    requires s == "300000"
    ensures AllDigits(s) && DigitsValue(s) == 300000
  {
    assert AllDigits(s);
    assert DigitsValue(s[..1]) == 3 by { assert s[..1][..0] == []; }
    assert DigitsValue(s[..2]) == 30 by { assert s[..2][..1] == s[..1]; }
    assert DigitsValue(s[..3]) == 300 by { assert s[..3][..2] == s[..2]; }
    assert DigitsValue(s[..4]) == 3000 by { assert s[..4][..3] == s[..3]; }
    assert DigitsValue(s[..5]) == 30000 by { assert s[..5][..4] == s[..4]; }
    assert s[..6] == s;
  }

  lemma ParseFarYear(s: string)
    requires s == "300000"
    ensures ParseInt(s) == Some(300000)
  {
    FarYearDigits(s);
    ParseIntOfDigits(s);
  }

  /** A label whose year part is past the range of a Date prints as the NaN label. */
  lemma YearBeyondDateRange()
    ensures NextSnapshotDate("01/01/300000") == InvalidLabel
  {
    SplitFarLabel();
    ParseOne("01");
    ParseFarYear("300000");
    InvalidOfParts("01/01/300000", ["01", "01", "300000"], 1, 1, 300000);
  }

  /**
   * A year argument beyond V8's limit gives an Invalid Date whatever the day:
   * a day count that would bring the date back into the range does not.
   */
  lemma HugeYearArgument(d: int, m: int, y: int)
    requires y + 2000 > MaxYearArgument
    ensures NextFromNumbers(Some(d), Some(m), Some(y)) == None
  {
    NextFromNumbersOfSome(d, m, y);
  }

  lemma SplitHugeLabel(date: string)
    requires date == "-300000000/01/999000"
    ensures Split(date, '/') == ["-300000000", "01", "999000"]
  {
    JoinThree("-300000000", "01", "999000", '/');
    assert "-300000000" + "/" + "01" + "/" + "999000" == date;
    SplitJoin(["-300000000", "01", "999000"], '/');
  }

  /** The digits of the day part, 300000000, one step of NatToString at a time. */
  lemma HugeDayDigits(s: string)
    requires s == "300000000"
    ensures NatToString(300000000) == s
  {
    assert NatToString(3) == "3";
    assert NatToString(30) == "30";
    assert NatToString(300) == "300";
    assert NatToString(3000) == "3000";
    assert NatToString(30000) == "30000";
    assert NatToString(300000) == "300000";
    assert NatToString(3000000) == "3000000";
    assert NatToString(30000000) == "30000000";
  }

  lemma ParseHugeDay(s: string)
    requires s == "-300000000"
    ensures ParseInt(s) == Some(-300000000)
  {
    HugeDayDigits(s[1..]);
    assert IntToString(-300000000) == s;
    ParseIntOfIntToString(-300000000);
  }

  lemma ParseHugeYear(s: string)
    requires s == "999000"
    ensures ParseInt(s) == Some(999000)
  {
    assert NatToString(9) == "9";
    assert NatToString(99) == "99";
    assert NatToString(999) == "999";
    assert NatToString(9990) == "9990";
    assert NatToString(99900) == "99900";
    assert IntToString(999000) == s;
    ParseIntOfIntToString(999000);
  }

  /**
   * The year 1001000 with 300 million days subtracted would land near the
   * year 180000, inside the range; the year argument alone makes it an
   * Invalid Date.
   */
  lemma HugeYearLabel()
    ensures NextSnapshotDate("-300000000/01/999000") == InvalidLabel
  {
    var date := "-300000000/01/999000";
    var parts := ["-300000000", "01", "999000"];
    SplitHugeLabel(date);
    ParseHugeDay("-300000000");
    ParseHugeYear("999000");
    ParseOne("01");
    NextFromParsed(parts, -300000000, 1, 999000);
    HugeYearArgument(-300000000, 1, 999000);
  }

  /** parseInt of text that starts with a letter is NaN. */
  lemma ParseLetters(s: string)
    requires s == "NaN"
    ensures ParseInt(s) == None
  {
    assert !IsJsWhiteSpace(s[0]) && s[0] != '-' && s[0] != '+' && !IsDigit(s[0]);
  }

  lemma SplitInvalidLabel(s: string)
    requires s == "NaN/NaN/aN"
    ensures Split(s, '/') == ["NaN", "NaN", "aN"]
  {
    JoinThree("NaN", "NaN", "aN", '/');
    assert "NaN" + "/" + "NaN" + "/" + "aN" == s;
    SplitJoin(["NaN", "NaN", "aN"], '/');
  }

  /** Parts whose day part is not a number step to an Invalid Date. */
  lemma NaNDayPart(parts: seq<string>)
    requires |parts| >= 1 && ParseInt(parts[0]) == None
    ensures NextFromParts(parts) == None
  {
  }

  /** The NaN label is followed by the NaN label again: its day part 'NaN' is not a number. */
  lemma InvalidLabelRepeats()
    ensures NextSnapshotDate(InvalidLabel) == InvalidLabel
  {
    SplitInvalidLabel(InvalidLabel);
    ParseLetters("NaN");
    NaNDayPart(["NaN", "NaN", "aN"]);
  }

  /** A label without '/' is a single part: the month and the year are NaN and the NaN label is printed. */
  lemma LabelWithoutSlash(s: string)
    requires '/' !in s
    ensures NextSnapshotDate(s) == InvalidLabel
  {
    SplitPrefix(s, [], '/');
    assert s + [] == s;
  }

  // ---------------------------------------------------------------------
  // Examples
  // ---------------------------------------------------------------------

  /** The appended label after the label of `t`, with both labels written out. */
  lemma NextOfLabels(t: Date, date: string, next: string)
    requires t.Valid() && 2000 <= t.year <= 2099
    requires date == FormatLabel(t) && next == FormatLabel(AppendedMonthEnd(t))
    ensures NextSnapshotDate(date) == next
  {
    NextSnapshotDateOfLabel(t);
  }

  /** A label assembled from the two-digit pieces of a date of the years 10 and later. */
  lemma LabelOfParts(t: Date, day: string, month: string, year: string)
    requires t.Valid() && t.year >= 10
    requires TwoDigits(t.day) == day && TwoDigits(t.month + 1) == month && TwoDigits(t.year % 100) == year
    ensures FormatLabel(t) == day + "/" + month + "/" + year
  {
    FormatLabelDigits(t);
  }

  lemma LabelJan31of2024()
    ensures FormatLabel(Date(2024, 0, 31)) == "31/01/24"
  {
    LabelOfParts(Date(2024, 0, 31), "31", "01", "24");
    assert "31" + "/" + "01" + "/" + "24" == "31/01/24";
  }

  lemma LabelFeb29of2024()
    ensures FormatLabel(Date(2024, 1, 29)) == "29/02/24"
  {
    LabelOfParts(Date(2024, 1, 29), "29", "02", "24");
    assert "29" + "/" + "02" + "/" + "24" == "29/02/24";
  }

  lemma LabelMar31of2024()
    ensures FormatLabel(Date(2024, 2, 31)) == "31/03/24"
  {
    LabelOfParts(Date(2024, 2, 31), "31", "03", "24");
    assert "31" + "/" + "03" + "/" + "24" == "31/03/24";
  }

  lemma LabelMay31of2024()
    ensures FormatLabel(Date(2024, 4, 31)) == "31/05/24"
  {
    LabelOfParts(Date(2024, 4, 31), "31", "05", "24");
    assert "31" + "/" + "05" + "/" + "24" == "31/05/24";
  }

  lemma LabelDec31of2099()
    ensures FormatLabel(Date(2099, 11, 31)) == "31/12/99"
  {
    LabelOfParts(Date(2099, 11, 31), "31", "12", "99");
    assert "31" + "/" + "12" + "/" + "99" == "31/12/99";
  }

  lemma LabelJan31of2100()
    ensures FormatLabel(Date(2100, 0, 31)) == "31/01/00"
  {
    LabelOfParts(Date(2100, 0, 31), "31", "01", "00");
    assert "31" + "/" + "01" + "/" + "00" == "31/01/00";
  }

  /** 31 January 2024 is followed by 31 March: 31 February overflows into March. */
  lemma JanuaryEndSkipsFebruary()
    ensures NextSnapshotDate("31/01/24") == "31/03/24"
  {
    LabelJan31of2024();
    LabelMar31of2024();
    assert AppendedMonthEnd(Date(2024, 0, 31)) == Date(2024, 2, 31);
    NextOfLabels(Date(2024, 0, 31), "31/01/24", "31/03/24");
  }

  /** 29 February 2024 (a leap day) is followed by 31 March. */
  lemma LeapDayToMarchEnd()
    ensures NextSnapshotDate("29/02/24") == "31/03/24"
  {
    LabelFeb29of2024();
    LabelMar31of2024();
    assert AppendedMonthEnd(Date(2024, 1, 29)) == Date(2024, 2, 31);
    NextOfLabels(Date(2024, 1, 29), "29/02/24", "31/03/24");
  }

  /** 31 March 2024 is followed by 31 May: 31 April overflows into May. */
  lemma MarchEndSkipsApril()
    ensures NextSnapshotDate("31/03/24") == "31/05/24"
  {
    LabelMar31of2024();
    LabelMay31of2024();
    assert AppendedMonthEnd(Date(2024, 2, 31)) == Date(2024, 4, 31);
    NextOfLabels(Date(2024, 2, 31), "31/03/24", "31/05/24");
  }

  /** 31 December 2099 is followed by 31 January 2100, printed with year '00'. */
  lemma CenturyRollover()
    ensures NextSnapshotDate("31/12/99") == "31/01/00"
  {
    LabelDec31of2099();
    LabelJan31of2100();
    assert AppendedMonthEnd(Date(2099, 11, 31)) == Date(2100, 0, 31);
    NextOfLabels(Date(2099, 11, 31), "31/12/99", "31/01/00");
  }

  /** An ISO-style label has no '/' and gives the NaN label. */
  lemma MalformedLabel()
    ensures NextSnapshotDate("2024-01-31") == InvalidLabel
  {
    LabelWithoutSlash("2024-01-31");
  }
}
