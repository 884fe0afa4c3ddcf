/**
 Time as the program stores and subtracts it: UTC text in the format of section 5.6 of
 RFC 3339, and retention as a 64-bit count of nanoseconds
 (internal/syncer/syncer.go:86-96, 257-267; internal/store/store.go:480, 528).
 */
module Timestamps {
  import opened Wrappers
  import opened Strings
  import opened Store

  // ----- Durations -----

  const SECOND: int := 1_000_000_000
  const HOUR: int := 3600 * SECOND
  const TWO_63: int := 0x8000_0000_0000_0000
  const TWO_64: int := 0x1_0000_0000_0000_0000

  /** Reduction of an exact result to a signed 64-bit integer. */
  function Wrap64(n: int): (r: int)
    ensures -TWO_63 <= r < TWO_63 && (n - r) % TWO_64 == 0
  {
    (n + TWO_63) % TWO_64 - TWO_63
  }

  /** `observedIPRetention`: 0 switches retention off; the product may wrap. */
  function ObservedIPRetention(job: Option<SyncJob>): int {
    match job
    case None => Wrap64(DEFAULT_OBSERVED_IP_TTL_HOURS * HOUR)
    case Some(j) => if j.ttlHours <= 0 then 0 else Wrap64(j.ttlHours * HOUR)
  }

  const MAX_EXACT_HOURS := 2_562_047

  /** The retention is the configured number of hours exactly up to 2,562,047 hours. */
  lemma RetentionExactIff(job: SyncJob)
    requires job.ttlHours >= 0
    ensures ObservedIPRetention(Some(job)) == job.ttlHours * 3_600_000_000_000 <==> job.ttlHours <= 2_562_047
  {
    assert MAX_EXACT_HOURS * HOUR < TWO_63 <= (MAX_EXACT_HOURS + 1) * HOUR;
  }

  /**
   Any setting above that, up to the next wrap, gives a negative duration, which turns retention
   off and so clears the cache; from there on the duration starts again at less than an hour.
   */
  lemma LargerSettingsTurnRetentionOff(job: SyncJob)
    requires MAX_EXACT_HOURS < job.ttlHours
    ensures job.ttlHours <= 5_124_095 ==> ObservedIPRetention(Some(job)) < 0
    ensures job.ttlHours == 5_124_096 ==> 0 < ObservedIPRetention(Some(job)) < HOUR
  {
    assert TWO_63 <= (MAX_EXACT_HOURS + 1) * HOUR && 5_124_095 * HOUR < TWO_64 < 5_124_096 * HOUR < TWO_64 + HOUR;
    var exact := job.ttlHours * HOUR;
    if job.ttlHours <= 5_124_096 {
      WrapOnce(exact);
    }
  }

  lemma WrapOnce(n: int)
    requires TWO_63 <= n < TWO_64 + TWO_63
    ensures Wrap64(n) == n - TWO_64
  {
  }

  /** A job read from the store keeps its cache for the default week when its setting is negative. */
  lemma NegativeSettingMeansDefault(job: SyncJob)
    requires job.ttlHours < 0
    ensures ObservedIPRetention(Some(ReadJob(job))) == ObservedIPRetention(None) == 168 * 3_600_000_000_000
  {
    assert 7 * 24 * HOUR < TWO_63;
  }

  /** Formatting drops the fraction of a second. */
  function Seconds(ns: int): (s: int)
    ensures s * 1_000_000_000 <= ns < (s + 1) * 1_000_000_000
  {
    ns / SECOND
  }

  /** With an exact retention the stored cutoff is the stored run time minus whole hours. */
  lemma CutoffIsExact(nowNs: int, ttlHours: nat)
    ensures Seconds(nowNs - ttlHours * HOUR) == Seconds(nowNs) - ttlHours * 3600
  {
    var h := ttlHours * 3600;
    assert ttlHours * HOUR == h * SECOND;
  }

  // ----- Text -----

  datatype Civil = Civil(year: nat, month: nat, day: nat, hour: nat, minute: nat, second: nat)

  predicate IsLeap(year: nat) {
    year % 4 == 0 && (year % 100 != 0 || year % 400 == 0)
  }

  function DaysIn(year: nat, month: nat): nat {
    if month == 2 then (if IsLeap(year) then 29 else 28)
    else if month in {4, 6, 9, 11} then 30
    else 31
  }

  predicate Valid(c: Civil) {
    && c.year <= 9999
    && 1 <= c.month <= 12
    && 1 <= c.day <= DaysIn(c.year, c.month)
    && c.hour < 24 && c.minute < 60 && c.second < 60
  }

  /** Days before a year of the proleptic Gregorian calendar, counted from year 0. */
  function DaysBeforeYear(year: nat): nat {
    if year == 0 then 0 else DaysBeforeYear(year - 1) + if IsLeap(year - 1) then 366 else 365
  }

  function DaysBeforeMonth(year: nat, month: nat): nat {
    if month <= 1 then 0 else DaysBeforeMonth(year, month - 1) + DaysIn(year, month - 1)
  }

  function DayNumber(c: Civil): nat
    requires c.day >= 1
  {
    DaysBeforeYear(c.year) + DaysBeforeMonth(c.year, c.month) + (c.day - 1)
  }

  /** Where Unix seconds start. */
  const EPOCH := Civil(1970, 1, 1, 0, 0, 0)

  function UnixSeconds(c: Civil): int
    requires c.day >= 1
  {
    ((DayNumber(c) - DayNumber(EPOCH)) * 24 + c.hour) * 3600 + c.minute * 60 + c.second
  }

  function Pad(n: nat, width: nat): (s: string)
    ensures |s| == width
  {
    if width == 0 then "" else Pad(n / 10, width - 1) + ['0' + (n % 10) as char]
  }

  function Rfc3339(c: Civil): string {
    Pad(c.year, 4) + ("-" + (Pad(c.month, 2) + ("-" + (Pad(c.day, 2) + ("T" +
      (Pad(c.hour, 2) + (":" + (Pad(c.minute, 2) + (":" + (Pad(c.second, 2) + "Z"))))))))))
  }

  function Power10(width: nat): nat {
    if width == 0 then 1 else 10 * Power10(width - 1)
  }

  lemma {:induction false} PadOrder(m: nat, n: nat, width: nat)
    requires m < Power10(width) && n < Power10(width)
    ensures StringLess(Pad(m, width), Pad(n, width)) <==> m < n
    ensures Pad(m, width) == Pad(n, width) <==> m == n
  {
    if width == 0 {
    } else {
      var p, q := Pad(m / 10, width - 1), Pad(n / 10, width - 1);
      var x, y := ['0' + (m % 10) as char], ['0' + (n % 10) as char];
      PadOrder(m / 10, n / 10, width - 1);
      StringOrderOfFields(p, x, q, y);
      assert p + x == q + y <==> p == q && x == y by {
        assert (p + x)[..width - 1] == p && (q + y)[..width - 1] == q;
        assert (p + x)[width - 1..] == x && (q + y)[width - 1..] == y;
      }
      assert StringLess(x, y) <==> m % 10 < n % 10;
    }
  }

  /** A padded field followed by one separator and the rest compares field first. */
  lemma FieldOrder(m: nat, n: nat, width: nat, sep: char, x: string, y: string)
    requires m < Power10(width) && n < Power10(width)
    ensures StringLess(Pad(m, width) + ([sep] + x), Pad(n, width) + ([sep] + y))
      <==> m < n || (m == n && StringLess(x, y))
  {
    PadOrder(m, n, width);
    StringOrderOfFields(Pad(m, width), [sep] + x, Pad(n, width), [sep] + y);
    assert ([sep] + x)[1..] == x && ([sep] + y)[1..] == y;
  }

  predicate CivilBefore(a: Civil, b: Civil) {
    || a.year < b.year
    || (a.year == b.year && (
        || a.month < b.month
        || (a.month == b.month && (
            || a.day < b.day
            || (a.day == b.day && TimeOfDay(a) < TimeOfDay(b))))))
  }

  function TimeOfDay(c: Civil): nat {
    c.hour * 3600 + c.minute * 60 + c.second
  }

  function TimeText(c: Civil): string {
    Pad(c.hour, 2) + (":" + (Pad(c.minute, 2) + (":" + (Pad(c.second, 2) + "Z"))))
  }

  lemma TimeTextOrder(a: Civil, b: Civil)
    requires Valid(a) && Valid(b)
    ensures StringLess(TimeText(a), TimeText(b)) <==> TimeOfDay(a) < TimeOfDay(b)
  {
    assert Power10(2) == 100 by { assert Power10(1) == 10; }
    var s, t := Pad(a.second, 2) + "Z", Pad(b.second, 2) + "Z";
    PadOrder(a.second, b.second, 2);
    StringOrderOfFields(Pad(a.second, 2), "Z", Pad(b.second, 2), "Z");
    assert !StringLess("Z", "Z");
    FieldOrder(a.minute, b.minute, 2, ':', s, t);
    FieldOrder(a.hour, b.hour, 2, ':', Pad(a.minute, 2) + (":" + s), Pad(b.minute, 2) + (":" + t));
  }

  lemma TextOrderIsCivilOrder(a: Civil, b: Civil)
    requires Valid(a) && Valid(b)
    ensures StringLess(Rfc3339(a), Rfc3339(b)) <==> CivilBefore(a, b)
  {
    assert Power10(1) == 10 && Power10(2) == 100 && Power10(3) == 1000 && Power10(4) == 10000;
    TimeTextOrder(a, b);
    var d, e := Pad(a.day, 2) + ("T" + TimeText(a)), Pad(b.day, 2) + ("T" + TimeText(b));
    FieldOrder(a.day, b.day, 2, 'T', TimeText(a), TimeText(b));
    FieldOrder(a.month, b.month, 2, '-', d, e);
    FieldOrder(a.year, b.year, 4, '-', Pad(a.month, 2) + ("-" + d), Pad(b.month, 2) + ("-" + e));
    assert Rfc3339(a) == Pad(a.year, 4) + ("-" + (Pad(a.month, 2) + ("-" + d)));
    assert Rfc3339(b) == Pad(b.year, 4) + ("-" + (Pad(b.month, 2) + ("-" + e)));
  }

  lemma {:induction false} YearsAscend(y: nat, z: nat)
    requires y < z
    ensures DaysBeforeYear(y) + (if IsLeap(y) then 366 else 365) <= DaysBeforeYear(z)
  {
    if y + 1 == z {
    } else {
      YearsAscend(y, z - 1);
    }
  }

  lemma {:induction false} MonthsAscend(year: nat, m: nat, n: nat)
    requires 1 <= m < n
    ensures DaysBeforeMonth(year, m) + DaysIn(year, m) <= DaysBeforeMonth(year, n)
  {
    if m + 1 == n {
    } else {
      MonthsAscend(year, m, n - 1);
    }
  }

  lemma YearLength(year: nat)
    ensures DaysBeforeMonth(year, 13) == if IsLeap(year) then 366 else 365
  {
    var f := DaysIn(year, 2);
    assert DaysBeforeMonth(year, 2) == 31 && DaysBeforeMonth(year, 3) == 31 + f;
    assert DaysBeforeMonth(year, 4) == 62 + f && DaysBeforeMonth(year, 5) == 92 + f;
    assert DaysBeforeMonth(year, 6) == 123 + f && DaysBeforeMonth(year, 7) == 153 + f;
    assert DaysBeforeMonth(year, 8) == 184 + f && DaysBeforeMonth(year, 9) == 215 + f;
    assert DaysBeforeMonth(year, 10) == 245 + f && DaysBeforeMonth(year, 11) == 276 + f;
    assert DaysBeforeMonth(year, 12) == 306 + f;
  }

  lemma EarlierDayNumber(a: Civil, b: Civil)
    requires Valid(a) && Valid(b)
    requires a.year < b.year || (a.year == b.year && (a.month < b.month || (a.month == b.month && a.day < b.day)))
    ensures DayNumber(a) < DayNumber(b)
  {
    if a.year < b.year {
      YearsAscend(a.year, b.year);
      YearLength(a.year);
      MonthsAscend(a.year, a.month, 13);
    } else if a.month < b.month {
      MonthsAscend(a.year, a.month, b.month);
    }
  }

  lemma CivilOrderIsUnixOrder(a: Civil, b: Civil)
    requires Valid(a) && Valid(b) && CivilBefore(a, b)
    ensures UnixSeconds(a) < UnixSeconds(b)
  {
    if !(a.year == b.year && a.month == b.month && a.day == b.day) {
      EarlierDayNumber(a, b);
    }
  }

  /**
   Comparing two stored timestamps as text is comparing the times they stand for, so text
   cutoffs are time cutoffs, in years 0000 to 9999.
   */
  lemma TextOrderIsTimeOrder(a: Civil, b: Civil)
    requires Valid(a) && Valid(b)
    ensures StringLess(Rfc3339(a), Rfc3339(b)) <==> UnixSeconds(a) < UnixSeconds(b)
    ensures Rfc3339(a) == Rfc3339(b) <==> UnixSeconds(a) == UnixSeconds(b)
  {
    TextOrderIsCivilOrder(a, b);
    TextOrderIsCivilOrder(b, a);
    StringOrderIsTotal(Rfc3339(a), Rfc3339(b));
    if CivilBefore(a, b) {
      CivilOrderIsUnixOrder(a, b);
    } else if CivilBefore(b, a) {
      CivilOrderIsUnixOrder(b, a);
    } else {
      assert TimeOfDay(a) == TimeOfDay(b);
    }
  }

  /** The year and month a day number falls in. */
  lemma {:induction false} YearOfDay(day: nat, limit: nat) returns (year: nat)
    requires day < DaysBeforeYear(limit)
    ensures year < limit && DaysBeforeYear(year) <= day < DaysBeforeYear(year + 1)
  {
    if DaysBeforeYear(limit - 1) <= day {
      year := limit - 1;
    } else {
      year := YearOfDay(day, limit - 1);
    }
  }

  lemma {:induction false} MonthOfDay(year: nat, day: nat, limit: nat) returns (month: nat)
    requires 1 <= limit && day < DaysBeforeMonth(year, limit)
    ensures 1 <= month < limit && DaysBeforeMonth(year, month) <= day < DaysBeforeMonth(year, month + 1)
  {
    if DaysBeforeMonth(year, limit - 1) <= day {
      month := limit - 1;
    } else {
      month := MonthOfDay(year, day, limit - 1);
    }
  }

  lemma DayWithinYear(c: Civil)
    requires Valid(c)
    ensures DaysBeforeYear(c.year) <= DayNumber(c) < DaysBeforeYear(c.year + 1)
  {
    YearLength(c.year);
    MonthsAscend(c.year, c.month, 13);
  }

  lemma CivilOfSeconds(t: int, last: Civil) returns (c: Civil)
    requires Valid(last) && 0 <= t / 86400 + DayNumber(EPOCH) <= DayNumber(last)
    ensures Valid(c) && UnixSeconds(c) == t
  {
    var day, rest := t / 86400 + DayNumber(EPOCH), t % 86400;
    DayWithinYear(last);
    var year := YearOfDay(day, last.year + 1);
    YearLength(year);
    var month := MonthOfDay(year, day - DaysBeforeYear(year), 13);
    c := Civil(year, month, day - DaysBeforeYear(year) - DaysBeforeMonth(year, month) + 1,
               rest / 3600, rest % 3600 / 60, rest % 60);
    assert DayNumber(c) == day;
  }

  /** Every second between two timestamps has a timestamp of its own, and only one text. */
  lemma EveryTimeHasOneText(t: int, first: Civil, last: Civil)
    requires Valid(first) && Valid(last) && UnixSeconds(first) <= t <= UnixSeconds(last)
    ensures exists c :: Valid(c) && UnixSeconds(c) == t
    ensures forall b, c :: Valid(b) && Valid(c) && UnixSeconds(b) == UnixSeconds(c) == t ==> Rfc3339(b) == Rfc3339(c)
  {
    var c := CivilOfSeconds(t, last);
    forall b, c | Valid(b) && Valid(c) && UnixSeconds(b) == UnixSeconds(c) == t ensures Rfc3339(b) == Rfc3339(c) {
      TextOrderIsTimeOrder(b, c);
    }
  }

  // ----- What the calendar and the text mean -----

  /** The days of an ordinary year before each month. */
  const DAYS_BEFORE := [0, 31, 59, 90, 120, 151, 181, 212, 243, 273, 304, 334]

  /** Leap days from 1970 up to the beginning of the year. */
  function LeapDays(year: nat): int
    requires year >= 1970
  {
    (year - 1969) / 4 - (year - 1901) / 100 + (year - 1601) / 400
  }

  /** Seconds since the Epoch, as POSIX defines them (XBD section 4.19), from 1970 on. */
  function PosixSeconds(c: Civil): int
    requires Valid(c) && c.year >= 1970
  {
    var leap := c.year % 4 == 0 && (c.year % 100 != 0 || c.year % 400 == 0);
    var yday := DAYS_BEFORE[c.month - 1] + (if leap && c.month > 2 then 1 else 0) + (c.day - 1);
    c.second + c.minute * 60 + c.hour * 3600 + yday * 86_400 + (c.year - 1970) * 31_536_000 + LeapDays(c.year) * 86_400
  }

  lemma QuotientStep(x: nat, k: nat)
    requires k in {4, 100, 400}
    ensures (x + 1) / k == x / k + if (x + 1) % k == 0 then 1 else 0
  {
  }

  lemma LeapByDivisors(y: nat)
    ensures (if IsLeap(y) then 1 else 0)
         == (if y % 4 == 0 then 1 else 0) - (if y % 100 == 0 then 1 else 0) + (if y % 400 == 0 then 1 else 0)
  {
    assert y % 400 == 0 ==> y == 100 * (4 * (y / 400)) && (100 * (4 * (y / 400))) % 100 == 0;
    assert y % 100 == 0 ==> y == 4 * (25 * (y / 100)) && (4 * (25 * (y / 100))) % 4 == 0;
  }

  lemma LeapDaysStep(year: nat)
    requires year >= 1970
    ensures LeapDays(year + 1) == LeapDays(year) + if IsLeap(year) then 1 else 0
  {
    QuotientStep(year - 1969, 4);
    QuotientStep(year - 1901, 100);
    QuotientStep(year - 1601, 400);
    LeapByDivisors(year);
    SameRemainder(year - 1968, 492, 4);
    SameRemainder(year - 1900, 19, 100);
    SameRemainder(year - 1600, 4, 400);
  }

  lemma SameRemainder(x: nat, m: nat, k: nat)
    requires k in {4, 100, 400}
    ensures (x + m * k) % k == x % k
  {
  }

  lemma {:induction false} DaysSince(start: nat, year: nat)
    requires start == 1970 <= year
    ensures DaysBeforeYear(year) - DaysBeforeYear(start) == 365 * (year - 1970) + LeapDays(year)
  {
    if year == start {
    } else {
      DaysSince(start, year - 1);
      LeapDaysStep(year - 1);
    }
  }

  lemma DaysWithinYear(year: nat, month: nat)
    requires 1 <= month <= 12
    ensures DaysBeforeMonth(year, month) == DAYS_BEFORE[month - 1] + if IsLeap(year) && month > 2 then 1 else 0
  {
    var f := DaysIn(year, 2);
    assert DaysBeforeMonth(year, 2) == 31 && DaysBeforeMonth(year, 3) == 31 + f;
    assert DaysBeforeMonth(year, 4) == 62 + f && DaysBeforeMonth(year, 5) == 92 + f;
    assert DaysBeforeMonth(year, 6) == 123 + f && DaysBeforeMonth(year, 7) == 153 + f;
    assert DaysBeforeMonth(year, 8) == 184 + f && DaysBeforeMonth(year, 9) == 215 + f;
    assert DaysBeforeMonth(year, 10) == 245 + f && DaysBeforeMonth(year, 11) == 276 + f;
    assert DaysBeforeMonth(year, 12) == 306 + f;
  }

  /** The seconds that a timestamp stands for are POSIX's seconds since the Epoch. */
  lemma UnixSecondsArePosix(c: Civil)
    requires Valid(c) && c.year >= 1970
    ensures UnixSeconds(c) == PosixSeconds(c)
  {
    DaysSince(EPOCH.year, c.year);
    DaysWithinYear(c.year, c.month);
    assert DayNumber(EPOCH) == DaysBeforeYear(EPOCH.year);
  }

  lemma {:induction false} PadReadsBack(n: nat, width: nat)
    requires n < Power10(width)
    ensures Digits(Pad(n, width)) == n
  {
    if width == 0 {
    } else {
      PadReadsBack(n / 10, width - 1);
      var s := Pad(n, width);
      assert s[..width - 1] == Pad(n / 10, width - 1) && s[width - 1] == '0' + (n % 10) as char;
      assert Digits(s) == 10 * Digits(s[..width - 1]) + n % 10;
    }
  }

  /** A text of this form starts with the number, padded, and goes on after the separator. */
  predicate FieldThen(text: string, n: nat, width: nat, sep: char, rest: string) {
    |text| > width && Digits(text[..width]) == n && text[width] == sep && text[width + 1..] == rest
  }

  lemma FieldReadsBack(n: nat, width: nat, sep: char, rest: string)
    requires n < Power10(width)
    ensures FieldThen(Pad(n, width) + ([sep] + rest), n, width, sep, rest)
  {
    PadReadsBack(n, width);
    var text := Pad(n, width) + ([sep] + rest);
    assert text[..width] == Pad(n, width) && text[width + 1..] == rest;
  }

  /** The text has the form of section 5.6 of RFC 3339: YYYY-MM-DDThh:mm:ssZ. */
  lemma Rfc3339Means(c: Civil) returns (afterYear: string, afterMonth: string, afterDay: string,
                                        afterHour: string, afterMinute: string)
    requires Valid(c)
    ensures FieldThen(Rfc3339(c), c.year, 4, '-', afterYear)
    ensures FieldThen(afterYear, c.month, 2, '-', afterMonth)
    ensures FieldThen(afterMonth, c.day, 2, 'T', afterDay)
    ensures FieldThen(afterDay, c.hour, 2, ':', afterHour)
    ensures FieldThen(afterHour, c.minute, 2, ':', afterMinute)
    ensures FieldThen(afterMinute, c.second, 2, 'Z', "")
  {
    assert Power10(1) == 10 && Power10(2) == 100 && Power10(3) == 1000 && Power10(4) == 10000;
    afterMinute := Pad(c.second, 2) + "Z";
    afterHour := Pad(c.minute, 2) + (":" + afterMinute);
    afterDay := Pad(c.hour, 2) + (":" + afterHour);
    afterMonth := Pad(c.day, 2) + ("T" + afterDay);
    afterYear := Pad(c.month, 2) + ("-" + afterMonth);
    FieldReadsBack(c.year, 4, '-', afterYear);
    FieldReadsBack(c.month, 2, '-', afterMonth);
    FieldReadsBack(c.day, 2, 'T', afterDay);
    FieldReadsBack(c.hour, 2, ':', afterHour);
    FieldReadsBack(c.minute, 2, ':', afterMinute);
    FieldReadsBack(c.second, 2, 'Z', "");
    assert ['Z'] + "" == "Z";
  }
}
