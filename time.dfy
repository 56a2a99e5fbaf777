/** Korean-time dates and session timing (src/utils/timeUtils.js). Times are integer
    milliseconds since 1970-01-01T00:00:00Z; the clock is the parameter `now`. */
module Time {
  import opened Wrappers
  import opened Text

  const MinuteMs: int := 60000
  const HourMs: int := 3600000
  const DayMs: int := 86400000
  /** KST is UTC+9. */
  const KstOffsetMs: int := 9 * HourMs
  /** A login session lasts 40 minutes. */
  const SessionMs: int := 40 * MinuteMs

  /** getKoreanTime: the clock shifted by nine hours, read afterwards with the UTC getters. */
  function GetKoreanTime(now: int): int {
    now + KstOffsetMs
  }

  // ---------------------------------------------------------------------------------------
  // The proleptic Gregorian calendar of the UTC getters (getUTCFullYear/Month/Date).

  predicate IsLeap(y: int) {
    y % 4 == 0 && (y % 100 != 0 || y % 400 == 0)
  }

  function DaysInYear(y: int): int {
    if IsLeap(y) then 366 else 365
  }

  function DaysInMonth(y: int, m: int): int
    requires 1 <= m <= 12
  {
    if m == 2 then (if IsLeap(y) then 29 else 28)
    else if m == 4 || m == 6 || m == 9 || m == 11 then 30
    else 31
  }

  /** Days of the months before month `m` of year `y`. */
  function DaysBeforeMonth(y: int, m: int): int
    requires 1 <= m <= 13
  {
    if m == 1 then 0 else DaysBeforeMonth(y, m - 1) + DaysInMonth(y, m - 1)
  }

  lemma MonthsFillYear(y: int)
    ensures DaysBeforeMonth(y, 13) == DaysInYear(y)
  {
    assert DaysBeforeMonth(y, 2) == 31;
    assert DaysBeforeMonth(y, 3) == 31 + DaysInMonth(y, 2);
    assert DaysBeforeMonth(y, 4) == DaysBeforeMonth(y, 3) + 31;
    assert DaysBeforeMonth(y, 5) == DaysBeforeMonth(y, 3) + 61;
    assert DaysBeforeMonth(y, 6) == DaysBeforeMonth(y, 3) + 92;
    assert DaysBeforeMonth(y, 7) == DaysBeforeMonth(y, 3) + 122;
    assert DaysBeforeMonth(y, 8) == DaysBeforeMonth(y, 3) + 153;
    assert DaysBeforeMonth(y, 9) == DaysBeforeMonth(y, 3) + 184;
    assert DaysBeforeMonth(y, 10) == DaysBeforeMonth(y, 3) + 214;
    assert DaysBeforeMonth(y, 11) == DaysBeforeMonth(y, 3) + 245;
    assert DaysBeforeMonth(y, 12) == DaysBeforeMonth(y, 3) + 275;
  }

  /** Signed number of days from 1 January of year `a` to 1 January of year `b`. */
  function YearSpan(a: int, b: int): int
    decreases if a <= b then b - a else a - b
  {
    if a == b then 0
    else if a < b then DaysInYear(a) + YearSpan(a + 1, b)
    else YearSpan(a - 1, b) - DaysInYear(a - 1)
  }

  lemma YearSpanStep(a: int, b: int)
    ensures YearSpan(a, b) == DaysInYear(a) + YearSpan(a + 1, b)
  {
  }

  /** The year containing day `r` counted from 1 January of year `y`, and the day's index within
      that year. */
  function YearOf(y: int, r: int): (res: (int, int))
    ensures 0 <= res.1 < DaysInYear(res.0)
    ensures YearSpan(y, res.0) + res.1 == r
    decreases if r < 0 then 400 - r else r
  {
    if r < 0 then
      var res := YearOf(y - 1, r + DaysInYear(y - 1));
      YearSpanStep(y - 1, res.0);
      res
    else if r < DaysInYear(y) then (y, r)
    else
      var res := YearOf(y + 1, r - DaysInYear(y));
      YearSpanStep(y, res.0);
      res
  }

  /** The month containing day `r` counted from the first day of month `m`, and the day's index
      within that month. */
  function MonthOf(y: int, m: int, r: int): (res: (int, int))
    requires 1 <= m <= 12 && 0 <= r && DaysBeforeMonth(y, m) + r < DaysInYear(y)
    ensures 1 <= res.0 <= 12 && 0 <= res.1 < DaysInMonth(y, res.0)
    ensures DaysBeforeMonth(y, res.0) + res.1 == DaysBeforeMonth(y, m) + r
    decreases 12 - m
  {
    MonthsFillYear(y);
    if r < DaysInMonth(y, m) then (m, r)
    else MonthOf(y, m + 1, r - DaysInMonth(y, m))
  }

  datatype Date = Date(year: int, month: int, day: int)

  predicate ValidDate(d: Date) {
    1 <= d.month <= 12 && 1 <= d.day <= DaysInMonth(d.year, d.month)
  }

  /** The UTC calendar date of a day number (days since 1970-01-01). */
  function CivilFromDays(days: int): (d: Date)
    ensures ValidDate(d)
  {
    var (y, r) := YearOf(1970, days);
    var (m, dd) := MonthOf(y, 1, r);
    Date(y, m, dd + 1)
  }

  /** The day number of a calendar date. */
  function DaysFromCivil(d: Date): int
    requires ValidDate(d)
  {
    YearSpan(1970, d.year) + DaysBeforeMonth(d.year, d.month) + d.day - 1
  }

  /** Converting a day number to a date and back gives the day number again. */
  lemma CivilRoundTrip(days: int)
    ensures DaysFromCivil(CivilFromDays(days)) == days
  {
  }

  /** Different days have different dates. */
  lemma CivilFromDaysInjective(a: int, b: int)
    requires CivilFromDays(a) == CivilFromDays(b)
    ensures a == b
  {
    CivilRoundTrip(a);
    CivilRoundTrip(b);
  }

  /** `String(n).padStart(2, '0')`. */
  function Pad2(n: nat): string {
    var s := NatToString(n);
    if |s| < 2 then "0" + s else s
  }

  lemma Pad2Value(n: nat)
    requires 1 <= n <= 99
    ensures |Pad2(n)| == 2 && AllDigits(Pad2(n)) && DigitsValue(Pad2(n)) == n
  {
    NatToStringRoundTrip(n);
    var s := NatToString(n);
    if n < 10 {
      assert |s| == 1;
      var p := Pad2(n);
      assert p[..1] == "0" && p[1] == s[0];
      assert DigitsValue(s) == DigitVal(s[0]) by {
        assert s[..0] == [];
      }
    } else {
      assert |s| == 2 by {
        assert NatToString(n / 10) == [DigitChar(n / 10)];
      }
    }
  }

  /** `${year}-${month}-${day}` with month and day zero-padded. */
  function DateString(d: Date): string {
    IntToString(d.year) + "-" + Pad2(if d.month < 0 then 0 else d.month) + "-" + Pad2(if d.day < 0 then 0 else d.day)
  }

  /** The date text shows the year, then the two-digit month and day. */
  lemma DateStringParts(d: Date)
    requires ValidDate(d)
    ensures var s := DateString(d);
      && |s| == |IntToString(d.year)| + 6
      && s[..|s| - 6] == IntToString(d.year)
      && s[|s| - 6] == '-' && s[|s| - 3] == '-'
      && s[|s| - 5..|s| - 3] == Pad2(d.month)
      && s[|s| - 2..] == Pad2(d.day)
  {
    Pad2Value(d.month);
    Pad2Value(d.day);
  }

  /** Different valid dates have different texts. */
  lemma DateStringInjective(a: Date, b: Date)
    requires ValidDate(a) && ValidDate(b) && DateString(a) == DateString(b)
    ensures a == b
  {
    DateStringParts(a);
    DateStringParts(b);
    Pad2Value(a.month);
    Pad2Value(b.month);
    Pad2Value(a.day);
    Pad2Value(b.day);
    var s := DateString(a);
    assert |IntToString(a.year)| == |IntToString(b.year)|;
    IntToStringInjective(a.year, b.year);
  }

  /** The UTC day number of a time (`/` on a positive divisor rounds down). */
  function UtcDay(t: int): int {
    t / DayMs
  }

  /** The UTC "YYYY-MM-DD" of a time, as the UTC getters and padStart give it. */
  function UtcDateString(t: int): string {
    DateString(CivilFromDays(UtcDay(t)))
  }

  /** getTodayKST. */
  function GetTodayKST(now: int): string {
    UtcDateString(GetKoreanTime(now))
  }

  /** Two UTC date texts agree exactly when the times fall on the same UTC day. */
  lemma UtcDateStringSame(a: int, b: int)
    ensures UtcDateString(a) == UtcDateString(b) <==> UtcDay(a) == UtcDay(b)
  {
    if UtcDateString(a) == UtcDateString(b) {
      DateStringInjective(CivilFromDays(UtcDay(a)), CivilFromDays(UtcDay(b)));
      CivilFromDaysInjective(UtcDay(a), UtcDay(b));
    }
  }

  /** getTodayKST gives the same text at two times exactly when nine hours later they fall on the
      same UTC day. */
  lemma TodayKstSame(a: int, b: int)
    ensures GetTodayKST(a) == GetTodayKST(b) <==> UtcDay(a + KstOffsetMs) == UtcDay(b + KstOffsetMs)
  {
    UtcDateStringSame(a + KstOffsetMs, b + KstOffsetMs);
  }

  /** The KST date changes at 15:00 UTC: it differs one millisecond before and at 15:00 UTC of
      any UTC day, and stays the same for the following 24 hours. */
  lemma TodayKstChangesAt1500Utc(k: int, x: int)
    requires 0 <= x < DayMs
    ensures GetTodayKST(k * DayMs + 15 * HourMs - 1) != GetTodayKST(k * DayMs + 15 * HourMs)
    ensures GetTodayKST(k * DayMs + 15 * HourMs + x) == GetTodayKST(k * DayMs + 15 * HourMs)
  {
    var t := k * DayMs + 15 * HourMs;
    assert UtcDay(t + KstOffsetMs) == k + 1;
    assert UtcDay(t - 1 + KstOffsetMs) == k;
    assert UtcDay(t + x + KstOffsetMs) == k + 1;
    TodayKstSame(t - 1, t);
    TodayKstSame(t + x, t);
  }

  /** getTodayKST is a well-formed "YYYY-MM-DD" text: the date is valid and month and day have
      two digits. */
  lemma TodayKstShape(now: int)
    ensures var d := CivilFromDays(UtcDay(now + KstOffsetMs));
      && ValidDate(d)
      && GetTodayKST(now) == IntToString(d.year) + "-" + Pad2(d.month) + "-" + Pad2(d.day)
      && |Pad2(d.month)| == 2 && |Pad2(d.day)| == 2
  {
    var d := CivilFromDays(UtcDay(now + KstOffsetMs));
    Pad2Value(d.month);
    Pad2Value(d.day);
  }

  /** getSessionExpiryTime. */
  function GetSessionExpiryTime(now: int): int {
    now + SessionMs
  }

  /** isSessionExpired: a missing expiry counts as expired; the boundary instant is expired. */
  predicate IsSessionExpired(expiresAt: Option<int>, now: int) {
    match expiresAt
    case None => true
    case Some(e) => now >= e
  }

  /** getSessionRemainingMinutes: whole minutes left, rounded up. */
  function GetSessionRemainingMinutes(expiresAt: Option<int>, now: int): (r: int)
    ensures r >= 0
    ensures r > 0 <==> !IsSessionExpired(expiresAt, now)
    ensures r > 0 ==> (r - 1) * MinuteMs < expiresAt.value - now <= r * MinuteMs
  {
    match expiresAt
    case None => 0
    case Some(e) =>
      var diff := e - now;
      if diff <= 0 then 0 else (diff + MinuteMs - 1) / MinuteMs
  }

  /** A session created now has 40 minutes left, and is not expired until 40 minutes have
      passed. */
  lemma FreshSession(now: int, later: int)
    ensures GetSessionRemainingMinutes(Some(GetSessionExpiryTime(now)), now) == 40
    ensures IsSessionExpired(Some(GetSessionExpiryTime(now)), later) <==> later - now >= SessionMs
  {
  }

  /** Whether a shifted time is at 15:00:00.000 on the UTC clock. */
  predicate AtShiftedFifteen(t: int) {
    t % DayMs == 15 * HourMs
  }

  /** getTimeUntilMidnightKST, as written: 15:00 is set on the already shifted clock, so this is
      the time until the next 15:00 of that clock (15:00 KST), one day when it is exactly now. */
  function GetTimeUntilMidnightKST(now: int): (r: int)
    ensures 0 < r <= DayMs
    ensures AtShiftedFifteen(GetKoreanTime(now) + r)
    ensures forall t :: GetKoreanTime(now) < t < GetKoreanTime(now) + r ==> !AtShiftedFifteen(t)
  {
    var kst := GetKoreanTime(now);
    var midnight := UtcDay(kst) * DayMs + 15 * HourMs;
    var target := if midnight <= kst then midnight + DayMs else midnight;
    NextShiftedFifteen(kst, UtcDay(kst) + (if midnight <= kst then 1 else 0));
    target - kst
  }

  /** The first 15:00 of day `d` comes after `kst` and is the first 15:00 after it, when `d` is
      the day of `kst` or, once that day's 15:00 has passed, the day after. */
  lemma NextShiftedFifteen(kst: int, d: int)
    requires d == UtcDay(kst) + (if UtcDay(kst) * DayMs + 15 * HourMs <= kst then 1 else 0)
    ensures kst < d * DayMs + 15 * HourMs <= kst + DayMs
    ensures AtShiftedFifteen(d * DayMs + 15 * HourMs)
    ensures forall t :: kst < t < d * DayMs + 15 * HourMs ==> !AtShiftedFifteen(t)
  {
    var k := UtcDay(kst);
    assert k * DayMs <= kst < k * DayMs + DayMs;
    forall t | kst < t < d * DayMs + 15 * HourMs ensures !AtShiftedFifteen(t) {
      var q := t / DayMs;
      assert t == q * DayMs + t % DayMs;
    }
    assert (d * DayMs + 15 * HourMs) % DayMs == 15 * HourMs;
  }

  /** isToday: false for a missing date, otherwise whether its UTC date text equals today's
      KST text. */
  predicate IsToday(date: Option<int>, now: int) {
    match date
    case None => false
    case Some(t) => UtcDateString(t) == GetTodayKST(now)
  }

  /** A date is today iff its UTC day is the UTC day of the shifted clock. */
  lemma IsTodayIff(t: int, now: int)
    ensures IsToday(Some(t), now) <==> UtcDay(t) == UtcDay(now + KstOffsetMs)
  {
    UtcDateStringSame(t, now + KstOffsetMs);
  }
}
