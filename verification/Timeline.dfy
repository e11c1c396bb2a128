/**
 Instants and 64-bit durations as Go's time package has them.
 */
module Timeline {

  /** An instant, in nanoseconds after Go's zero time; `IsZero()` is comparison with 0. */
  type Time = int

  const SECOND := 1_000_000_000
  const MINUTE := 60 * SECOND
  const HOUR := 60 * MINUTE
  const DAY := 24 * HOUR
  const MIN64 := -0x8000_0000_0000_0000
  const MAX64 := 0x7FFF_FFFF_FFFF_FFFF

  predicate Fits64(x: int) {
    MIN64 <= x <= MAX64
  }

  /** Two's complement wrap-around of a signed 64-bit result. */
  function Wrap64(x: int): (r: int)
    ensures Fits64(r) && (Fits64(x) ==> r == x) && (x - r) % 0x1_0000_0000_0000_0000 == 0
  {
    if Fits64(x) then x else (x - MIN64) % 0x1_0000_0000_0000_0000 + MIN64
  }

  /** `Time.Sub`: the difference as a Duration, saturating at the 64-bit limits. */
  function Sub(a: Time, b: Time): (r: int)
    ensures Fits64(r)
    ensures r == a - b || (r == MAX64 < a - b) || (r == MIN64 > a - b)
  {
    if a - b > MAX64 then MAX64 else if a - b < MIN64 then MIN64 else a - b
  }

  function Digit(n: nat): char
    requires n < 10
  {
    "0123456789"[n]
  }

  function TwoDigits(n: nat): string
    requires n < 100
  {
    [Digit(n / 10), Digit(n % 10)]
  }

  /** The clock time of an instant, in UTC, as "%H:%MZ". */
  function HourMinute(t: Time): string {
    TwoDigits(t / HOUR % 24) + ":" + TwoDigits(t / MINUTE % 60) + "Z"
  }

  function DigitValue(c: char): int {
    c as int - '0' as int
  }

  /** The text "hh:mmZ", read back as numbers. */
  ghost predicate ReadsAs(s: string, hour: nat, minute: nat) {
    && |s| == 6 && s[2] == ':' && s[5] == 'Z'
    && 10 * DigitValue(s[0]) + DigitValue(s[1]) == hour
    && 10 * DigitValue(s[3]) + DigitValue(s[4]) == minute
  }

  /** An instant is shown as the hour of its day and the minute of that hour. */
  lemma HourMinuteReads(t: Time, day: int, hour: nat, minute: nat)
    requires hour < 24 && minute < 60
    requires 0 <= t - (day * DAY + hour * HOUR + minute * MINUTE) < MINUTE
    ensures ReadsAs(HourMinute(t), hour, minute)
  {
    HourOfDay(t, day, hour);
    MinuteOfHour(t, day * 24 + hour, minute);
    TextReads(hour, minute);
  }

  lemma TextReads(hour: nat, minute: nat)
    requires hour < 24 && minute < 60
    ensures ReadsAs(TwoDigits(hour) + ":" + TwoDigits(minute) + "Z", hour, minute)
  {
    TwoDigitsRead(hour);
    TwoDigitsRead(minute);
  }

  lemma HourOfDay(t: Time, day: int, hour: nat)
    requires hour < 24 && day * DAY + hour * HOUR <= t < day * DAY + hour * HOUR + HOUR
    ensures t / HOUR % 24 == hour
  {
    Hours(t, day * 24 + hour);
    Remainder(day, 24, hour);
  }

  lemma MinuteOfHour(t: Time, hours: int, minute: nat)
    requires minute < 60 && hours * HOUR + minute * MINUTE <= t < hours * HOUR + minute * MINUTE + MINUTE
    ensures t / MINUTE % 60 == minute
  {
    Minutes(t, hours * 60 + minute);
    Remainder(hours, 60, minute);
  }

  lemma Hours(t: Time, q: int)
    requires q * HOUR <= t < q * HOUR + HOUR
    ensures t / HOUR == q
  {
  }

  lemma Minutes(t: Time, q: int)
    requires q * MINUTE <= t < q * MINUTE + MINUTE
    ensures t / MINUTE == q
  {
  }

  lemma Remainder(q: int, n: int, r: int)
    requires n == 24 || n == 60
    requires 0 <= r < n
    ensures (q * n + r) % n == r
  {
  }

  lemma TwoDigitsRead(n: nat)
    requires n < 100
    ensures |TwoDigits(n)| == 2 && 10 * DigitValue(TwoDigits(n)[0]) + DigitValue(TwoDigits(n)[1]) == n
  {
    DigitReads(n / 10);
    DigitReads(n % 10);
  }

  lemma DigitReads(n: nat)
    requires n < 10
    ensures DigitValue(Digit(n)) == n
  {
  }
}
