/**
 * Wall-clock times as the booking module receives them: zero-padded 24-hour
 * "HH:MM" strings, turned into minutes after midnight.
 */
module Times {

  predicate IsDigit(c: char) {
    '0' <= c <= '9'
  }

  function DigitValue(c: char): (d: nat)
    requires IsDigit(c)
    ensures d < 10
  {
    c as int - '0' as int
  }

  /** A time string of the form "HH:MM": two digits, a colon, two digits. */
  predicate IsTime(t: string) {
    |t| == 5 && IsDigit(t[0]) && IsDigit(t[1]) && t[2] == ':' && IsDigit(t[3]) && IsDigit(t[4])
  }

  /** The number before the colon. */
  function Hours(t: string): nat
    requires IsTime(t)
  {
    10 * DigitValue(t[0]) + DigitValue(t[1])
  }

  /** The number after the colon. */
  function MinutesPart(t: string): nat
    requires IsTime(t)
  {
    10 * DigitValue(t[3]) + DigitValue(t[4])
  }

  /**
   * `timeToMinutes`: hours * 60 + minutes, with no range check on either part,
   * so "01:60" and "02:00" read alike; when the minutes are below 60 the
   * result splits back into exactly the hours and the minutes written.
   */
  function TimeToMinutes(t: string): (m: nat)
    requires IsTime(t)
    ensures m <= 99 * 60 + 99
    ensures MinutesPart(t) < 60 ==> m / 60 == Hours(t) && m % 60 == MinutesPart(t)
  {
    Hours(t) * 60 + MinutesPart(t)
  }

  function DigitChar(d: nat): (c: char)
    requires d < 10
    ensures IsDigit(c) && DigitValue(c) == d
  {
    ('0' as int + d) as char
  }

  /** The "HH:MM" string a client writes for `hours:minutes`. */
  function Clock(hours: nat, minutes: nat): (t: string)
    requires hours < 100 && minutes < 100
    ensures IsTime(t)
  {
    [DigitChar(hours / 10), DigitChar(hours % 10), ':', DigitChar(minutes / 10), DigitChar(minutes % 10)]
  }

  /** A time string is read as the hours and minutes it was written from. */
  lemma ClockToMinutes(hours: nat, minutes: nat)
    requires hours < 100 && minutes < 100
    ensures Hours(Clock(hours, minutes)) == hours && MinutesPart(Clock(hours, minutes)) == minutes
    ensures TimeToMinutes(Clock(hours, minutes)) == hours * 60 + minutes
  {
  }

  /** Every "HH:MM" string is the rendering of the hours and minutes it is read as. */
  lemma ClockOfTime(t: string)
    requires IsTime(t)
    ensures Clock(Hours(t), MinutesPart(t)) == t
  {
    var h, m := Hours(t), MinutesPart(t);
    assert DigitChar(h / 10) == t[0] && DigitChar(h % 10) == t[1];
    assert DigitChar(m / 10) == t[3] && DigitChar(m % 10) == t[4];
  }

  /** Rendering a span under 100 hours as "HH:MM" and reading it back gives the same number of minutes. */
  lemma TimeRoundTrip(m: nat)
    requires m < 6000
    ensures TimeToMinutes(Clock(m / 60, m % 60)) == m
  {
    ClockToMinutes(m / 60, m % 60);
  }
}
