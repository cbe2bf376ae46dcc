/** Times of day as the converter reads and writes them: `strptime` and
    `strftime` with the format `%H:%M`, and the end of an appointment that
    starts at a given time and lasts a configured number of minutes. */
module Clock {
  import opened Outcomes

  const MinutesPerDay: int := 1440

  datatype TimeOfDay = TimeOfDay(hour: nat, minute: nat) {
    predicate Valid() {
      hour < 24 && minute < 60
    }

    /** Minutes elapsed since midnight. */
    function Minutes(): nat {
      hour * 60 + minute
    }
  }

  predicate IsDigit(c: char) {
    '0' <= c <= '9'
  }

  function DigitValue(c: char): nat
    requires IsDigit(c)
  {
    c as int - '0' as int
  }

  function DigitChar(d: nat): (c: char)
    requires d < 10
    ensures IsDigit(c) && DigitValue(c) == d
  {
    ('0' as int + d) as char
  }

  /** The `%H` directive: `2[0-3]`, `[01]` followed by a digit, or one digit. */
  predicate HourField(h: string) {
    || (|h| == 1 && IsDigit(h[0]))
    || (|h| == 2 && (h[0] == '0' || h[0] == '1') && IsDigit(h[1]))
    || (|h| == 2 && h[0] == '2' && '0' <= h[1] <= '3')
  }

  /** The `%M` directive: `[0-5]` followed by a digit, or one digit. */
  predicate MinuteField(m: string) {
    || (|m| == 1 && IsDigit(m[0]))
    || (|m| == 2 && '0' <= m[0] <= '5' && IsDigit(m[1]))
  }

  /** Decimal value of a one- or two-digit field. */
  function FieldValue(f: string): nat
    requires 1 <= |f| <= 2 && forall k :: 0 <= k < |f| ==> IsDigit(f[k])
  {
    if |f| == 1 then DigitValue(f[0]) else 10 * DigitValue(f[0]) + DigitValue(f[1])
  }

  /** `s` is an hour field, a colon at position `k`, and a minute field. */
  predicate FieldsAt(s: string, k: int) {
    0 <= k < |s| && s[k] == ':' && HourField(s[..k]) && MinuteField(s[k + 1..])
  }

  /** `strptime(s, "%H:%M")` succeeds: the whole text matches the format. */
  ghost predicate ValidTime(s: string) {
    exists k :: FieldsAt(s, k)
  }

  /** `strptime(s, "%H:%M")`, keeping only the time of day. */
  function ParseTime(s: string): (r: Option<TimeOfDay>)
    ensures r.Some? ==> r.value.Valid()
  {
    if FieldsAt(s, 1) then
      Some(TimeOfDay(FieldValue(s[..1]), FieldValue(s[2..])))
    else if FieldsAt(s, 2) then
      Some(TimeOfDay(FieldValue(s[..2]), FieldValue(s[3..])))
    else
      None
  }

  /** The parse succeeds exactly on the texts the format matches in full,
      and reads the hour and minute fields on either side of the colon. */
  lemma ParseTimeMatches(s: string)
    ensures ParseTime(s).Some? <==> ValidTime(s)
    ensures forall k :: FieldsAt(s, k) ==>
              ParseTime(s) == Some(TimeOfDay(FieldValue(s[..k]), FieldValue(s[k + 1..])))
  {
    assert forall k :: FieldsAt(s, k) ==> k == 1 || k == 2;
  }

  /** Two digits, zero-padded. */
  function Pad2(n: nat): (r: string)
    requires n < 100
    ensures |r| == 2 && IsDigit(r[0]) && IsDigit(r[1])
    ensures 10 * DigitValue(r[0]) + DigitValue(r[1]) == n
  {
    [DigitChar(n / 10), DigitChar(n % 10)]
  }

  /** `strftime("%H:%M")`. */
  function FormatTime(t: TimeOfDay): (r: string)
    requires t.Valid()
    ensures |r| == 5 && r[2] == ':'
  {
    Pad2(t.hour) + ":" + Pad2(t.minute)
  }

  /** Formatting a valid time and parsing it again gives the time back. */
  lemma ParseFormat(t: TimeOfDay)
    requires t.Valid()
    ensures ParseTime(FormatTime(t)) == Some(t)
  {
    var s := FormatTime(t);
    assert s[..2] == Pad2(t.hour) && s[3..] == Pad2(t.minute);
    assert FieldsAt(s, 2);
  }

  /** The time of day `m` minutes after midnight, for `m` within one day. */
  function FromMinutes(m: int): (t: TimeOfDay)
    requires 0 <= m < MinutesPerDay
    ensures t.Valid() && t.Minutes() == m
  {
    TimeOfDay(m / 60, m % 60)
  }

  /** The end of an appointment: the start parsed with `%H:%M`, moved forward
      by `duration` minutes (backward when negative), and written with
      `%H:%M`; the date part of the timestamp is dropped, so the clock wraps
      at midnight. `None` when the start does not parse. */
  function EndTime(start: string, duration: int): (r: Option<string>)
    ensures r.Some? <==> ParseTime(start).Some?
    ensures r.Some? ==> |r.value| == 5 && r.value[2] == ':'
  {
    match ParseTime(start)
    case None => None
    case Some(t) => Some(FormatTime(FromMinutes((t.Minutes() + duration) % MinutesPerDay)))
  }

  /** The end time reads back, with `%H:%M`, as the start moved forward by
      the duration on a 24-hour clock. */
  lemma EndTimeMinutes(start: string, duration: int)
    requires ParseTime(start).Some?
    ensures var end := ParseTime(EndTime(start, duration).value);
            && end.Some?
            && end.value.Minutes() == (ParseTime(start).value.Minutes() + duration) % MinutesPerDay
  {
    var e := FromMinutes((ParseTime(start).value.Minutes() + duration) % MinutesPerDay);
    ParseFormat(e);
  }

  lemma ModSum(x: int, a: int, b: int)
    ensures ((x + a) % MinutesPerDay + b) % MinutesPerDay == (x + a + b) % MinutesPerDay
  {
    var q := (x + a) / MinutesPerDay;
    assert (x + a) % MinutesPerDay + b == (x + a + b) - q * MinutesPerDay;
    ModShift(x + a + b, -q);
  }

  lemma {:induction false} ModShift(y: int, q: int)
    ensures (y + q * MinutesPerDay) % MinutesPerDay == y % MinutesPerDay
    decreases if q < 0 then -q else q
  {
    if q > 0 {
      ModShift(y, q - 1);
      assert y + q * MinutesPerDay == (y + (q - 1) * MinutesPerDay) + MinutesPerDay;
    } else if q < 0 {
      ModShift(y, q + 1);
      assert y + q * MinutesPerDay == (y + (q + 1) * MinutesPerDay) - MinutesPerDay;
    }
  }

  /** The end time is the formatted time of day reached from the start. */
  lemma EndTimeOf(start: string, duration: int)
    requires ParseTime(start).Some?
    ensures EndTime(start, duration)
            == Some(FormatTime(FromMinutes((ParseTime(start).value.Minutes() + duration) % MinutesPerDay)))
  {
  }

  /** Ending `a` minutes after the start and then `b` minutes after that end
      is the same as ending `a + b` minutes after the start. */
  lemma EndTimeAdditive(start: string, a: int, b: int)
    requires ParseTime(start).Some?
    ensures EndTime(EndTime(start, a).value, b) == EndTime(start, a + b)
  {
    var m := ParseTime(start).value.Minutes();
    var m1 := (m + a) % MinutesPerDay;
    var e1 := FromMinutes(m1);
    EndTimeOf(start, a);
    ParseFormat(e1);
    EndTimeOf(FormatTime(e1), b);
    EndTimeOf(start, a + b);
    ModSum(m, a, b);
    assert (m1 + b) % MinutesPerDay == (m + (a + b)) % MinutesPerDay;
    assert EndTime(start, a).value == FormatTime(e1);
  }
}
