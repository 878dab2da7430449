/**
 * Times of day as `datetime.strptime(text, "%H:%M")` reads them, counted
 * in minutes since midnight of the default date that strptime fills in.
 */
module TimeOfDay {
  import opened Wrappers
  import opened Text

  const MinutesPerHour := 60
  const MinutesPerDay := 24 * MinutesPerHour

  predicate IsDigit(c: char) {
    '0' <= c <= '9'
  }

  function DigitValue(c: char): nat
    requires IsDigit(c)
  {
    c as int - '0' as int
  }

  function DigitChar(n: nat): char
    requires n < 10
  {
    ('0' as int + n) as char
  }

  /**
   * One `%H` or `%M` field: one digit, or two digits, whose value is at
   * most `max` (23 for hours, 59 for minutes). Anything else does not
   * match the directive.
   */
  function ParseField(d: string, max: nat): (r: Option<nat>)
    ensures r.Some? ==> r.value <= max
  {
    if |d| == 1 && IsDigit(d[0]) then
      var v := DigitValue(d[0]);
      if v <= max then Some(v) else None
    else if |d| == 2 && IsDigit(d[0]) && IsDigit(d[1]) then
      var v := 10 * DigitValue(d[0]) + DigitValue(d[1]);
      if v <= max then Some(v) else None
    else
      None
  }

  /**
   * `datetime.strptime(s, "%H:%M")` as minutes since midnight, or `None`
   * where strptime raises ValueError. The whole string must match: an hour
   * field, one colon, a minute field, nothing before or after.
   */
  function ParseHM(s: string): (r: Option<int>)
    ensures r.Some? ==> 0 <= r.value < MinutesPerDay
    ensures r.Some? ==> ':' in s
  {
    if ':' !in s then None
    else
      var k := IndexOf(s, ':');
      match (ParseField(s[..k], 23), ParseField(s[k + 1..], 59))
      case (Some(h), Some(m)) => Some(h * MinutesPerHour + m)
      case _ => None
  }

  /** A field of `width` digits can hold `v`. */
  predicate Fits(v: nat, width: nat) {
    (width == 1 && v < 10) || (width == 2 && v < 100)
  }

  /** `v` written with exactly `width` digits (zero-padded when `width` is 2). */
  function Field(v: nat, width: nat): (d: string)
    requires Fits(v, width)
  {
    if width == 1 then [DigitChar(v)] else [DigitChar(v / 10), DigitChar(v % 10)]
  }

  /** A spelling of the time `t` that `%H:%M` accepts, with the given field widths. */
  function FormatHM(t: int, hourWidth: nat, minuteWidth: nat): (s: string)
    requires 0 <= t < MinutesPerDay
    requires Fits(t / MinutesPerHour, hourWidth) && Fits(t % MinutesPerHour, minuteWidth)
    ensures |s| >= 3 && IsDigit(s[0]) && IsDigit(s[|s| - 1])
    ensures forall i :: 0 <= i < |s| ==> IsDigit(s[i]) || s[i] == ':'
  {
    Field(t / MinutesPerHour, hourWidth) + ":" + Field(t % MinutesPerHour, minuteWidth)
  }

  lemma ParseFieldOfField(v: nat, width: nat, max: nat)
    requires Fits(v, width) && v <= max
    ensures ParseField(Field(v, width), max) == Some(v)
  {
  }

  lemma FieldOfParseField(d: string, max: nat, v: nat)
    requires ParseField(d, max) == Some(v)
    ensures Fits(v, |d|) && Field(v, |d|) == d
  {
  }

  /** In `h:m` with a colon-free `h`, the first colon is the one after `h`. */
  lemma FieldsAroundColon(h: string, m: string)
    requires ':' !in h
    ensures IndexOf(h + ":" + m, ':') == |h|
    ensures (h + ":" + m)[..|h|] == h && (h + ":" + m)[|h| + 1..] == m
  {
    var s := h + ":" + m;
    assert s[|h|] == ':';
  }

  /** Round trip: every time of day, in every spelling, reads back as itself. */
  lemma ParseFormatted(t: int, hourWidth: nat, minuteWidth: nat)
    requires 0 <= t < MinutesPerDay
    requires Fits(t / MinutesPerHour, hourWidth) && Fits(t % MinutesPerHour, minuteWidth)
    ensures ParseHM(FormatHM(t, hourWidth, minuteWidth)) == Some(t)
  {
    var hour, minute := t / MinutesPerHour, t % MinutesPerHour;
    assert hour <= 23 && hour * MinutesPerHour + minute == t;
    var h, m := Field(hour, hourWidth), Field(minute, minuteWidth);
    FieldsAroundColon(h, m);
    ParseFieldOfField(hour, hourWidth, 23);
    ParseFieldOfField(minute, minuteWidth, 59);
  }

  /** Conversely, whatever `%H:%M` accepts is a spelling of the time it reads. */
  lemma ParsedIsFormatted(s: string, t: int)
    requires ParseHM(s) == Some(t)
    ensures exists hourWidth: nat, minuteWidth: nat ::
      Fits(t / MinutesPerHour, hourWidth) && Fits(t % MinutesPerHour, minuteWidth) &&
      s == FormatHM(t, hourWidth, minuteWidth)
  {
    var k := IndexOf(s, ':');
    var h := ParseField(s[..k], 23).value;
    var m := ParseField(s[k + 1..], 59).value;
    assert t / MinutesPerHour == h && t % MinutesPerHour == m;
    FieldOfParseField(s[..k], 23, h);
    FieldOfParseField(s[k + 1..], 59, m);
    assert s == s[..k] + ":" + s[k + 1..];
    assert s == FormatHM(t, k, |s| - k - 1);
  }
}
