/** Times of day for the recency filter: `datetime.strptime(t, "%H:%M")`
    and the elapsed time from a clock reading back to now, with the
    one-day rollback. Instants are microseconds since midnight, the
    resolution of Python's datetime. */
module ClockTime {

  datatype Option<T> = None | Some(value: T)

  const MINUTE: nat := 60_000_000
  const HOUR: nat := 60 * MINUTE
  const DAY: nat := 24 * HOUR

  predicate IsDigit(c: char)
  {
    '0' <= c <= '9'
  }

  function DigitValue(c: char): (d: nat)
    requires IsDigit(c)
    ensures d < 10
  {
    c as int - '0' as int
  }

  function DigitChar(d: nat): (c: char)
    requires d < 10
    ensures IsDigit(c) && DigitValue(c) == d
  {
    ('0' as int + d) as char
  }

  /** One `%H` or `%M` field as strptime reads it: a single digit, or two
      digits whose value is below `bound` (the patterns `2[0-3]|[0-1]\d|\d`
      for hours and `[0-5]\d|\d` for minutes). */
  function Field(f: string, bound: nat): (r: Option<nat>)
    requires 10 <= bound <= 100
    ensures r.Some? ==> r.value < bound
  {
    if |f| == 1 && IsDigit(f[0]) then Some(DigitValue(f[0]))
    else if |f| == 2 && IsDigit(f[0]) && IsDigit(f[1]) && 10 * DigitValue(f[0]) + DigitValue(f[1]) < bound then
      Some(10 * DigitValue(f[0]) + DigitValue(f[1]))
    else None
  }

  /** `strptime(t, "%H:%M")`, as the instant of that time of day: None when
      the text is not an hour field, a colon and a minute field, with nothing
      left over. */
  function ParseClock(s: string): (r: Option<nat>)
    ensures r.Some? ==> r.value < DAY && r.value % MINUTE == 0
  {
    var c := if |s| >= 2 && s[1] == ':' then 1 else 2;
    if |s| <= c || s[c] != ':' then None
    else
      match (Field(s[..c], 24), Field(s[c + 1..], 60))
      case (Some(h), Some(m)) => Some(h * HOUR + m * MINUTE)
      case _ => None
  }

  /** The text of a field: two digits, or one digit when `wide` is false. */
  function FieldText(v: nat, wide: bool): (f: string)
    requires v < 100 && (wide || v < 10)
    ensures |f| == (if wide then 2 else 1)
  {
    if wide then [DigitChar(v / 10), DigitChar(v % 10)] else [DigitChar(v)]
  }

  /** The clock texts strptime accepts for h:m: hours and minutes each with or
      without a leading zero ("09:05", "9:05", "09:5", "9:5"). */
  function Spelling(h: nat, m: nat, wideH: bool, wideM: bool): (s: string)
    requires h < 24 && m < 60 && (wideH || h < 10) && (wideM || m < 10)
  {
    FieldText(h, wideH) + ":" + FieldText(m, wideM)
  }

  lemma FieldOfText(v: nat, wide: bool, bound: nat)
    requires 10 <= bound <= 100 && v < bound && (wide || v < 10)
    ensures Field(FieldText(v, wide), bound) == Some(v)
  {
  }

  /** Every spelling of a valid time of day parses to that time. */
  lemma {:induction false} ParseAcceptsSpellings(h: nat, m: nat, wideH: bool, wideM: bool)
    requires h < 24 && m < 60 && (wideH || h < 10) && (wideM || m < 10)
    ensures ParseClock(Spelling(h, m, wideH, wideM)) == Some(h * HOUR + m * MINUTE)
  {
    var s := Spelling(h, m, wideH, wideM);
    var c := if wideH then 2 else 1;
    assert s[..c] == FieldText(h, wideH);
    assert s[c] == ':';
    assert s[c + 1..] == FieldText(m, wideM);
    FieldOfText(h, wideH, 24);
    FieldOfText(m, wideM, 60);
  }

  /** A field that parses is the text of its value. */
  lemma FieldIsText(f: string, bound: nat)
    requires 10 <= bound <= 100 && Field(f, bound).Some?
    ensures var v := Field(f, bound).value;
      v < bound && (|f| == 2 || v < 10) && f == FieldText(v, |f| == 2)
  {
  }

  /** Only spellings parse: whatever strptime accepts is the spelling of the
      time it returns. */
  lemma {:induction false} ParseOnlySpellings(s: string)
    requires ParseClock(s).Some?
    ensures exists h: nat, m: nat, wideH: bool, wideM: bool ::
      && h < 24 && m < 60 && (wideH || h < 10) && (wideM || m < 10)
      && s == Spelling(h, m, wideH, wideM)
      && ParseClock(s).value == h * HOUR + m * MINUTE
  {
    var c := if |s| >= 2 && s[1] == ':' then 1 else 2;
    var hf, mf := s[..c], s[c + 1..];
    FieldIsText(hf, 24);
    FieldIsText(mf, 60);
    var h, m := Field(hf, 24).value, Field(mf, 60).value;
    assert s == hf + ":" + mf;
    assert s == Spelling(h, m, |hf| == 2, |mf| == 2);
  }

  /** Texts that are not times of day: the empty cell, a placeholder, an
      hour or a minute out of range, and a time with seconds. */
  lemma RejectedTexts()
    ensures ParseClock("") == None
    ensures ParseClock("N/A") == None
    ensures ParseClock("24:00") == None
    ensures ParseClock("12:60") == None
    ensures ParseClock("12:30:00") == None
  {
    assert "24:00"[..2] == "24";
    assert "12:60"[3..] == "60";
    assert "12:30:00"[3..] == "30:00";
  }

  /** How long ago the clock reading `t` was, seen at `now`, both times of
      today: a reading later than now is taken to be from yesterday. The
      result is the distance from `t` forward to `now` around the clock,
      never negative and under one day. */
  function Elapsed(now: nat, t: nat): (e: nat)
    requires now < DAY && t < DAY
    ensures e < DAY
    ensures e == (now - t) % DAY
    ensures t <= now ==> e == now - t
  {
    if t > now then now - (t - DAY) else now - t
  }
}
