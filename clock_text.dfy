/**
 * The `"%H:%M"` text of a time of day, read with `datetime.strptime` and
 * written with `datetime.strftime`.
 *
 * `strptime` turns the format into a regular expression: `%H` becomes
 * `2[0-3]|[0-1]\d|\d` and `%M` becomes `[0-5]\d|\d`; the alternatives are
 * tried in that order, and after the match the whole string must have been
 * used up ("unconverted data remains" otherwise). So an hour or a minute may
 * be written with one digit ("9:5"), and "24:00", "12:60" or "12:345" fail.
 * `strftime` always writes two digits for each.
 */
module ClockText {
  import opened Options

  predicate IsDigit(c: char) { '0' <= c <= '9' }

  function DigitValue(c: char): (n: int)
    requires IsDigit(c)
    ensures 0 <= n < 10
  {
    c as int - '0' as int
  }

  function DigitChar(n: int): (c: char)
    requires 0 <= n < 10
    ensures IsDigit(c) && DigitValue(c) == n
  {
    ('0' as int + n) as char
  }

  /** The two-character alternatives of `%H`: `2[0-3]` and `[0-1]\d`. */
  predicate TwoDigitHour(a: char, b: char)
  {
    (a == '2' && '0' <= b <= '3') || ((a == '0' || a == '1') && IsDigit(b))
  }

  /** The two-character alternative of `%M`: `[0-5]\d`. */
  predicate TwoDigitMinute(a: char, b: char)
  {
    '0' <= a <= '5' && IsDigit(b)
  }

  /**
   * How many characters `%H` takes at the start of `s` when the `:` that
   * follows it must match too; 0 when no alternative leads to a `:`.
   */
  function HourWidth(s: string): (w: nat)
    ensures w <= 2 && (w > 0 ==> |s| > w && s[w] == ':')
    ensures forall i :: 0 <= i < w ==> IsDigit(s[i])
  {
    if |s| >= 3 && TwoDigitHour(s[0], s[1]) && s[2] == ':' then 2
    else if |s| >= 2 && IsDigit(s[0]) && s[1] == ':' then 1
    else 0
  }

  /** How many characters `%M` takes at the start of `s`; 0 when it does not match. */
  function MinuteWidth(s: string): (w: nat)
    ensures w <= 2 && w <= |s|
    ensures forall i :: 0 <= i < w ==> IsDigit(s[i])
  {
    if |s| >= 2 && TwoDigitMinute(s[0], s[1]) then 2
    else if |s| >= 1 && IsDigit(s[0]) then 1
    else 0
  }

  /** `int(...)` of a field of one or two digits. */
  function Number(s: string): int
    requires 1 <= |s| <= 2
    requires forall i :: 0 <= i < |s| ==> IsDigit(s[i])
  {
    if |s| == 1 then DigitValue(s[0]) else 10 * DigitValue(s[0]) + DigitValue(s[1])
  }

  /**
   * `datetime.strptime(s, "%H:%M")`: the hour and minute, or `None` where
   * Python raises `ValueError`.
   */
  function ParseClock(s: string): (r: Option<(int, int)>)
    ensures r.Some? ==> 0 <= r.value.0 < 24 && 0 <= r.value.1 < 60
  {
    var hw := HourWidth(s);
    if hw == 0 then None
    else
      var rest := s[hw + 1..];
      var mw := MinuteWidth(rest);
      if mw == 0 || mw != |rest| then None
      else Some((Number(s[..hw]), Number(rest)))
  }

  /** `%02d`: a number below 100 with two digits. */
  function Pad2(n: int): (t: string)
    requires 0 <= n < 100
    ensures |t| == 2 && IsDigit(t[0]) && IsDigit(t[1])
    ensures 10 * DigitValue(t[0]) + DigitValue(t[1]) == n
  {
    [DigitChar(n / 10), DigitChar(n % 10)]
  }

  /** `strftime("%H:%M")` of a time of day. */
  function FormatClock(hour: int, minute: int): (s: string)
    requires 0 <= hour < 24 && 0 <= minute < 60
    ensures |s| == 5 && s[2] == ':'
  {
    Pad2(hour) + ":" + Pad2(minute)
  }

  /** `t` is one way `strptime` accepts of writing `n`: two digits, or one digit below ten. */
  predicate Spells(t: string, n: int)
    requires 0 <= n < 100
  {
    t == Pad2(n) || (n < 10 && t == [DigitChar(n)])
  }

  /**
   * The reference reading of the format: `s` is an hour below 24 and a
   * minute below 60, each spelled in one of the accepted ways, joined by `:`.
   */
  predicate SpellsClock(s: string, hour: int, minute: int)
  {
    && 0 <= hour < 24 && 0 <= minute < 60
    && exists i :: 0 <= i < |s| && s[i] == ':' && Spells(s[..i], hour) && Spells(s[i + 1..], minute)
  }

  lemma SpelledNumber(t: string, n: int)
    requires 0 <= n < 100 && Spells(t, n)
    ensures 1 <= |t| <= 2 && (forall i :: 0 <= i < |t| ==> IsDigit(t[i])) && Number(t) == n
  {
  }

  /** A field of one or two digits is an accepted spelling of its value. */
  lemma NumberIsSpelled(t: string)
    requires 1 <= |t| <= 2
    requires forall i :: 0 <= i < |t| ==> IsDigit(t[i])
    ensures 0 <= Number(t) < 100 && Spells(t, Number(t))
  {
    if |t| == 1 {
      assert t == [DigitChar(Number(t))];
    } else {
      assert t == Pad2(Number(t));
    }
  }

  /** What the parse accepts is an accepted spelling of what it returns. */
  lemma ParsedIsSpelled(s: string, hour: int, minute: int)
    requires ParseClock(s) == Some((hour, minute))
    ensures SpellsClock(s, hour, minute)
  {
    var hw := HourWidth(s);
    NumberIsSpelled(s[..hw]);
    NumberIsSpelled(s[hw + 1..]);
    assert s[hw] == ':';
  }

  /** Every accepted spelling parses, to the hour and minute it spells. */
  lemma SpelledIsParsed(s: string, hour: int, minute: int)
    requires SpellsClock(s, hour, minute)
    ensures ParseClock(s) == Some((hour, minute))
  {
    var i :| 0 <= i < |s| && s[i] == ':' && Spells(s[..i], hour) && Spells(s[i + 1..], minute);
    SpelledNumber(s[..i], hour);
    SpelledNumber(s[i + 1..], minute);
    assert s[..i][0] == s[0];
    if i == 2 {
      assert s[..i][1] == s[1];
      assert TwoDigitHour(s[0], s[1]);
    }
    assert HourWidth(s) == i;
    var rest := s[i + 1..];
    if |rest| == 2 {
      assert TwoDigitMinute(rest[0], rest[1]);
    }
    assert MinuteWidth(rest) == |rest|;
  }

  /** The parse succeeds exactly on the accepted spellings, with their hour and minute. */
  lemma ParseClockExact(s: string, hour: int, minute: int)
    ensures ParseClock(s) == Some((hour, minute)) <==> SpellsClock(s, hour, minute)
  {
    if ParseClock(s) == Some((hour, minute)) {
      ParsedIsSpelled(s, hour, minute);
    }
    if SpellsClock(s, hour, minute) {
      SpelledIsParsed(s, hour, minute);
    }
  }

  /** Reading back what `strftime("%H:%M")` wrote gives the same hour and minute. */
  lemma FormatThenParse(hour: int, minute: int)
    requires 0 <= hour < 24 && 0 <= minute < 60
    ensures ParseClock(FormatClock(hour, minute)) == Some((hour, minute))
  {
    var s := FormatClock(hour, minute);
    assert s[..2] == Pad2(hour) && s[3..] == Pad2(minute);
    assert SpellsClock(s, hour, minute);
    ParseClockExact(s, hour, minute);
  }

  /** A five-character text that parses is exactly the `strftime` text of what it parses to. */
  lemma ParseThenFormat(s: string)
    requires |s| == 5 && ParseClock(s).Some?
    ensures FormatClock(ParseClock(s).value.0, ParseClock(s).value.1) == s
  {
    var (hour, minute) := ParseClock(s).value;
    ParseClockExact(s, hour, minute);
    var i :| 0 <= i < |s| && s[i] == ':' && Spells(s[..i], hour) && Spells(s[i + 1..], minute);
    assert s == s[..i] + ":" + s[i + 1..];
  }
}
