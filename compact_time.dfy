/**
 * The `-t [[CC]YY]MMDDhhmm[.ss]` time specification of touchp: the text is cut
 * at a single '.', the length of the part before it selects how the year is
 * obtained, and the fields are handed to the datetime constructor.
 */
module CompactTime {
  import opened Wrappers
  import opened Decimal
  import opened Calendar

  /**
   * The current time, sampled once: its local calendar year and second, and
   * its timestamp in seconds since the epoch.
   */
  datatype Clock = Clock(year: nat, second: nat, stamp: int)

  /** Python's str.split('.'): the pieces between the dots, in order. */
  function Split(s: string): (parts: seq<string>)
    ensures |parts| >= 1
    ensures forall i | 0 <= i < |parts| :: '.' !in parts[i]
  {
    if s == [] then [[]]
    else
      var rest := Split(s[1..]);
      if s[0] == '.' then [[]] + rest
      else [[s[0]] + rest[0]] + rest[1..]
  }

  /** '.'.join(parts) */
  function Join(parts: seq<string>): string
    requires |parts| >= 1
  {
    if |parts| == 1 then parts[0] else parts[0] + ['.'] + Join(parts[1..])
  }

  /** Splitting and joining again gives back the text. */
  lemma {:induction false} JoinSplit(s: string)
    ensures Join(Split(s)) == s
  {
    if s != [] {
      JoinSplit(s[1..]);
      var rest := Split(s[1..]);
      if s[0] == '.' {
        assert Split(s)[1..] == rest;
      } else {
        var parts := Split(s);
        assert parts[1..] == rest[1..];
        if |rest| > 1 {
          assert rest == [rest[0]] + rest[1..];
        }
      }
    }
  }

  /** split('.') yields one piece more than there are dots. */
  lemma {:induction false} SplitCount(s: string)
    ensures |Split(s)| == multiset(s)['.'] + 1
  {
    if s != [] {
      SplitCount(s[1..]);
      assert s == [s[0]] + s[1..];
      assert multiset(s) == multiset([s[0]]) + multiset(s[1..]);
    }
  }

  /** Text without a dot is one piece. */
  lemma {:induction false} SplitNoDot(s: string)
    requires '.' !in s
    ensures Split(s) == [s]
  {
    if s != [] {
      assert s[0] != '.' && '.' !in s[1..];
      SplitNoDot(s[1..]);
      assert [s[0]] + s[1..] == s;
    }
  }

  /** Text with exactly one dot splits around it. */
  lemma {:induction false} SplitAtDot(a: string, b: string)
    requires '.' !in a && '.' !in b
    ensures Split(a + ['.'] + b) == [a, b]
  {
    if a == [] {
      assert a + ['.'] + b == ['.'] + b;
      assert (['.'] + b)[1..] == b;
      SplitNoDot(b);
    } else {
      SplitAtDot(a[1..], b);
      assert (a + ['.'] + b)[1..] == a[1..] + ['.'] + b;
      assert [a[0]] + a[1..] == a;
    }
  }

  /** Python's str(now.year)[:2]. */
  function CenturyPrefix(year: nat): string {
    var s := Show(year);
    if |s| < 2 then s else s[..2]
  }

  /** int() of the four two-character fields, then the datetime constructor. */
  function Assemble(year: Option<nat>, mm: string, dd: string, hh: string, mi: string, second: Option<nat>): Option<DateTime> {
    var month, day, hour, minute := ParseInt(mm), ParseInt(dd), ParseInt(hh), ParseInt(mi);
    if year.Some? && month.Some? && day.Some? && hour.Some? && minute.Some? && second.Some? then
      NewDateTime(year.value, month.value, day.value, hour.value, minute.value, second.value)
    else None
  }

  /** The part before the dot: its length decides where the year comes from. */
  function Fields(body: string, second: Option<nat>, now: Clock): Option<DateTime> {
    if |body| == 8 then
      Assemble(Some(now.year), body[0..2], body[2..4], body[4..6], body[6..8], second)
    else if |body| == 10 then
      Assemble(ParseInt(CenturyPrefix(now.year) + body[0..2]), body[2..4], body[4..6], body[6..8], body[8..10], second)
    else if |body| == 12 then
      Assemble(ParseInt(body[0..4]), body[4..6], body[6..8], body[8..10], body[10..12], second)
    else None
  }

  /** Every character before the dot must be a digit for the fields to be read. */
  lemma FieldsNeedDigits(body: string, second: Option<nat>, now: Clock)
    ensures Fields(body, second, now).Some? ==> AllDigits(body)
  {
    if Fields(body, second, now).Some? {
      var n := |body|;
      if n == 10 {
        var c := CenturyPrefix(now.year);
        assert AllDigits(c + body[0..2]);
        assert body[0..2] == (c + body[0..2])[|c|..];
      }
      var k := n - 8;
      assert body[..k] + body[k..k + 2] + body[k + 2..k + 4] + body[k + 4..k + 6] + body[k + 6..k + 8] == body;
    }
  }

  /**
   * Parse a `-t` argument. None stands for the "invalid date format" exit:
   * a wrong length, a non-digit field, more than one dot, or a field the
   * datetime constructor rejects.
   */
  function ParseCompact(spec: string, now: Clock): (r: Option<DateTime>)
    ensures r.Some? ==> Valid(r.value)
    ensures r.Some? ==> multiset(spec)['.'] <= 1
    ensures r.Some? ==> |Split(spec)[0]| in {8, 10, 12}
    ensures r.Some? ==> AllDigits(Split(spec)[0])
  {
    SplitCount(spec);
    if '.' in spec then
      var parts := Split(spec);
      if |parts| != 2 then None
      else
        FieldsNeedDigits(parts[0], ParseInt(parts[1]), now);
        Fields(parts[0], ParseInt(parts[1]), now)
    else
      SplitNoDot(spec);
      FieldsNeedDigits(spec, Some(now.second), now);
      Fields(spec, Some(now.second), now)
  }

  lemma DigitsHaveNoDot(t: string)
    requires AllDigits(t)
    ensures '.' !in t
  {
  }

  /** MMDDhhmm: the year is the current year, the seconds the current second. */
  lemma CurrentYearForm(t: string, now: Clock)
    requires |t| == 8 && AllDigits(t)
    ensures ParseCompact(t, now)
         == NewDateTime(now.year, Value(t[0..2]), Value(t[2..4]), Value(t[4..6]), Value(t[6..8]), now.second)
  {
    DigitsHaveNoDot(t);
  }

  /** YYMMDDhhmm: the year is the current century followed by YY. */
  lemma CenturyForm(t: string, now: Clock, year: int)
    requires |t| == 10 && AllDigits(t)
    requires 1000 <= now.year <= 9999
    requires year == now.year / 100 * 100 + Value(t[0..2])
    ensures ParseCompact(t, now) == NewDateTime(year, Value(t[2..4]), Value(t[4..6]), Value(t[6..8]), Value(t[8..10]), now.second)
  {
    DigitsHaveNoDot(t);
    CenturyValue(now.year, t[0..2]);
  }

  /** CCYYMMDDhhmm: the first four digits are the year itself. */
  lemma FullYearForm(t: string, now: Clock)
    requires |t| == 12 && AllDigits(t)
    ensures ParseCompact(t, now)
         == NewDateTime(Value(t[0..4]), Value(t[4..6]), Value(t[6..8]), Value(t[8..10]), Value(t[10..12]), now.second)
  {
    DigitsHaveNoDot(t);
  }

  /**
   * A `.ss` suffix acts as if the clock read that second; a suffix int()
   * rejects makes the whole specification invalid.
   */
  lemma ExplicitSeconds(body: string, ss: string, now: Clock)
    requires '.' !in body && '.' !in ss
    ensures ParseCompact(body + ['.'] + ss, now)
         == match ParseInt(ss)
            case None => None
            case Some(s) => ParseCompact(body, now.(second := s))
  {
    SplitAtDot(body, ss);
    assert '.' in body + ['.'] + ss by {
      assert (body + ['.'] + ss)[|body|] == '.';
    }
  }

  /** The three lengths the part before the dot may have. */
  datatype Form = MonthDay | ShortYear | LongYear

  /** The digits before the dot for a calendar time written in the given form. */
  function Body(dt: DateTime, form: Form): string
    requires Valid(dt)
  {
    var year := match form
      case LongYear => Pad(dt.year, 4)
      case ShortYear => Pad(dt.year % 100, 2)
      case MonthDay => [];
    year + (Pad(dt.month, 2) + Pad(dt.day, 2) + Pad(dt.hour, 2) + Pad(dt.minute, 2))
  }

  /** Write a calendar time in `-t` syntax: the inverse the parser is checked against. */
  function Format(dt: DateTime, form: Form, withSeconds: bool): string
    requires Valid(dt)
  {
    if withSeconds then Body(dt, form) + ['.'] + Pad(dt.second, 2) else Body(dt, form)
  }

  /** Two-digit fields written by Pad read back as the field. */
  lemma TwoDigits(n: nat)
    requires n < 100
    ensures Value(Pad(n, 2)) == n
  {
  }

  /** Where the four two-digit fields sit after a year prefix. */
  lemma FieldSlices(year: string, dt: DateTime)
    requires AllDigits(year) && Valid(dt)
    ensures var body := year + (Pad(dt.month, 2) + Pad(dt.day, 2) + Pad(dt.hour, 2) + Pad(dt.minute, 2));
      var k := |year|;
      && AllDigits(body) && |body| == k + 8
      && body[..k] == year
      && Value(body[k..k + 2]) == dt.month
      && Value(body[k + 2..k + 4]) == dt.day
      && Value(body[k + 4..k + 6]) == dt.hour
      && Value(body[k + 6..k + 8]) == dt.minute
  {
    var fields := Pad(dt.month, 2) + Pad(dt.day, 2) + Pad(dt.hour, 2) + Pad(dt.minute, 2);
    var body := year + fields;
    var k := |year|;
    assert body[k..k + 2] == fields[0..2] == Pad(dt.month, 2);
    assert body[k + 2..k + 4] == fields[2..4] == Pad(dt.day, 2);
    assert body[k + 4..k + 6] == fields[4..6] == Pad(dt.hour, 2);
    assert body[k + 6..k + 8] == fields[6..8] == Pad(dt.minute, 2);
    TwoDigits(dt.month);
    TwoDigits(dt.day);
    TwoDigits(dt.hour);
    TwoDigits(dt.minute);
  }

  lemma LongBodyRoundTrip(dt: DateTime, now: Clock)
    requires Valid(dt) && now.second == dt.second
    ensures ParseCompact(Body(dt, LongYear), now) == Some(dt)
  {
    var body := Body(dt, LongYear);
    FieldSlices(Pad(dt.year, 4), dt);
    assert Pow10(4) == 10000;
    ValueOfPad(dt.year, 4);
    assert Value(body[0..4]) == dt.year;
    FullYearForm(body, now);
  }

  lemma SameCentury(a: int, b: int)
    requires a / 100 == b / 100
    ensures a / 100 * 100 + b % 100 == b
  {
  }

  lemma ShortBodyFields(dt: DateTime, now: Clock)
    requires Valid(dt)
    requires 1000 <= now.year <= 9999 && now.year / 100 == dt.year / 100
    ensures var body := Body(dt, ShortYear);
      && |body| == 10 && AllDigits(body)
      && now.year / 100 * 100 + Value(body[0..2]) == dt.year
      && Value(body[2..4]) == dt.month && Value(body[4..6]) == dt.day
      && Value(body[6..8]) == dt.hour && Value(body[8..10]) == dt.minute
  {
    var body := Body(dt, ShortYear);
    var yy := Pad(dt.year % 100, 2);
    FieldSlices(yy, dt);
    assert body[..2] == yy;
    TwoDigits(dt.year % 100);
    SameCentury(now.year, dt.year);
  }

  lemma ShortBodyRoundTrip(dt: DateTime, now: Clock)
    requires Valid(dt) && now.second == dt.second
    requires 1000 <= now.year <= 9999 && now.year / 100 == dt.year / 100
    ensures ParseCompact(Body(dt, ShortYear), now) == Some(dt)
  {
    ShortBodyFields(dt, now);
    CenturyForm(Body(dt, ShortYear), now, dt.year);
  }

  lemma MonthDayBodyRoundTrip(dt: DateTime, now: Clock)
    requires Valid(dt) && now.second == dt.second && now.year == dt.year
    ensures ParseCompact(Body(dt, MonthDay), now) == Some(dt)
  {
    var body := Body(dt, MonthDay);
    FieldSlices([], dt);
    assert [] + body == body;
    CurrentYearForm(body, now);
  }

  /** Appending `.ss` for the time's own second sets the parsed second. */
  lemma SecondsSuffix(dt: DateTime, form: Form, now: Clock)
    requires Valid(dt)
    ensures ParseCompact(Format(dt, form, true), now) == ParseCompact(Body(dt, form), now.(second := dt.second))
  {
    var body := Body(dt, form);
    var ss := Pad(dt.second, 2);
    DigitsHaveNoDot(body);
    DigitsHaveNoDot(ss);
    ExplicitSeconds(body, ss, now);
    TwoDigits(dt.second);
    assert ParseInt(ss) == Some(dt.second);
  }

  /**
   * Every valid calendar time written in any of the three forms parses back
   * to itself, provided the clock supplies what the form leaves out: the
   * century for YYMMDDhhmm, the year for MMDDhhmm, the second without `.ss`.
   */
  lemma RoundTrip(dt: DateTime, form: Form, withSeconds: bool, now: Clock)
    requires Valid(dt)
    requires form == ShortYear ==> 1000 <= now.year <= 9999 && now.year / 100 == dt.year / 100
    requires form == MonthDay ==> now.year == dt.year
    requires !withSeconds ==> now.second == dt.second
    ensures ParseCompact(Format(dt, form, withSeconds), now) == Some(dt)
  {
    var clock := now.(second := dt.second);
    match form {
      case LongYear => LongBodyRoundTrip(dt, clock);
      case ShortYear => ShortBodyRoundTrip(dt, clock);
      case MonthDay => MonthDayBodyRoundTrip(dt, clock);
    }
    if withSeconds {
      SecondsSuffix(dt, form, now);
    } else {
      assert clock == now;
    }
  }
}
