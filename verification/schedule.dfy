/** `Schedule`: the next run of a scheduled task, from its frequency and its
    "HH:MM" time of day. Date-times are naive local times, so every day has
    the same length. */
module Schedule {
  import opened Wrappers
  import opened Text

  /** Microseconds in a minute. */
  const Minute: nat := 60_000_000

  /** A naive date-time: a day number, the hour and minute, and the
      microseconds within the minute (seconds and microseconds together). */
  datatype DateTime = DateTime(day: nat, hour: nat, minute: nat, micro: nat)

  ghost predicate Valid(t: DateTime) {
    t.hour < 24 && t.minute < 60 && t.micro < Minute
  }

  /** Chronological order: by day, then hour, minute and microsecond. */
  predicate Before(a: DateTime, b: DateTime) {
    || a.day < b.day
    || (a.day == b.day && a.hour < b.hour)
    || (a.day == b.day && a.hour == b.hour && a.minute < b.minute)
    || (a.day == b.day && a.hour == b.hour && a.minute == b.minute && a.micro < b.micro)
  }

  predicate NotAfter(a: DateTime, b: DateTime) {
    Before(a, b) || a == b
  }

  /** `t + timedelta(days=n)`. */
  function AddDays(t: DateTime, n: nat): (r: DateTime)
    ensures r.day == t.day + n
    ensures n > 0 ==> Before(t, r)
    ensures r.hour == t.hour && r.minute == t.minute && r.micro == t.micro
  {
    t.(day := t.day + n)
  }

  /** The days a frequency adds: "quotidien" (daily), "hebdomadaire"
      (weekly), "mensuel" (every 30 days); none for any other text. */
  function PeriodDays(frequency: string): (d: nat)
    ensures d == 0 <==> frequency != "quotidien" && frequency != "hebdomadaire" && frequency != "mensuel"
  {
    if frequency == "quotidien" then 1
    else if frequency == "hebdomadaire" then 7
    else if frequency == "mensuel" then 30
    else 0
  }

  /** The whitespace `int()` skips around a number: Python's whitespace
      except the four ASCII separators U+001C to U+001F, which `str.strip`
      removes but `int()` rejects. */
  predicate IsIntSpace(c: char) {
    IsSpace(c) && !('\U{1C}' <= c <= '\U{1F}')
  }

  function IntTrimLeft(s: string): (r: string)
    ensures |r| <= |s| && r == s[|s| - |r|..]
    ensures forall i :: 0 <= i < |s| - |r| ==> IsIntSpace(s[i])
    ensures |r| > 0 ==> !IsIntSpace(r[0])
  {
    if |s| > 0 && IsIntSpace(s[0]) then IntTrimLeft(s[1..]) else s
  }

  function IntTrimRight(s: string): (r: string)
    ensures |r| <= |s| && r == s[..|r|]
    ensures forall i :: |r| <= i < |s| ==> IsIntSpace(s[i])
    ensures |r| > 0 ==> !IsIntSpace(r[|r| - 1])
  {
    if |s| > 0 && IsIntSpace(s[|s| - 1]) then IntTrimRight(s[..|s| - 1]) else s
  }

  /** The text `int()` reads: without the whitespace it skips at either end. */
  function IntStrip(s: string): string {
    IntTrimRight(IntTrimLeft(s))
  }

  /** Python's `int(text)` on decimal text: surrounding whitespace (as
      `int()` skips it) and one leading sign are accepted. */
  function PyInt(text: string): (r: Option<int>)
    ensures r.Some? <==> Signed(IntStrip(text))
    ensures IsDigits(IntStrip(text)) ==> r == Some(DecimalValue(IntStrip(text)))
    ensures var t := IntStrip(text);
      |t| > 0 && t[0] == '-' && IsDigits(t[1..]) ==> r == Some(0 - DecimalValue(t[1..]))
    ensures var t := IntStrip(text);
      |t| > 0 && t[0] == '+' && IsDigits(t[1..]) ==> r == Some(DecimalValue(t[1..]))
    ensures IsDigits(text) ==> r == Some(DecimalValue(text))
  {
    var t := IntStrip(text);
    IntStripDigits(text);
    if |t| > 0 && (t[0] == '-' || t[0] == '+') && IsDigits(t[1..]) then
      Some(if t[0] == '-' then 0 - DecimalValue(t[1..]) else DecimalValue(t[1..]))
    else if IsDigits(t) then Some(DecimalValue(t))
    else None
  }

  /** Decimal digits, optionally after one sign. */
  predicate Signed(t: string) {
    IsDigits(t) || (|t| > 0 && (t[0] == '-' || t[0] == '+') && IsDigits(t[1..]))
  }

  /** A text with no skipped whitespace at either end is read as it is. */
  lemma IntStripUnchanged(s: string)
    requires |s| > 0 && !IsIntSpace(s[0]) && !IsIntSpace(s[|s| - 1])
    ensures IntStrip(s) == s
  {
    assert IntTrimLeft(s) == s;
  }

  lemma IntStripDigits(s: string)
    ensures IsDigits(s) ==> IntStrip(s) == s
  {
    if IsDigits(s) {
      IntStripUnchanged(s);
    }
  }

  /** An information separator is not skipped: `int("\x1c7")` raises,
      although `"\x1c7".strip()` is "7". */
  lemma SeparatorNotSkipped()
    ensures PyInt("\U{1C}7") == None
    ensures Strip("\U{1C}7") == "7"
  {
    var s := "\U{1C}7";
    assert IntTrimLeft(s) == s;
    assert IntTrimRight(s) == s;
    assert !IsDigits(s) by { assert !IsDigit(s[0]); }
    assert TrimLeft(s) == "7" by { assert s[1..] == "7"; }
    assert TrimRight("7") == "7";
  }

  /** `int(str(i)) == i`: a rendered integer reads back as itself. */
  lemma PyIntRoundTrip(i: int)
    ensures PyInt(IntToText(i)) == Some(i)
  {
    var s := IntToText(i);
    IntTextRoundTrip(i);
    assert IsDigit(s[|s| - 1]);
    IntStripUnchanged(s);
  }

  /** `hour, minute = map(int, text.split(':'))` followed by the range check
      of `datetime.replace`: None where either raises. */
  function ParseTime(text: string): (r: Option<(nat, nat)>)
    ensures r.Some? ==> r.value.0 < 24 && r.value.1 < 60
    ensures r.Some? <==>
      && |Split(text, ':')| == 2
      && PyInt(Split(text, ':')[0]).Some? && 0 <= PyInt(Split(text, ':')[0]).value < 24
      && PyInt(Split(text, ':')[1]).Some? && 0 <= PyInt(Split(text, ':')[1]).value < 60
    ensures r.Some? ==> Some(r.value.0 as int) == PyInt(Split(text, ':')[0])
    ensures r.Some? ==> Some(r.value.1 as int) == PyInt(Split(text, ':')[1])
  {
    var pieces := Split(text, ':');
    if |pieces| != 2 then None
    else
      match (PyInt(pieces[0]), PyInt(pieces[1]))
      case (Some(h), Some(m)) =>
        if 0 <= h < 24 && 0 <= m < 60 then Some((h, m)) else None
      case _ => None
  }

  /** Two-digit rendering, as a time is written in the task dialog. */
  function TwoDigits(n: nat): (s: string)
    requires n < 100
    ensures IsDigits(s) && |s| == 2
  {
    [DigitChar(n / 10), DigitChar(n % 10)]
  }

  lemma TwoDigitsValue(n: nat)
    requires n < 100
    ensures DecimalValue(TwoDigits(n)) == n
  {
    var s := TwoDigits(n);
    assert s[..1][..0] == [];
    assert DecimalValue(s[..1]) == n / 10;
  }

  /** A time written "HH:MM" reads back as that hour and minute. */
  lemma ParseTimeRoundTrip(h: nat, m: nat)
    requires h < 24 && m < 60
    ensures ParseTime(TwoDigits(h) + ":" + TwoDigits(m)) == Some((h, m))
  {
    var a := TwoDigits(h);
    var b := TwoDigits(m);
    assert ':' !in a && ':' !in b;
    SplitCons(a, b, ':');
    SplitNoSep(b, ':');
    assert a + ":" + b == a + [':'] + b;
    TwoDigitsValue(h);
    TwoDigitsValue(m);
  }

  /** `now.replace(hour=h, minute=m)`: the same day, second and microsecond. */
  function AtTime(now: DateTime, h: nat, m: nat): (t: DateTime)
    ensures t.day == now.day && t.hour == h && t.minute == m && t.micro == now.micro
  {
    now.(hour := h, minute := m)
  }

  /** `calculate_next_run(frequency, text)` at time `now`: today at the given
      time, moved on by the frequency's period when that is not later than
      `now`. None where the text does not parse or is out of range. */
  function NextRun(frequency: string, text: string, now: DateTime): (r: Option<DateTime>)
    ensures r.Some? <==> ParseTime(text).Some?
    ensures r.Some? ==> Valid(now) ==> Valid(r.value)
    ensures r.Some? ==> r.value.hour == ParseTime(text).value.0 && r.value.minute == ParseTime(text).value.1
    ensures r.Some? ==> r.value.micro == now.micro
    ensures r.Some? && PeriodDays(frequency) > 0 ==>
      Before(now, r.value) && NotAfter(r.value, AddDays(now, PeriodDays(frequency)))
    ensures r.Some? && PeriodDays(frequency) == 0 ==> r.value.day == now.day
    ensures r.Some? ==> var t := AtTime(now, ParseTime(text).value.0, ParseTime(text).value.1);
      r.value == t || r.value == AddDays(t, PeriodDays(frequency))
  {
    match ParseTime(text)
    case None => None
    case Some((h, m)) =>
      var t := AtTime(now, h, m);
      if NotAfter(t, now) then Some(AddDays(t, PeriodDays(frequency)))
      else Some(t)
  }

  /** For a known frequency the result is the earliest run after `now` in
      the series "today at the given time, then every period": it is the
      first or second run of the series, it is after `now`, and no later
      than any run of the series that is after `now`. */
  lemma NextRunIsEarliest(frequency: string, text: string, now: DateTime, k: nat)
    requires ParseTime(text).Some? && PeriodDays(frequency) > 0
    requires Before(now, AddDays(AtTime(now, ParseTime(text).value.0, ParseTime(text).value.1), k * PeriodDays(frequency)))
    ensures var t := AtTime(now, ParseTime(text).value.0, ParseTime(text).value.1);
      var r := NextRun(frequency, text, now).value;
      (r == AddDays(t, 0 * PeriodDays(frequency)) || r == AddDays(t, 1 * PeriodDays(frequency)))
      && Before(now, r)
    ensures NotAfter(NextRun(frequency, text, now).value,
      AddDays(AtTime(now, ParseTime(text).value.0, ParseTime(text).value.1), k * PeriodDays(frequency)))
  {
    var p := PeriodDays(frequency);
    if k >= 1 {
      assert k * p >= p;
    }
  }

  lemma ParseTen()
    ensures ParseTime("10:00") == Some((10, 0))
  {
    assert TwoDigits(10) + ":" + TwoDigits(0) == "10:00" by {
      assert TwoDigits(10) == "10" && TwoDigits(0) == "00";
    }
    ParseWritten("10:00", 10, 0);
  }

  lemma ParseWritten(text: string, h: nat, m: nat)
    requires h < 24 && m < 60 && text == TwoDigits(h) + ":" + TwoDigits(m)
    ensures ParseTime(text) == Some((h, m))
  {
    ParseTimeRoundTrip(h, m);
  }

  /** A time without a colon does not parse. */
  lemma ParseWithoutColon()
    ensures ParseTime("9h00") == None
  {
    SplitNoSep("9h00", ':');
  }

  /** At 11:00 a daily task set for 10:00 runs tomorrow at 10:00. */
  lemma DailyPastExample(day: nat)
    ensures NextRun("quotidien", "10:00", DateTime(day, 11, 0, 0)) == Some(DateTime(day + 1, 10, 0, 0))
  {
    var now := DateTime(day, 11, 0, 0);
    ParseTen();
    assert PeriodDays("quotidien") == 1;
    assert NotAfter(AtTime(now, 10, 0), now);
    assert AddDays(AtTime(now, 10, 0), 1) == DateTime(day + 1, 10, 0, 0);
  }

  /** A weekly task due exactly now runs in seven days. */
  lemma WeeklyNowExample(day: nat)
    ensures NextRun("hebdomadaire", "10:00", DateTime(day, 10, 0, 0)) == Some(DateTime(day + 7, 10, 0, 0))
  {
    var now := DateTime(day, 10, 0, 0);
    ParseTen();
    assert "hebdomadaire" != "quotidien" by { assert "hebdomadaire"[0] != "quotidien"[0]; }
    assert PeriodDays("hebdomadaire") == 7;
    assert NotAfter(AtTime(now, 10, 0), now);
    assert AddDays(AtTime(now, 10, 0), 7) == DateTime(day + 7, 10, 0, 0);
  }

  /** An unknown frequency stays today, even in the past. */
  lemma UnknownFrequencyExample(day: nat)
    ensures NextRun("jamais", "10:00", DateTime(day, 11, 0, 0)) == Some(DateTime(day, 10, 0, 0))
  {
    ParseTen();
    assert PeriodDays("jamais") == 0;
  }
}
