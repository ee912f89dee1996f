/** Timestamp text: the daemon's and the command line's writers, and the RFC 3339 parser. */
module Timestamps {
  import opened Text
  import opened Decimal
  import opened Calendar

  datatype Clock = Clock(date: Date, hour: nat, minute: nat, second: nat)

  /** Calendar fields of a time given in seconds since the epoch. */
  function ClockOf(secs: nat): Clock {
    var ofDay := secs % 86400;
    Clock(CivilFromDays(secs / 86400), ofDay / 3600, ofDay / 60 % 60, ofDay % 60)
  }

  lemma ClockFields(secs: nat)
    ensures var c := ClockOf(secs);
            && c.hour < 24 && c.minute < 60 && c.second < 60
            && secs == secs / 86400 * 86400 + c.hour * 3600 + c.minute * 60 + c.second
  {
    hide CivilFromDays;
    var ofDay := secs % 86400;
    assert ofDay / 60 == ofDay / 3600 * 60 + ofDay / 60 % 60;
    assert ofDay == ofDay / 60 * 60 + ofDay % 60;
  }

  /** The source's `{:04}` for a 32-bit year. */
  function FormatYear(y: int): string {
    if y >= 0 then Pad(y, 4) else "-" + Pad(-y, 3)
  }

  function FormatDate(year: int, month: nat, day: nat): string {
    FormatYear(year) + "-" + Pad(month, 2) + "-" + Pad(day, 2)
  }

  function FormatTime(c: Clock): string {
    Pad(c.hour, 2) + ":" + Pad(c.minute, 2) + ":" + Pad(c.second, 2)
  }

  /** Date and time of day, `sep` between them; the year is cut to 32 bits if `narrow`. */
  function FormatStamp(secs: nat, sep: string, narrow: bool): string {
    var c := ClockOf(secs);
    CivilFromDaysInverts(secs / 86400);
    FormatDate(if narrow then AsI32(c.date.year) else c.date.year, c.date.month, c.date.day) + sep + FormatTime(c)
  }

  /** The audit log's timestamp. */
  function FormatAudit(secs: nat, nanos: nat): string {
    FormatStamp(secs, "T", true) + "." + Pad(nanos, 9) + "Z"
  }

  /** The timestamp that `apply` writes. */
  function FormatApply(secs: nat): string {
    FormatStamp(secs, "T", true) + "Z"
  }

  // ----- parsing

  predicate TzChar(c: char) {
    c == 'Z' || c == '+' || c == '-'
  }

  /** Position of the first timezone character at or after index 2. */
  function TzStart(s: string, from: nat): (r: Option<nat>)
    ensures r.Some? ==> from <= r.value < |s|
    decreases |s| - from
  {
    if from >= |s| then None
    else if from >= 2 && TzChar(s[from]) then Some(from)
    else TzStart(s, from + 1)
  }

  function ParseI64(s: string): Option<int> {
    ParseInt(s, I64_MIN, I64_MAX)
  }

  function ParseTz(tz: string): Option<int> {
    if tz == "" || tz == "Z" then Some(0)
    else if tz[0] != '+' && tz[0] != '-' then None
    else match SplitOnce(tz[1..], ':')
      case None => None
      case Some((hh, mm)) =>
        var h, m := ParseI64(hh), ParseI64(mm);
        if h.None? || m.None? then None
        else Some((if tz[0] == '+' then 1 else -1) * (h.value * 3600 + m.value * 60))
  }

  function TzSplit(rest: string): Option<(string, int)> {
    match TzStart(rest, 0)
    case None => None
    case Some(i) =>
      match ParseTz(rest[i..])
      case None => None
      case Some(offset) => Some((rest[..i], offset))
  }

  function PadRight(s: string, w: nat): (r: string)
    ensures |r| >= w
    decreases w - |s|
  {
    if |s| >= w then s else PadRight(s + "0", w)
  }

  /** Whole seconds and nanoseconds of the seconds field. */
  function ParseSeconds(s: string): Option<(int, int)> {
    match SplitOnce(s, '.')
    case None =>
      var sec := ParseI64(s);
      if sec.None? then None else Some((sec.value, 0))
    case Some((whole, frac)) =>
      var sec, padded := ParseI64(whole), PadRight(frac, 9);
      var nanos := ParseI64(padded[..9]);
      if sec.None? then None else Some((sec.value, if nanos.Some? then nanos.value else 0))
  }

  function ParseDate(date: string): Option<Date> {
    var d := Split(date, '-');
    if |d| != 3 then None else
    var year, month, day := ParseI64(d[0]), ParseI64(d[1]), ParseI64(d[2]);
    if year.None? || month.None? || day.None? then None
    else Some(Date(year.value, month.value, day.value))
  }

  /** Seconds since midnight UTC, rounded half up, of the part after the `T`. */
  function ParseTime(rest: string): Option<int> {
    match TzSplit(rest)
    case None => None
    case Some((time, offset)) =>
      var t := Split(time, ':');
      if |t| != 3 then None else
      var hour, minute, sec := ParseI64(t[0]), ParseI64(t[1]), ParseSeconds(t[2]);
      if hour.None? || minute.None? || sec.None? then None else
      var total := hour.value * 3600 + minute.value * 60 + sec.value.0 - offset;
      Some(if sec.value.1 >= 500_000_000 then total + 1 else total)
  }

  /** Unix seconds of an RFC 3339 timestamp. */
  function Rfc3339Seconds(ts: string): Option<int> {
    match SplitOnce(ts, 'T')
    case None => None
    case Some((date, rest)) =>
      var d, t := ParseDate(date), ParseTime(rest);
      if d.None? || t.None? then None else Some(Days(d.value) * 86400 + t.value)
  }

  /** The scan for the timezone suffix. */
  method SplitTz(rest: string) returns (r: Option<(string, int)>)
    ensures r == TzSplit(rest)
  {
    var i := 0;
    while i < |rest| && (i < 2 || !TzChar(rest[i]))
      invariant 0 <= i <= |rest|
      invariant TzStart(rest, 0) == TzStart(rest, i)
    {
      i := i + 1;
    }
    if i == |rest| {
      return None;
    }
    var offset := ParseTz(rest[i..]);
    return if offset.None? then None else Some((rest[..i], offset.value));
  }

  /** The seconds field, with the loop that pads the fraction to nanoseconds. */
  method SplitSeconds(s: string) returns (r: Option<(int, int)>)
    ensures r == ParseSeconds(s)
  {
    hide ParseI64;
    var split := SplitOnce(s, '.');
    if split.None? {
      var sec := ParseI64(s);
      return if sec.None? then None else Some((sec.value, 0));
    }
    var sec := ParseI64(split.value.0);
    var f := split.value.1;
    while |f| < 9
      invariant PadRight(f, 9) == PadRight(split.value.1, 9)
    {
      f := f + "0";
    }
    var nanos := ParseI64(f[..9]);
    return if sec.None? then None else Some((sec.value, if nanos.Some? then nanos.value else 0));
  }

  /** The parser, with its running total. */
  method ParseRfc3339(ts: string) returns (r: Option<int>)
    ensures r == Rfc3339Seconds(ts)
  {
    hide DaysFromCivil, ParseI64, Split, SplitOnce, TzSplit, ParseSeconds;
    var parts := SplitOnce(ts, 'T');
    if parts.None? { return None; }
    var date := Split(parts.value.0, '-');
    if |date| != 3 { return None; }
    var year, month, day := ParseI64(date[0]), ParseI64(date[1]), ParseI64(date[2]);
    if year.None? || month.None? || day.None? { return None; }
    var tz := SplitTz(parts.value.1);
    if tz.None? { return None; }
    var time := Split(tz.value.0, ':');
    if |time| != 3 { return None; }
    var hour, minute := ParseI64(time[0]), ParseI64(time[1]);
    var sec := SplitSeconds(time[2]);
    if hour.None? || minute.None? || sec.None? { return None; }
    var total := DaysFromCivil(year.value, month.value, day.value) * 86400
                 + hour.value * 3600 + minute.value * 60 + sec.value.0;
    total := total - tz.value.1;
    if sec.value.1 >= 500_000_000 {
      total := total + 1;
    }
    return Some(total);
  }

  // ----- the parser inverts the writers

  lemma DigitsOnly(s: string, c: char)
    requires AllDigits(s) && !IsDigit(c)
    ensures c !in s
  {
  }

  lemma SplitThree(a: string, b: string, c: string, sep: char)
    requires sep !in a && sep !in b && sep !in c
    ensures Split(a + [sep] + b + [sep] + c, sep) == [a, b, c]
  {
    assert a + [sep] + b + [sep] + c == a + [sep] + (b + [sep] + c);
    SplitFirst(a, sep, b + [sep] + c);
    SplitFirst(b, sep, c);
    SplitWhole(c, sep);
  }

  /** The suffix begins at the first of its characters. */
  lemma {:induction false} TzAt(time: string, tz: string, from: nat)
    requires from <= |time| && |time| >= 2 && tz != "" && TzChar(tz[0])
    requires forall i | 0 <= i < |time| :: !TzChar(time[i])
    ensures TzStart(time + tz, from) == Some(|time|)
    decreases |time| - from
  {
    if from < |time| {
      assert (time + tz)[from] == time[from];
      TzAt(time, tz, from + 1);
    } else {
      assert (time + tz)[from] == tz[0];
    }
  }

  lemma ParseDateText(year: nat, month: nat, day: nat)
    requires year <= I32_MAX && month < 100 && day < 100
    ensures ParseDate(FormatDate(year, month, day)) == Some(Date(year, month, day))
    ensures 'T' !in FormatDate(year, month, day)
  {
    hide Pad, Value, ParseInt;
    var y, mo, d := Pad(year, 4), Pad(month, 2), Pad(day, 2);
    PadIsDigits(year, 4); PadIsDigits(month, 2); PadIsDigits(day, 2);
    ParsePad(year, 4, I64_MIN, I64_MAX); ParsePad(month, 2, I64_MIN, I64_MAX); ParsePad(day, 2, I64_MIN, I64_MAX);
    DigitsOnly(y, '-'); DigitsOnly(mo, '-'); DigitsOnly(d, '-');
    SplitThree(y, mo, d, '-');
    assert FormatDate(year, month, day) == y + ['-'] + mo + ['-'] + d;
  }

  /** No fraction, or a point and at least one digit. */
  predicate Fraction(s: string) {
    s == "" || (|s| >= 2 && s[0] == '.' && AllDigits(s[1..]))
  }

  /** The first nine digits of the fraction, missing ones being zero. */
  function NineDigits(s: string): string
    requires Fraction(s) && s != ""
  {
    PadRight(s[1..], 9)[..9]
  }

  /** The second is rounded up from half on, which the first digit tells. */
  function RoundUp(fraction: string): int
    requires Fraction(fraction)
  {
    if fraction != "" && fraction[1] >= '5' then 1 else 0
  }

  /** Where the clock that was read stands: at UTC, or hours and minutes before or behind it. */
  datatype Offset = Utc | Ahead(hours: nat, minutes: nat) | Behind(hours: nat, minutes: nat)

  predicate TwoDigits(o: Offset) {
    o.Utc? || (o.hours < 100 && o.minutes < 100)
  }

  function OffsetText(o: Offset): string {
    match o
    case Utc => "Z"
    case Ahead(h, m) => "+" + Pad(h, 2) + ":" + Pad(m, 2)
    case Behind(h, m) => "-" + Pad(h, 2) + ":" + Pad(m, 2)
  }

  function OffsetSeconds(o: Offset): int {
    match o
    case Utc => 0
    case Ahead(h, m) => h * 3600 + m * 60
    case Behind(h, m) => -(h * 3600 + m * 60)
  }

  lemma ParseOffset(o: Offset)
    requires TwoDigits(o)
    ensures var text := OffsetText(o); text != "" && TzChar(text[0]) && ParseTz(text) == Some(OffsetSeconds(o))
  {
    hide Pad, ParseInt, SplitOnce;
    if !o.Utc? {
      var hh, mm, text := Pad(o.hours, 2), Pad(o.minutes, 2), OffsetText(o);
      PadIsDigits(o.hours, 2);
      DigitsOnly(hh, ':');
      ParsePad(o.hours, 2, I64_MIN, I64_MAX);
      ParsePad(o.minutes, 2, I64_MIN, I64_MAX);
      assert text[1..] == hh + [':'] + mm;
      SplitOnceAt(hh, ':', mm);
    }
  }

  lemma {:induction false} ValueBound(s: string)
    requires AllDigits(s)
    ensures Value(s) < Pow10(|s|)
  {
    if s == "" {
    } else {
      ValueBound(s[..|s| - 1]);
    }
  }

  lemma ValueLast(s: string)
    requires AllDigits(s)
    ensures s == "" ==> Value(s) == 0
    ensures s != "" ==> Value(s) == 10 * Value(s[..|s| - 1]) + (s[|s| - 1] - '0') as nat
  {
  }

  lemma PowerOne(n: nat)
    ensures Pow10(n) == if n == 0 then 1 else 10 * Pow10(n - 1)
  {
  }

  lemma TimesTen(d: nat, p: nat)
    ensures d * (10 * p) == 10 * (d * p)
  {
  }

  /** The value of a number by its first digit. */
  lemma {:induction false} ValueFirst(s: string)
    requires AllDigits(s) && s != ""
    ensures Value(s) == (s[0] - '0') as nat * Pow10(|s| - 1) + Value(s[1..])
  {
    hide Value, Pow10;
    var front, n := s[..|s| - 1], |s| - 1;
    ValueLast(s);
    PowerOne(n);
    if n == 0 {
      assert front == "" && s[1..] == "";
      ValueLast("");
    } else {
      var rest := s[1..];
      ValueFirst(front);
      ValueLast(rest);
      assert rest[..n - 1] == front[1..] && rest[n - 1] == s[n];
      TimesTen((s[0] - '0') as nat, Pow10(n - 1));
    }
  }

  lemma {:induction false} PadRightDigits(s: string, w: nat)
    requires AllDigits(s)
    ensures var r := PadRight(s, w); AllDigits(r) && s <= r
    decreases w - |s|
  {
    if |s| < w {
      PadRightDigits(s + "0", w);
    }
  }

  lemma NanosRound(fraction: string)
    requires Fraction(fraction) && fraction != ""
    ensures var d := NineDigits(fraction);
            && |d| == 9 && AllDigits(d) && ParseInt(d, I64_MIN, I64_MAX) == Some(Value(d) as int)
            && (Value(d) >= 500_000_000 <==> RoundUp(fraction) == 1)
  {
    hide Value, PadRight;
    var digits, d := fraction[1..], NineDigits(fraction);
    PadRightDigits(digits, 9);
    assert d[0] == digits[0] == fraction[1];
    ValueBound(d);
    ValueFirst(d);
    ValueBound(d[1..]);
    assert Pow10(8) == 100_000_000 && Pow10(9) == 1_000_000_000;
    assert IsDigit(d[0]);
  }

  lemma ParseSecondsField(second: nat, fraction: string)
    requires second < 100 && Fraction(fraction)
    ensures var r := ParseSeconds(Pad(second, 2) + fraction);
            r.Some? && r.value.0 == second && (r.value.1 >= 500_000_000 <==> RoundUp(fraction) == 1)
  {
    hide ParseInt, PadRight, SplitOnce, Value, Pad;
    var se := Pad(second, 2);
    PadIsDigits(second, 2);
    ParsePad(second, 2, I64_MIN, I64_MAX);
    if fraction == "" {
      assert se + fraction == se;
      SplitOnceNone(se, '.');
    } else {
      var digits := fraction[1..];
      assert se + fraction == se + ['.'] + digits;
      SplitOnceAt(se, '.', digits);
      NanosRound(fraction);
    }
  }

  /** Clock fields of two digits, as they are written. */
  predicate ClockDigits(c: Clock) {
    c.hour < 100 && c.minute < 100 && c.second < 100
  }

  lemma TimeChars(c: Clock, fraction: string)
    requires ClockDigits(c) && Fraction(fraction)
    ensures var time := FormatTime(c) + fraction;
            |time| >= 2 && forall i | 0 <= i < |time| :: !TzChar(time[i])
  {
    hide Pad, Value;
    PadIsDigits(c.hour, 2); PadIsDigits(c.minute, 2); PadIsDigits(c.second, 2);
    var time := FormatTime(c) + fraction;
    assert fraction != "" ==> fraction == "." + fraction[1..];
    assert forall i | 0 <= i < |time| :: IsDigit(time[i]) || time[i] == ':' || time[i] == '.';
  }

  lemma ParseClock(c: Clock, fraction: string)
    requires ClockDigits(c) && Fraction(fraction)
    ensures var t := Split(FormatTime(c) + fraction, ':');
            && |t| == 3 && ParseI64(t[0]) == Some(c.hour) && ParseI64(t[1]) == Some(c.minute)
            && t[2] == Pad(c.second, 2) + fraction
  {
    hide Pad, Value, ParseInt;
    var h, mi, se := Pad(c.hour, 2), Pad(c.minute, 2), Pad(c.second, 2);
    PadIsDigits(c.hour, 2); PadIsDigits(c.minute, 2); PadIsDigits(c.second, 2);
    ParsePad(c.hour, 2, I64_MIN, I64_MAX); ParsePad(c.minute, 2, I64_MIN, I64_MAX);
    DigitsOnly(h, ':'); DigitsOnly(mi, ':'); DigitsOnly(se, ':');
    assert FormatTime(c) + fraction == h + [':'] + mi + [':'] + (se + fraction);
    SplitThree(h, mi, se + fraction, ':');
  }

  lemma RoundUpOne(fraction: string)
    requires Fraction(fraction)
    ensures RoundUp(fraction) == 0 || RoundUp(fraction) == 1
  {
  }

  lemma ParseTimeText(c: Clock, fraction: string, o: Offset)
    requires ClockDigits(c) && Fraction(fraction) && TwoDigits(o)
    ensures ParseTime(FormatTime(c) + fraction + OffsetText(o))
         == Some(c.hour * 3600 + c.minute * 60 + c.second - OffsetSeconds(o) + RoundUp(fraction))
  {
    hide ParseI64, ParseSeconds, Split, FormatTime, OffsetText, ParseTz, TzStart, OffsetSeconds, Fraction, RoundUp;
    var time, tz := FormatTime(c) + fraction, OffsetText(o);
    TimeChars(c, fraction);
    ParseOffset(o);
    TzAt(time, tz, 0);
    assert (time + tz)[|time|..] == tz && (time + tz)[..|time|] == time;
    ParseClock(c, fraction);
    ParseSecondsField(c.second, fraction);
    RoundUpOne(fraction);
  }

  /** What the parser makes of any date, time, fraction of any length and offset, each field in its own digits: the
      second in UTC, the offset subtracted, rounded up if the fraction begins with five or more. */
  lemma ParseFields(year: nat, month: nat, day: nat, c: Clock, fraction: string, o: Offset)
    requires year <= I32_MAX && month < 100 && day < 100 && ClockDigits(c) && Fraction(fraction) && TwoDigits(o)
    ensures Rfc3339Seconds(FormatDate(year, month, day) + "T" + FormatTime(c) + fraction + OffsetText(o))
         == Some(DaysFromCivil(year, month, day) * 86400 + c.hour * 3600 + c.minute * 60 + c.second
                 - OffsetSeconds(o) + RoundUp(fraction))
  {
    hide DaysFromCivil, ParseDate, ParseTime, FormatDate, FormatTime, OffsetText, OffsetSeconds, RoundUp, Fraction;
    var date, rest := FormatDate(year, month, day), FormatTime(c) + fraction + OffsetText(o);
    assert date + "T" + FormatTime(c) + fraction + OffsetText(o) == date + ['T'] + rest;
    ParseDateText(year, month, day);
    ParseTimeText(c, fraction, o);
    SplitOnceAt(date, 'T', rest);
  }

  lemma YearFromEpoch(secs: nat)
    ensures var t := ClockOf(secs).date; Valid(t) && t.year >= 1970 && Days(t) == secs / 86400
  {
    hide Days, CivilFromDays;
    var t := ClockOf(secs).date;
    CivilFromDaysInverts(secs / 86400);
    Epoch();
    DaysIncrease(t, Date(1970, 1, 1));
  }

  lemma LaterYearLaterDay(a: int, b: int, month: int, day: int)
    requires a < b && 1 <= month <= 12
    ensures DaysFromCivil(a, month, day) < DaysFromCivil(b, month, day)
  {
    hide YearStart;
    var s, t := Date(a, month, day), Date(b, month, day);
    DaysClosedForm(s); DaysClosedForm(t);
    YearStartIncreases(MarchYear(s), MarchYear(t));
    YearLength(MarchYear(s));
  }

  lemma NegativeYearPieces(year: int, month: nat, day: nat)
    requires year < 0 && month < 100 && day < 100
    ensures |Split(FormatDate(year, month, day), '-')| == 4 && 'T' !in FormatDate(year, month, day)
  {
    hide Pad, Split, Value;
    var y, mo, d := Pad(-year, 3), Pad(month, 2), Pad(day, 2);
    PadIsDigits(-year, 3); PadIsDigits(month, 2); PadIsDigits(day, 2);
    DigitsOnly(y, '-'); DigitsOnly(mo, '-'); DigitsOnly(d, '-');
    DigitsOnly(y, 'T'); DigitsOnly(mo, 'T'); DigitsOnly(d, 'T');
    var rest := y + ['-'] + mo + ['-'] + d;
    assert FormatDate(year, month, day) == [] + ['-'] + rest;
    SplitThree(y, mo, d, '-');
    SplitFirst("", '-', rest);
  }

  /** A year that wrapped to a negative number puts a fourth piece into the date. */
  lemma NegativeYearRejected(year: int, month: nat, day: nat, rest: string)
    requires year < 0 && month < 100 && day < 100
    ensures Rfc3339Seconds(FormatDate(year, month, day) + "T" + rest) == None
  {
    hide Split, SplitOnce, ParseI64, ParseTime, FormatDate;
    NegativeYearPieces(year, month, day);
    SplitOnceAt(FormatDate(year, month, day), 'T', rest);
  }

  /** What the parser makes of a written timestamp, wrapped year or not. */
  lemma ParseStamp(secs: nat, fraction: string)
    requires Fraction(fraction)
    ensures Rfc3339Seconds(FormatStamp(secs, "T", true) + fraction + "Z") == Some(secs + RoundUp(fraction))
       <==> ClockOf(secs).date.year <= I32_MAX
  {
    hide DaysFromCivil, CivilFromDays, Rfc3339Seconds, FormatDate, FormatTime, RoundUp, Fraction;
    var c := ClockOf(secs);
    var t := c.date;
    YearFromEpoch(secs);
    ClockFields(secs);
    var y := AsI32(t.year);
    var text := FormatDate(y, t.month, t.day) + "T" + FormatTime(c);
    assert FormatStamp(secs, "T", true) == text;
    if y < 0 {
      NegativeYearRejected(y, t.month, t.day, FormatTime(c) + fraction + "Z");
      assert text + fraction + "Z" == FormatDate(y, t.month, t.day) + "T" + (FormatTime(c) + fraction + "Z");
    } else {
      ParseFields(y, t.month, t.day, c, fraction, Utc);
      if y != t.year {
        LaterYearLaterDay(y, t.year, t.month, t.day);
      }
    }
  }

  /** With nine digits, the first tells what their value does. */
  lemma HalfSecond(fraction: string)
    requires Fraction(fraction) && |fraction| == 10
    ensures RoundUp(fraction) == if Value(fraction[1..]) >= 500_000_000 then 1 else 0
  {
    NanosRound(fraction);
    assert NineDigits(fraction) == fraction[1..];
  }

  /** Parsing an audit timestamp returns its second, rounded half up, exactly as long as the year
      fits the 32 bits it is written from. */
  lemma AuditRoundTrip(secs: nat, nanos: nat)
    requires nanos < 1_000_000_000
    ensures Rfc3339Seconds(FormatAudit(secs, nanos)) == Some(if nanos >= 500_000_000 then secs + 1 else secs)
       <==> ClockOf(secs).date.year <= I32_MAX
  {
    hide Rfc3339Seconds, FormatStamp, ClockOf, Pad;
    PadIsDigits(nanos, 9);
    assert Pow10(9) == 1_000_000_000;
    var fraction := "." + Pad(nanos, 9);
    assert fraction[1..] == Pad(nanos, 9);
    HalfSecond(fraction);
    ParseStamp(secs, fraction);
    assert FormatAudit(secs, nanos) == FormatStamp(secs, "T", true) + fraction + "Z";
  }

  /** Parsing the timestamp of `apply` returns its second, under the same condition. */
  lemma ApplyRoundTrip(secs: nat)
    ensures Rfc3339Seconds(FormatApply(secs)) == Some(secs) <==> ClockOf(secs).date.year <= I32_MAX
  {
    hide Rfc3339Seconds, FormatStamp, ClockOf;
    ParseStamp(secs, "");
    assert FormatApply(secs) == FormatStamp(secs, "T", true) + "" + "Z";
  }

  // ----- the texts themselves

  lemma PowersOfTen()
    ensures Pow10(2) == 100 && Pow10(4) == 10_000 && Pow10(9) == 1_000_000_000
  {
    assert Pow10(4) == 10 * (10 * Pow10(2)) && Pow10(8) == 10_000 * Pow10(4);
  }

  lemma NarrowYear(year: int)
    requires 0 <= year <= 9999
    ensures AsI32(year) == year && FormatYear(AsI32(year)) == Pad(year, 4)
  {
    hide Pad;
    assert (year + 0x8000_0000) % 0x1_0000_0000 == year + 0x8000_0000;
  }

  lemma StampIs(secs: nat)
    requires 0 <= ClockOf(secs).date.year <= 9999
    ensures var c := ClockOf(secs);
            c.date.month >= 0 && c.date.day >= 0
            && FormatStamp(secs, "T", true)
               == Pad(c.date.year, 4) + "-" + Pad(c.date.month, 2) + "-" + Pad(c.date.day, 2) + "T"
                  + (Pad(c.hour, 2) + ":" + Pad(c.minute, 2) + ":" + Pad(c.second, 2))
  {
    CivilFromDaysInverts(secs / 86400);
    NarrowYear(ClockOf(secs).date.year);
    hide CivilFromDays, Pad, AsI32, FormatYear;
  }

  lemma FieldsAt(y: string, mo: string, d: string, h: string, mi: string, se: string)
    requires |y| == 4 && |mo| == |d| == |h| == |mi| == |se| == 2
    ensures var s := y + "-" + mo + "-" + d + "T" + (h + ":" + mi + ":" + se);
            && |s| == 19 && s[4] == '-' && s[7] == '-' && s[10] == 'T' && s[13] == ':' && s[16] == ':'
            && s[..4] == y && s[5..7] == mo && s[8..10] == d && s[11..13] == h && s[14..16] == mi && s[17..19] == se
  {
  }

  lemma Suffixes(s: string, n: string)
    requires |s| == 19 && |n| == 9
    ensures var a, b := s + "." + n + "Z", s + "Z";
            && |a| == 30 && |b| == 20 && a[..19] == s == b[..19] && a[19] == '.' && a[29] == 'Z' && b[19] == 'Z' && a[20..29] == n
  {
  }

  /** Where the fields of a timestamp stand, for years of four digits: twenty characters of date and time, and for the audit
      log a point and the nanoseconds in nine digits; then `Z`. */
  lemma StampFields(secs: nat, nanos: nat)
    requires nanos < 1_000_000_000 && 0 <= ClockOf(secs).date.year <= 9999
    ensures var a, b, c := FormatAudit(secs, nanos), FormatApply(secs), ClockOf(secs);
            && |a| == 30 && |b| == 20 && a[..19] == b[..19] && a[19] == '.' && a[29] == 'Z' && b[19] == 'Z'
            && AllDigits(a[20..29]) && Value(a[20..29]) == nanos
            && var s := b[..19];
               && s[4] == '-' && s[7] == '-' && s[10] == 'T' && s[13] == ':' && s[16] == ':'
               && AllDigits(s[..4]) && Value(s[..4]) == c.date.year && AllDigits(s[5..7]) && Value(s[5..7]) == c.date.month
               && AllDigits(s[8..10]) && Value(s[8..10]) == c.date.day && AllDigits(s[11..13]) && Value(s[11..13]) == c.hour
               && AllDigits(s[14..16]) && Value(s[14..16]) == c.minute && AllDigits(s[17..19]) && Value(s[17..19]) == c.second
  {
    hide CivilFromDays, Days, Pad, Value, ClockOf, AllDigits, FormatStamp;
    var c := ClockOf(secs);
    YearFromEpoch(secs);
    ClockFields(secs);
    PowersOfTen();
    StampIs(secs);
    PadIsDigits(c.date.year, 4); PadIsDigits(c.date.month, 2); PadIsDigits(c.date.day, 2);
    PadIsDigits(c.hour, 2); PadIsDigits(c.minute, 2); PadIsDigits(c.second, 2); PadIsDigits(nanos, 9);
    FieldsAt(Pad(c.date.year, 4), Pad(c.date.month, 2), Pad(c.date.day, 2), Pad(c.hour, 2), Pad(c.minute, 2), Pad(c.second, 2));
    Suffixes(FormatStamp(secs, "T", true), Pad(nanos, 9));
  }

  // ----- what is refused

  lemma {:induction false} NoTzStart(s: string, from: nat)
    requires forall i | 2 <= i < |s| :: !TzChar(s[i])
    ensures TzStart(s, from) == None
    decreases |s| - from
  {
    if from < |s| {
      NoTzStart(s, from + 1);
    }
  }

  /** A timestamp without a timezone suffix is refused, and so is one without a `T`. */
  lemma SuffixRequired(date: string, time: string)
    requires 'T' !in date && 'T' !in time && forall i | 2 <= i < |time| :: !TzChar(time[i])
    ensures Rfc3339Seconds(date + "T" + time) == None && Rfc3339Seconds(date) == None
  {
    hide SplitOnce, ParseDate, Split;
    SplitOnceAt(date, 'T', time);
    SplitOnceNone(date, 'T');
    assert date + "T" + time == date + ['T'] + time;
    NoTzStart(time, 0);
  }
}
