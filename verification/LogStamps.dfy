/** The timestamps of log lines: how the daemon writes them and how the log readers recognise them. */
module LogStamps {
  import opened Text
  import opened Decimal
  import opened Calendar
  import opened Timestamps
  import opened LogEntries
  import opened Collections

  const BANNER_WIDTH := 80

  /** Offset of local time from UTC at a given time; the system's timezone data. */
  type Zone = int -> int

  function ParseU32(s: string): Option<int> {
    ParseInt(s, 0, U32_MAX)
  }

  /** Unix seconds of a 19-character local timestamp. */
  function ParseLocal(tz: Zone, s: string): Option<int> {
    if |s| < TS_LEN then None else
    var year, month, day := ParseInt(s[..4], I32_MIN, I32_MAX), ParseU32(s[5..7]), ParseU32(s[8..10]);
    var hour, minute, second := ParseU32(s[11..13]), ParseU32(s[14..16]), ParseU32(s[17..19]);
    if year.None? || month.None? || day.None? || hour.None? || minute.None? || second.None? then None
    else if !(1 <= month.value <= 12) || day.value < 1 || hour.value > 23 || minute.value > 59 || second.value > 59 then None
    else match CheckedDaysFromCivil(year.value, month.value, day.value)
      case None => None
      case Some(days) =>
        var naive := days * 86400 + hour.value * 3600 + minute.value * 60 + second.value;
        Some(naive - tz(naive - tz(naive)))
  }

  function StampOf(tz: Zone, line: string): Option<int> {
    if |line| < TS_LEN + 1 then None else ParseLocal(tz, line[..TS_LEN])
  }

  const TAIL := "  =="

  function MiddleOf(tz: Zone, line: string): Option<int> {
    if |line| < |TAIL| + TS_LEN || line[|line| - |TAIL|..] != TAIL then None
    else
      var inner := line[..|line| - |TAIL|];
      ParseLocal(tz, inner[|inner| - TS_LEN..])
  }

  /** The format that both log readers use. */
  function LocalFormat(tz: Zone): LogFormat {
    LogFormat(line => StampOf(tz, line), line => MiddleOf(tz, line))
  }

  lemma NotANumber(tz: Zone, s: string)
    requires |s| >= 4 && s[0] == '='
    ensures ParseLocal(tz, s).None?
  {
    if |s| >= TS_LEN {
      assert s[..4][0] == '=';
      assert !AllDigits(s[..4]);
    }
  }

  /** In it, neither a run of '=' nor an empty line carries a timestamp. */
  lemma LocalFormatSane(tz: Zone)
    ensures Sane(LocalFormat(tz))
  {
    forall line | line == "" || IsBannerRule(line)
      ensures StampOf(tz, line).None? && MiddleOf(tz, line).None?
    {
      if line != "" {
        if |line| >= TS_LEN + 1 {
          NotANumber(tz, line[..TS_LEN]);
        }
        if |line| >= |TAIL| + TS_LEN {
          assert line[|line| - |TAIL|..][0] == '=';
        }
      }
    }
  }

  // ----- what the daemon writes

  /** The timestamp of log lines and banners, in UTC. */
  function FormatNow(secs: nat): string {
    FormatStamp(secs, " ", false)
  }

  function BannerMiddle(event: string, detail: string, secs: nat): string {
    var left := "==  " + event + (if detail == "" then "" else "  " + detail) + "  ";
    var right := "  " + FormatNow(secs) + TAIL;
    var fill := if BANNER_WIDTH >= |left| + |right| + 4 then BANNER_WIDTH - |left| - |right| else 4;
    left + Repeat('=', fill) + right
  }

  /** The three lines of a lifecycle banner. */
  function WriteBanner(event: string, detail: string, secs: nat): Head {
    Banner(Repeat('=', BANNER_WIDTH), BannerMiddle(event, detail, secs), Repeat('=', BANNER_WIDTH))
  }

  /** What the timestamp writer puts in front of a line. */
  function Prefix(secs: nat): string {
    FormatNow(secs) + " "
  }

  /** A line of a child's output as the timestamp writer logs it. */
  function LoggedLine(secs: nat, text: string): Head {
    Stamped(Prefix(secs) + text)
  }

  // ----- the readers recognise it

  /** Seconds before the year 10000, the years that the 19 characters of a timestamp can hold. */
  predicate FourDigitYear(secs: nat) {
    secs < 253_402_300_800
  }

  lemma FourDigitYearExactly(secs: nat)
    ensures FourDigitYear(secs) <==> ClockOf(secs).date.year <= 9999
  {
    hide Days, CivilFromDays;
    var t, first := ClockOf(secs).date, Date(10000, 1, 1);
    YearFromEpoch(secs);
    DaysIncrease(t, first);
    DaysClosedForm(first);
    assert YearStart(9999) == 3_652_059;
    assert Days(first) * 86400 == 253_402_300_800;
  }

  /** Where the fields stand. */
  lemma Slices(y: string, mo: string, d: string, h: string, mi: string, se: string)
    requires |y| == 4 && |mo| == |d| == |h| == |mi| == |se| == 2
    requires AllDigits(y) && AllDigits(mo) && AllDigits(d) && AllDigits(h) && AllDigits(mi) && AllDigits(se)
    ensures var s := y + "-" + mo + "-" + d + " " + (h + ":" + mi + ":" + se);
            && |s| == TS_LEN && '\n' !in s && IsDigit(s[0])
            && s[..4] == y && s[5..7] == mo && s[8..10] == d && s[11..13] == h && s[14..16] == mi && s[17..19] == se
  {
    var s := y + "-" + mo + "-" + d + " " + (h + ":" + mi + ":" + se);
    assert s[0] == y[0];
  }

  lemma StampText(secs: nat)
    requires FourDigitYear(secs)
    ensures var s, c := FormatNow(secs), ClockOf(secs);
            && |s| == TS_LEN && '\n' !in s && IsDigit(s[0])
            && Valid(c.date) && 0 <= c.date.year <= 9999
            && s[..4] == Pad(c.date.year, 4) && s[5..7] == Pad(c.date.month, 2) && s[8..10] == Pad(c.date.day, 2)
            && s[11..13] == Pad(c.hour, 2) && s[14..16] == Pad(c.minute, 2) && s[17..19] == Pad(c.second, 2)
  {
    hide CivilFromDays, Days, Pad;
    var c := ClockOf(secs);
    FourDigitYearExactly(secs);
    YearFromEpoch(secs);
    ClockFields(secs);
    assert Pow10(4) == 10000 && Pow10(2) == 100;
    PadIsDigits(c.date.year, 4); PadIsDigits(c.date.month, 2); PadIsDigits(c.date.day, 2);
    PadIsDigits(c.hour, 2); PadIsDigits(c.minute, 2); PadIsDigits(c.second, 2);
    hide Value, Pow10;
    var y, mo, d := Pad(c.date.year, 4), Pad(c.date.month, 2), Pad(c.date.day, 2);
    var h, mi, se := Pad(c.hour, 2), Pad(c.minute, 2), Pad(c.second, 2);
    Slices(y, mo, d, h, mi, se);
    assert FormatNow(secs) == y + "-" + mo + "-" + d + " " + (h + ":" + mi + ":" + se);
  }

  /** What the readers take a second written in UTC for: they read it as local time. */
  function ReadAs(tz: Zone, secs: nat): int {
    secs - tz(secs - tz(secs))
  }

  /** The daemon writes UTC and the readers read local time, so its timestamp reads back as the second it was
      written at exactly when the reader's timezone has no offset there. */
  lemma StampRoundTrip(tz: Zone, secs: nat)
    requires FourDigitYear(secs)
    ensures ParseLocal(tz, FormatNow(secs)) == Some(ReadAs(tz, secs))
    ensures ParseLocal(tz, FormatNow(secs)) == Some(secs) <==> tz(secs - tz(secs)) == 0
  {
    hide CivilFromDays, DaysFromCivil, CheckedDaysFromCivil, Pad, FormatNow, ParseInt;
    var c := ClockOf(secs);
    StampText(secs);
    YearFromEpoch(secs);
    ClockFields(secs);
    ParsePad(c.date.year, 4, I32_MIN, I32_MAX);
    ParsePad(c.date.month, 2, 0, U32_MAX); ParsePad(c.date.day, 2, 0, U32_MAX);
    ParsePad(c.hour, 2, 0, U32_MAX); ParsePad(c.minute, 2, 0, U32_MAX); ParsePad(c.second, 2, 0, U32_MAX);
    CopiesAgree(c.date.year, c.date.month, c.date.day);
  }

  /** In a zone with a fixed offset, every timestamp is off by that offset: west of UTC it lies in the future. */
  lemma StampOffByZone(tz: Zone, offset: int, secs: nat)
    requires FourDigitYear(secs) && forall t :: tz(t) == offset
    ensures ParseLocal(tz, FormatNow(secs)) == Some(secs - offset)
  {
    hide ParseLocal, FormatNow;
    StampRoundTrip(tz, secs);
  }

  lemma PrefixRecognised(tz: Zone, stamp: string, text: string)
    requires |stamp| == TS_LEN && '\n' !in stamp && '\n' !in text && (text != "" ==> text[|text| - 1] != '\r')
    ensures var line := stamp + " " + text; StampOf(tz, line) == ParseLocal(tz, stamp) && WholeLine(line)
  {
    hide ParseLocal;
    var line := stamp + " " + text;
    assert line[..TS_LEN] == stamp;
    assert line[|line| - 1] == if text == "" then ' ' else text[|text| - 1];
  }

  /** Every line of text with a timestamp in front opens a record, at the time that the timestamp is read as. */
  lemma LoggedLineIsRecord(tz: Zone, secs: nat, text: string)
    requires FourDigitYear(secs) && '\n' !in text && (text != "" ==> text[|text| - 1] != '\r')
    ensures WellFormedHead(LocalFormat(tz), LoggedLine(secs, text))
    ensures LocalFormat(tz).stamp(LoggedLine(secs, text).line) == Some(ReadAs(tz, secs))
  {
    hide FormatNow, ParseLocal, ClockOf, FourDigitYear, ReadAs;
    StampText(secs);
    StampRoundTrip(tz, secs);
    PrefixRecognised(tz, FormatNow(secs), text);
  }

  lemma MiddleRecognised(tz: Zone, prefix: string, stamp: string)
    requires |stamp| == TS_LEN && |prefix| >= 4 && prefix[0] == '=' && '\n' !in prefix && '\n' !in stamp
    ensures var mid := prefix + stamp + TAIL;
            MiddleOf(tz, mid) == ParseLocal(tz, stamp) && StampOf(tz, mid).None? && WholeLine(mid)
  {
    hide ParseLocal;
    var mid := prefix + stamp + TAIL;
    assert mid[|mid| - |TAIL|..] == TAIL;
    var inner := mid[..|mid| - |TAIL|];
    assert inner == prefix + stamp && inner[|inner| - TS_LEN..] == stamp;
    NotANumber(tz, mid[..TS_LEN]);
  }

  lemma BannerMiddleText(event: string, detail: string, secs: nat) returns (prefix: string)
    requires FourDigitYear(secs) && '\n' !in event && '\n' !in detail
    ensures BannerMiddle(event, detail, secs) == prefix + FormatNow(secs) + TAIL
    ensures |prefix| >= 4 && prefix[0] == '=' && '\n' !in prefix
  {
    hide FormatNow;
    var left := "==  " + event + (if detail == "" then "" else "  " + detail) + "  ";
    var right := "  " + FormatNow(secs) + TAIL;
    var fill := if BANNER_WIDTH >= |left| + |right| + 4 then BANNER_WIDTH - |left| - |right| else 4;
    prefix := left + Repeat('=', fill) + "  ";
    assert '\n' !in left;
  }

  /** A banner as `write_banner` makes it, if it stands in a log by itself, is a banner to the readers, and can be told
      from a stamped line. */
  lemma BannerIsRecord(tz: Zone, event: string, detail: string, secs: nat)
    requires FourDigitYear(secs) && '\n' !in event && '\n' !in detail
    ensures var f, h := LocalFormat(tz), WriteBanner(event, detail, secs);
            && WellFormedHead(f, h) && f.stamp(h.mid).None?
            && f.middle(h.mid) == Some(ReadAs(tz, secs))
  {
    hide FormatNow, ParseLocal, BannerMiddle, ClockOf, FourDigitYear, ReadAs;
    StampText(secs);
    StampRoundTrip(tz, secs);
    var prefix := BannerMiddleText(event, detail, secs);
    MiddleRecognised(tz, prefix, FormatNow(secs));
  }

  /** How a banner reads: the event, its detail if any, a run of '=' and the timestamp, 80 characters wide where they leave
      room for four '=' and otherwise with just these; between two rules of 80. */
  lemma BannerLayout(event: string, detail: string, secs: nat) returns (fill: nat)
    ensures var h, left, right := WriteBanner(event, detail, secs), "==  " + event + (if detail == "" then "" else "  " + detail) + "  ",
                                  "  " + FormatNow(secs) + "  ==";
            && h.rule1 == h.rule2 == Repeat('=', 80) && h.mid == left + Repeat('=', fill) + right
            && fill >= 4 && (|h.mid| == 80 || (fill == 4 && |h.mid| > 80))
  {
    hide FormatNow;
    var left := "==  " + event + (if detail == "" then "" else "  " + detail) + "  ";
    var right := "  " + FormatNow(secs) + TAIL;
    fill := if BANNER_WIDTH >= |left| + |right| + 4 then BANNER_WIDTH - |left| - |right| else 4;
  }

  // ----- which timestamps are read

  /** A text with these fields in the places of a timestamp; the characters between them do not matter to the readers. */
  function FieldsText(y: nat, mo: nat, d: nat, h: nat, mi: nat, se: nat, seps: seq<char>): string
    requires |seps| == 5
  {
    Pad(y, 4) + [seps[0]] + Pad(mo, 2) + [seps[1]] + Pad(d, 2) + [seps[2]]
    + Pad(h, 2) + [seps[3]] + Pad(mi, 2) + [seps[4]] + Pad(se, 2)
  }

  /** Where the fields stand, whatever is between them. */
  lemma FieldSlices(y: string, mo: string, d: string, h: string, mi: string, se: string, seps: seq<char>)
    requires |y| == 4 && |mo| == |d| == |h| == |mi| == |se| == 2 && |seps| == 5
    ensures var s := y + [seps[0]] + mo + [seps[1]] + d + [seps[2]] + h + [seps[3]] + mi + [seps[4]] + se;
            && |s| == TS_LEN
            && s[..4] == y && s[5..7] == mo && s[8..10] == d && s[11..13] == h && s[14..16] == mi && s[17..19] == se
  {
  }

  /** Fields of two digits are read as local time exactly when month, day, hour, minute and second are in range; the day is
      not checked against the month. */
  lemma FieldsRead(tz: Zone, y: nat, mo: nat, d: nat, h: nat, mi: nat, se: nat, seps: seq<char>)
    requires |seps| == 5 && y < 10_000 && mo < 100 && d < 100 && h < 100 && mi < 100 && se < 100
    ensures var naive := DaysFromCivil(y, mo, d) * 86400 + h * 3600 + mi * 60 + se;
            ParseLocal(tz, FieldsText(y, mo, d, h, mi, se, seps))
            == if 1 <= mo <= 12 && 1 <= d && h <= 23 && mi <= 59 && se <= 59 then Some(naive - tz(naive - tz(naive))) else None
  {
    hide DaysFromCivil, CheckedDaysFromCivil, Pad, ParseInt, Value;
    PowersOfTen();
    PadIsDigits(y, 4); PadIsDigits(mo, 2); PadIsDigits(d, 2); PadIsDigits(h, 2); PadIsDigits(mi, 2); PadIsDigits(se, 2);
    FieldSlices(Pad(y, 4), Pad(mo, 2), Pad(d, 2), Pad(h, 2), Pad(mi, 2), Pad(se, 2), seps);
    ParsePad(y, 4, I32_MIN, I32_MAX);
    ParsePad(mo, 2, 0, U32_MAX); ParsePad(d, 2, 0, U32_MAX);
    ParsePad(h, 2, 0, U32_MAX); ParsePad(mi, 2, 0, U32_MAX); ParsePad(se, 2, 0, U32_MAX);
    CopiesAgree(y, mo, d);
  }

  /** A line needs one character more than its timestamp, and a banner's middle the closing mark behind it. */
  lemma TooShort(tz: Zone, line: string)
    ensures |line| <= 19 ==> StampOf(tz, line) == None
    ensures |line| <= 22 || line[|line| - 4..] != "  ==" ==> MiddleOf(tz, line) == None
    ensures |line| > 19 ==> StampOf(tz, line) == ParseLocal(tz, line[..19])
    ensures |line| > 22 && line[|line| - 4..] == "  ==" ==> MiddleOf(tz, line) == ParseLocal(tz, line[|line| - 23..|line| - 4])
  {
    hide ParseLocal;
    if |line| > 22 {
      var inner := line[..|line| - 4];
      assert inner[|inner| - 19..] == line[|line| - 23..|line| - 4];
    }
  }
}
