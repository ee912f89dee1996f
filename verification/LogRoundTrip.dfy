/** From the daemon's writer to the readers: what they show of what a process prints. */
module LogRoundTrip {
  import opened Text
  import opened LogEntries
  import opened LogStamps
  import opened Collections
  import LogFollow
  import LogTail
  import LogWriter

  type Record = LogWriter.Record
  type Chunk = LogWriter.Chunk

  // ----- what the writer emits is a sequence of lines

  /** A record is a line with its newline, or a cut line without. */
  predicate WellMade(r: Record) {
    if r.forced then '\n' !in r.text else LogWriter.IsLine(r.text)
  }

  /** The text of a record without its newline. */
  function Content(r: Record): string {
    if r.forced || r.text == "" then r.text else r.text[..|r.text| - 1]
  }

  function Lines(records: seq<Record>): (lines: seq<string>)
    ensures |lines| == |records|
    ensures forall i | 0 <= i < |records| :: lines[i] == records[i].prefix + Content(records[i])
  {
    seq(|records|, i requires 0 <= i < |records| => records[i].prefix + Content(records[i]))
  }

  lemma {:induction false} TerminatedLast(lines: seq<string>, line: string)
    ensures Terminated(lines + [line]) == Terminated(lines) + line + "\n"
  {
    if lines == [] {
      assert [line][1..] == [] && line + "\n" + "" == line + "\n" && "" + line == line;
    } else {
      TerminatedLast(lines[1..], line);
      assert (lines + [line])[1..] == lines[1..] + [line];
      var a, b := lines[0] + "\n", Terminated(lines[1..]);
      assert a + (b + line + "\n") == a + b + line + "\n";
    }
  }

  lemma RecordBytes(r: Record)
    requires WellMade(r)
    ensures LogWriter.Bytes(r) == r.prefix + Content(r) + "\n"
  {
    if !r.forced {
      assert r.text == Content(r) + "\n";
      assert r.prefix + r.text + "" == r.prefix + (Content(r) + "\n") == r.prefix + Content(r) + "\n";
    }
  }

  lemma {:induction false} RenderedLines(records: seq<Record>)
    requires forall i | 0 <= i < |records| :: WellMade(records[i])
    ensures LogWriter.Rendered(records) == Terminated(Lines(records))
  {
    hide Content, WellMade;
    if records == [] {
      assert Lines(records) == [];
    } else {
      var front, r := records[..|records| - 1], records[|records| - 1];
      var line := r.prefix + Content(r);
      RenderedLines(front);
      RecordBytes(r);
      assert Lines(records) == Lines(front) + [line];
      TerminatedLast(Lines(front), line);
      var a := Terminated(Lines(front));
      assert a + (line + "\n") == a + line + "\n";
    }
  }

  // ----- the time of every record

  /** Bytes that a process printed, and when. */
  datatype Output = Output(bytes: string, secs: nat)

  /** The writes that they become. */
  function Writes(output: seq<Output>): (writes: seq<Chunk>)
    ensures |writes| == |output|
    ensures forall i | 0 <= i < |output| :: writes[i] == LogWriter.Chunk(output[i].bytes, Prefix(output[i].secs))
  {
    seq(|output|, i requires 0 <= i < |output| => LogWriter.Chunk(output[i].bytes, Prefix(output[i].secs)))
  }

  ghost predicate InTime(output: seq<Output>) {
    forall i | 0 <= i < |output| :: FourDigitYear(output[i].secs)
  }

  /** Number of records that a write adds. */
  function Added(st: LogWriter.State, p: string): nat {
    var all := st.buf + p;
    |LogWriter.Complete(all)| + if |LogWriter.Rest(all)| > LogWriter.MAX_LOG_BUF then 1 else 0
  }

  /** For every record the time of the write that completed it. */
  function RecordTimes(output: seq<Output>): seq<nat> {
    if output == [] then []
    else
      var n := |output| - 1;
      RecordTimes(output[..n]) + Repeat(output[n].secs, Added(LogWriter.After(Writes(output[..n])), output[n].bytes))
  }

  /** The records carry these times. */
  ghost predicate Timed(records: seq<Record>, ts: seq<nat>) {
    && |ts| == |records|
    && forall i | 0 <= i < |records| ::
         WellMade(records[i]) && FourDigitYear(ts[i]) && records[i].prefix == Prefix(ts[i])
  }

  lemma WriteTimed(st: LogWriter.State, ts: seq<nat>, t: nat, p: string)
    requires Timed(st.records, ts) && FourDigitYear(t)
    ensures Timed(LogWriter.Written(st, Prefix(t), p).records, ts + Repeat(t, Added(st, p)))
  {
    hide Prefix, FourDigitYear, LogWriter.Complete, LogWriter.Rest;
    var st' := LogWriter.Written(st, Prefix(t), p);
    var lines := LogWriter.Complete(st.buf + p);
    forall i | 0 <= i < |st'.records|
      ensures WellMade(st'.records[i]) && st'.records[i].prefix == Prefix((ts + Repeat(t, Added(st, p)))[i])
    {
      if |ts| <= i < |ts| + |lines| {
        assert st'.records[i].text == lines[i - |ts|];
      }
    }
  }

  lemma {:induction false} RunTimed(output: seq<Output>)
    requires InTime(output)
    ensures Timed(LogWriter.After(Writes(output)).records, RecordTimes(output))
  {
    hide Prefix, FourDigitYear, LogWriter.Written, Added;
    if output == [] {
      assert Writes(output) == [];
    } else {
      var n := |output| - 1;
      var front, last := output[..n], output[n];
      RunTimed(front);
      assert Writes(output)[..n] == Writes(front);
      WriteTimed(LogWriter.After(Writes(front)), RecordTimes(front), last.secs, last.bytes);
    }
  }

  // ----- the readers

  /** No record ends in a carriage return, which the follower would strip. */
  ghost predicate NoReturns(records: seq<Record>) {
    forall i | 0 <= i < |records| :: Content(records[i]) != "" ==> Content(records[i])[|Content(records[i])| - 1] != '\r'
  }

  function HeadOf(r: Record): Block {
    Block(Stamped(r.prefix + Content(r)), [])
  }

  function EntryShown(tz: Zone, r: Record, t: nat, tag: string, seqNo: nat): Entry {
    Entry(Some(ReadAs(tz, t)), tag, TrimStart(Content(r)), seqNo, true)
  }

  function Heads(records: seq<Record>): (blocks: seq<Block>)
    ensures |blocks| == |records|
    ensures forall i | 0 <= i < |records| :: blocks[i] == HeadOf(records[i])
  {
    seq(|records|, i requires 0 <= i < |records| => HeadOf(records[i]))
  }

  /** One entry per record: its text without leading white space, at the time its timestamp is read as. */
  function Shown(tz: Zone, records: seq<Record>, ts: seq<nat>, tag: string, seqNo: nat): (es: seq<Entry>)
    requires |ts| == |records|
    ensures |es| == |records|
    ensures forall i | 0 <= i < |records| :: es[i] == EntryShown(tz, records[i], ts[i], tag, seqNo + i)
  {
    seq(|records|, i requires 0 <= i < |records| => EntryShown(tz, records[i], ts[i], tag, seqNo + i))
  }

  lemma {:induction false} FlattenHeads(records: seq<Record>)
    ensures Flatten(Heads(records)) == Lines(records)
  {
    hide Content, WellMade;
    if records == [] {
      assert Heads(records) == [] && Lines(records) == [];
    } else {
      FlattenHeads(records[1..]);
      assert Heads(records)[1..] == Heads(records[1..]);
      assert Lines(records) == [Lines(records)[0]] + Lines(records[1..]);
      assert BlockLines(Heads(records)[0]) == [Lines(records)[0]];
    }
  }

  lemma AfterStamp(stamp: string, text: string)
    requires |stamp| == TS_LEN
    ensures var line := stamp + " " + text; |line| > TS_LEN && TrimStart(line[TS_LEN..]) == TrimStart(text)
  {
    var line := stamp + " " + text;
    assert line[TS_LEN..] == " " + text;
    assert (" " + text)[1..] == text;
  }

  lemma StampLength(t: nat)
    requires FourDigitYear(t)
    ensures |FormatNow(t)| == TS_LEN
  {
    StampText(t);
  }

  lemma BodyOf(t: nat, text: string)
    requires FourDigitYear(t)
    ensures var line := Prefix(t) + text; |line| > TS_LEN && TrimStart(line[TS_LEN..]) == TrimStart(text)
  {
    hide FormatNow, FourDigitYear, TrimStart;
    StampLength(t);
    AfterStamp(FormatNow(t), text);
  }

  lemma LineRead(tz: Zone, t: nat, text: string, tag: string, seqNo: nat)
    requires FourDigitYear(t) && '\n' !in text && (text != "" ==> text[|text| - 1] != '\r')
    ensures var b := Block(LoggedLine(t, text), []);
            && WellFormed(LocalFormat(tz), b)
            && EntryOf(LocalFormat(tz), b, tag, seqNo) == Entry(Some(ReadAs(tz, t)), tag, TrimStart(text), seqNo, true)
  {
    hide FormatNow, ReadAs, FourDigitYear, StampOf, MiddleOf, WholeLine, TrimStart;
    LoggedLineIsRecord(tz, t, text);
    BodyOf(t, text);
  }

  lemma TextOf(r: Record)
    requires WellMade(r)
    ensures '\n' !in Content(r)
  {
  }

  lemma HeadsFirst(records: seq<Record>)
    requires records != []
    ensures Heads(records) == [HeadOf(records[0])] + Heads(records[1..])
  {
  }

  lemma ShownFirst(tz: Zone, records: seq<Record>, ts: seq<nat>, tag: string, seqNo: nat)
    requires |ts| == |records| && records != []
    ensures Shown(tz, records, ts, tag, seqNo)
         == [EntryShown(tz, records[0], ts[0], tag, seqNo)] + Shown(tz, records[1..], ts[1..], tag, seqNo + 1)
  {
    hide ReadAs, TrimStart, Content;
  }

  lemma {:induction false} HeadsRead(tz: Zone, records: seq<Record>, ts: seq<nat>, tag: string, seqNo: nat)
    requires Timed(records, ts) && NoReturns(records)
    ensures forall i | 0 <= i < |records| :: WellFormed(LocalFormat(tz), Heads(records)[i])
    ensures EntriesOf(LocalFormat(tz), Heads(records), tag, seqNo) == Shown(tz, records, ts, tag, seqNo)
    decreases |records|
  {
    hide LocalFormat, Prefix, FourDigitYear, WellFormed, EntryOf, Content, WellMade, ReadAs, TrimStart;
    var f := LocalFormat(tz);
    if records == [] {
      assert Heads(records) == [] && Shown(tz, records, ts, tag, seqNo) == [];
    } else {
      var rest := Heads(records[1..]);
      TextOf(records[0]);
      LineRead(tz, ts[0], Content(records[0]), tag, seqNo);
      HeadsRead(tz, records[1..], ts[1..], tag, seqNo + 1);
      HeadsFirst(records);
      ShownFirst(tz, records, ts, tag, seqNo);
      hide Heads, Shown, HeadOf, EntryShown;
      var blocks := [HeadOf(records[0])] + rest;
      assert blocks[1..] == rest;
      assert forall i | 0 < i < |records| :: blocks[i] == rest[i - 1];
    }
  }

  lemma {:induction false} HeadsUnambiguous(f: LogFormat, records: seq<Record>)
    ensures LogTail.AllUnambiguous(f, Heads(records))
    decreases |records|
  {
    if records == [] {
    } else {
      HeadsUnambiguous(f, records[1..]);
      assert Heads(records)[1..] == Heads(records[1..]);
    }
  }

  /** What the batch reader shows of the file that a run of writes left behind. */
  lemma BatchShows(tz: Zone, records: seq<Record>, ts: seq<nat>, tag: string, seqNo: nat)
    requires Timed(records, ts) && NoReturns(records)
    ensures ParseOnto(LocalFormat(tz), Split(LogWriter.Rendered(records), '\n'), tag, [], seqNo)
         == (Shown(tz, records, ts, tag, seqNo), seqNo + |records|)
    ensures LogText(Heads(records)) == LogWriter.Rendered(records)
    ensures LogTail.Readable(LocalFormat(tz), Heads(records))
    ensures EntriesOf(LocalFormat(tz), Heads(records), tag, seqNo) == Shown(tz, records, ts, tag, seqNo)
  {
    hide LocalFormat, Prefix, FourDigitYear, Shown, EntriesOf, ParseOnto, Split, Sane, WellFormed, LogTail.AllUnambiguous;
    hide Terminated, Flatten, Heads, Lines, Content, WellMade, NoReturns, LogWriter.Rendered;
    RenderedLines(records);
    FlattenHeads(records);
    HeadsRead(tz, records, ts, tag, seqNo);
    LocalFormatSane(tz);
    HeadsUnambiguous(LocalFormat(tz), records);
    ReadInvertsLogText(LocalFormat(tz), Heads(records), tag, seqNo);
  }

  /** The file as the follower meets it, with any number of idle polls after each line. */
  function Followed(records: seq<Record>, polls: nat -> nat): (log: seq<LogFollow.Paced>)
    ensures |log| == |records|
    ensures forall i | 0 <= i < |records| ::
              log[i] == LogFollow.Paced(Stamped(records[i].prefix + Content(records[i])), 0, 0, [], polls(i))
  {
    seq(|records|, i requires 0 <= i < |records| =>
          LogFollow.Paced(Stamped(records[i].prefix + Content(records[i])), 0, 0, [], polls(i)))
  }

  lemma FollowedHeads(records: seq<Record>, polls: nat -> nat)
    ensures LogFollow.Blocks(Followed(records, polls)) == Heads(records)
    ensures forall i | 0 <= i < |records| :: LogFollow.Unpaced(Followed(records, polls)[i]) == Heads(records)[i]
  {
    hide Content, WellMade;
    var log := Followed(records, polls);
    forall i | 0 <= i < |records|
      ensures LogFollow.Unpaced(log[i]) == Heads(records)[i]
    {
      assert LogFollow.ContLines([]) == [];
    }
  }

  lemma SameLength(records: seq<Record>, ts: seq<nat>)
    requires Timed(records, ts)
    ensures |ts| == |records|
  {
  }

  /** All three readers show the records of the writer, the tail reader the last `n`. */
  ghost predicate ReadersShow(tz: Zone, records: seq<Record>, ts: seq<nat>, polls: nat -> nat, tag: string, n: nat, seqNo: nat)
    requires |ts| == |records|
  {
    var f, file := LocalFormat(tz), LogWriter.Rendered(records);
    && ParseOnto(f, Split(file, '\n'), tag, [], seqNo).0 == Shown(tz, records, ts, tag, seqNo)
    && LogFollow.Steps(f, tag, LogFollow.FollowState(None, [], seqNo, []),
                       LogFollow.Events(Followed(records, polls)) + [LogFollow.Idle]).sent
       == Shown(tz, records, ts, tag, seqNo)
    && LogTail.Unnumbered(LogTail.Tail(f, file, tag, n, seqNo).entries)
       == LogTail.LastN(LogTail.Unnumbered(Shown(tz, records, ts, tag, 0)), n)
  }

  lemma FollowedUndisturbed(records: seq<Record>, polls: nat -> nat)
    ensures |Followed(records, polls)| == |records|
    ensures forall i | 0 <= i < |records| :: LogFollow.Undisturbed(Followed(records, polls)[i])
  {
  }

  lemma FollowerShows(tz: Zone, records: seq<Record>, ts: seq<nat>, polls: nat -> nat, tag: string, seqNo: nat)
    requires Timed(records, ts) && NoReturns(records)
    ensures |ts| == |records|
         && LogFollow.Steps(LocalFormat(tz), tag, LogFollow.FollowState(None, [], seqNo, []),
                            LogFollow.Events(Followed(records, polls)) + [LogFollow.Idle]).sent
            == Shown(tz, records, ts, tag, seqNo)
  {
    SameLength(records, ts);
    hide LocalFormat, Shown, EntriesOf, ParseOnto, Split, Timed, LogWriter.Rendered, Heads, Followed;
    hide LogFollow.Steps, LogFollow.Events, LogFollow.FollowedAll, Sane, WellFormed, NoReturns, LogText, LogTail.AllUnambiguous;
    BatchShows(tz, records, ts, tag, seqNo);
    FollowedHeads(records, polls);
    FollowedUndisturbed(records, polls);
    LogFollow.FollowerMatchesBatch(LocalFormat(tz), tag, seqNo, Followed(records, polls));
  }

  lemma HeadsShape(records: seq<Record>)
    ensures var shape := LogTail.Shape(Heads(records)); forall i | 0 <= i < |shape| :: |shape[i]| == 1
  {
    hide Content;
  }

  lemma TailShows(tz: Zone, records: seq<Record>, ts: seq<nat>, tag: string, n: nat, seqNo: nat)
    requires Timed(records, ts) && NoReturns(records)
    ensures |ts| == |records|
         && LogTail.Unnumbered(LogTail.Tail(LocalFormat(tz), LogWriter.Rendered(records), tag, n, seqNo).entries)
            == LogTail.LastN(LogTail.Unnumbered(Shown(tz, records, ts, tag, 0)), n)
  {
    SameLength(records, ts);
    hide LocalFormat, Shown, EntriesOf, ParseOnto, Split, Timed, LogWriter.Rendered, Heads, NoReturns, LogText;
    hide LogTail.Tail, LogTail.StopAt, LogTail.Unnumbered, LogTail.LastN, LogTail.CutsRecord, LogTail.AllUnambiguous, LogTail.Shape;
    hide Sane, WellFormed;
    BatchShows(tz, records, ts, tag, 0);
    LogTail.TailReturnsLastEntries(LocalFormat(tz), Heads(records), tag, n, seqNo);
    HeadsShape(records);
    var shape := LogTail.Shape(Heads(records));
    LogTail.OneLineNeverCut(shape, LogTail.StopAt(shape, n));
  }

  lemma RecordsShown(tz: Zone, records: seq<Record>, ts: seq<nat>, polls: nat -> nat, tag: string, n: nat, seqNo: nat)
    requires Timed(records, ts) && NoReturns(records)
    ensures |ts| == |records| && ReadersShow(tz, records, ts, polls, tag, n, seqNo)
  {
    hide LocalFormat, Shown, EntriesOf, ParseOnto, Split, Timed, LogWriter.Rendered, Heads, NoReturns, LogText, LogTail.Readable;
    hide LogTail.Tail, LogTail.Unnumbered, LogTail.LastN, LogFollow.Steps, LogFollow.Events, Followed;
    SameLength(records, ts);
    BatchShows(tz, records, ts, tag, seqNo);
    FollowerShows(tz, records, ts, polls, tag, seqNo);
    TailShows(tz, records, ts, tag, n, seqNo);
  }

  /** The readers show the text of these records as it was printed. */
  ghost predicate TextsShown(records: seq<Record>, es: seq<Entry>)
    requires |es| == |records|
  {
    forall i | 0 <= i < |records| :: es[i].body == Content(records[i])
  }

  /** No record begins with white space, as the lines of a stack trace would. */
  ghost predicate Unindented(records: seq<Record>) {
    forall i | 0 <= i < |records| :: Content(records[i]) == "" || !IsWhitespace(Content(records[i])[0])
  }

  /** Of an indented line the readers drop the indentation, of any other nothing. */
  lemma IndentationLost(tz: Zone, records: seq<Record>, ts: seq<nat>, tag: string, seqNo: nat)
    requires |ts| == |records|
    ensures TextsShown(records, Shown(tz, records, ts, tag, seqNo)) <==> Unindented(records)
  {
    hide TrimStart, IsWhitespace, Content, ReadAs;
    var es := Shown(tz, records, ts, tag, seqNo);
    forall i | 0 <= i < |records|
      ensures es[i].body == Content(records[i]) <==> Content(records[i]) == "" || !IsWhitespace(Content(records[i])[0])
    {
      var k := TrimStartExactly(Content(records[i]));
    }
  }

  /** For every run of writes, however the output was cut into them, whose records do not end in a carriage
      return: the batch reader, the follower with idle polls anywhere, and the tail reader show one entry per
      record, the tail reader the last `n` of them; the text is shown as printed exactly when no record begins with white
      space; and the records are the lines of the output exactly when no
      write left an overlong partial line behind. */
  lemma ReadersShowOutput(tz: Zone, output: seq<Output>, polls: nat -> nat, tag: string, n: nat, seqNo: nat)
    requires InTime(output)
    ensures var records, ts := LogWriter.After(Writes(output)).records, RecordTimes(output);
            |ts| == |records| && (NoReturns(records) ==> ReadersShow(tz, records, ts, polls, tag, n, seqNo))
    ensures var records, ts := LogWriter.After(Writes(output)).records, RecordTimes(output);
            |ts| == |records| && (TextsShown(records, Shown(tz, records, ts, tag, seqNo)) <==> Unindented(records))
    ensures LogWriter.Texts(LogWriter.After(Writes(output)).records) == LogWriter.Complete(LogWriter.Input(Writes(output)))
       <==> LogWriter.NeverOverlong(Writes(output))
  {
    hide TextsShown, Unindented, Shown, ReadersShow, NoReturns, Timed, LogWriter.After, LogWriter.Complete, LogWriter.NeverOverlong, RecordTimes;
    var records, ts := LogWriter.After(Writes(output)).records, RecordTimes(output);
    RunTimed(output);
    SameLength(records, ts);
    LogWriter.LinesIndependentOfSplit(Writes(output));
    IndentationLost(tz, records, ts, tag, seqNo);
    if NoReturns(records) {
      RecordsShown(tz, records, ts, polls, tag, n, seqNo);
    }
  }

  // ----- banners

  /** The text of a lifecycle banner, which the daemon passes to the writer like a process's output. */
  function BannerText(event: string, detail: string, secs: nat): string {
    Terminated(HeadLines(WriteBanner(event, detail, secs)))
  }

  function WithNewlines(lines: seq<string>): (r: seq<string>)
    ensures |r| == |lines| && forall i | 0 <= i < |lines| :: r[i] == lines[i] + "\n"
  {
    seq(|lines|, i requires 0 <= i < |lines| => lines[i] + "\n")
  }

  lemma {:induction false} CompleteTerminated(lines: seq<string>)
    requires forall i | 0 <= i < |lines| :: '\n' !in lines[i]
    ensures LogWriter.Complete(Terminated(lines)) == WithNewlines(lines) && LogWriter.Rest(Terminated(lines)) == ""
  {
    hide LogWriter.Complete, LogWriter.Rest;
    if lines == [] {
      LogWriter.EmptyRun();
      assert WithNewlines(lines) == [];
    } else {
      var line, more := lines[0], Terminated(lines[1..]);
      var text := line + ("\n" + more);
      CompleteTerminated(lines[1..]);
      assert Terminated(lines) == text;
      NewlineFrom(line, "\n" + more);
      LogWriter.TakeLine(text);
      assert text[..|line| + 1] == line + "\n" && text[|line| + 1..] == more;
      assert WithNewlines(lines) == [line + "\n"] + WithNewlines(lines[1..]);
    }
  }

  lemma BannerLinesWhole(event: string, detail: string, secs: nat)
    requires '\n' !in event && '\n' !in detail && FourDigitYear(secs)
    ensures var h := WriteBanner(event, detail, secs);
            && h.Banner? && '\n' !in h.rule1 && '\n' !in h.mid && '\n' !in h.rule2
            && h.rule1 == h.rule2 && IsBannerRule(h.rule1) && |h.mid| > 0 && h.mid[0] == '=' && h.mid[|h.mid| - 1] == '='
  {
    hide FormatNow, ReadAs, StampOf, MiddleOf, FourDigitYear;
    BannerIsRecord(_ => 0, event, detail, secs);
    var prefix := BannerMiddleText(event, detail, secs);
    var mid := BannerMiddle(event, detail, secs);
    assert mid == prefix + FormatNow(secs) + TAIL;
  }

  lemma BannerBehind(buf: string, h: Head)
    requires h.Banner?
    ensures buf + Terminated(HeadLines(h)) == Terminated([buf + h.rule1, h.mid, h.rule2])
  {
    var rest := [h.mid, h.rule2];
    assert HeadLines(h)[1..] == rest && [buf + h.rule1, h.mid, h.rule2][1..] == rest;
    assert buf + (h.rule1 + "\n" + Terminated(rest)) == buf + h.rule1 + "\n" + Terminated(rest);
  }

  /** The writer puts a timestamp in front of each of the three lines of a banner, the first of them behind what was
      left of the output. */
  lemma BannerWritten(st: LogWriter.State, prefix: string, event: string, detail: string, secs: nat)
    requires '\n' !in st.buf && '\n' !in event && '\n' !in detail && FourDigitYear(secs)
    ensures var h, st' := WriteBanner(event, detail, secs), LogWriter.Written(st, prefix, BannerText(event, detail, secs));
            && st'.buf == ""
            && st'.records == st.records + [LogWriter.Record(prefix, st.buf + h.rule1 + "\n", false),
                                            LogWriter.Record(prefix, h.mid + "\n", false),
                                            LogWriter.Record(prefix, h.rule2 + "\n", false)]
  {
    hide LogWriter.Complete, LogWriter.Rest, Terminated, WriteBanner, FourDigitYear;
    var h := WriteBanner(event, detail, secs);
    BannerLinesWhole(event, detail, secs);
    var lines := [st.buf + h.rule1, h.mid, h.rule2];
    CompleteTerminated(lines);
    BannerBehind(st.buf, h);
  }

  /** A run that ends with a banner written at time `at`. */
  function WithBanner(output: seq<Output>, event: string, detail: string, secs: nat, at: nat): seq<Output> {
    output + [Output(BannerText(event, detail, secs), at)]
  }

  lemma BannerRecords(output: seq<Output>, event: string, detail: string, secs: nat, at: nat)
    requires FourDigitYear(secs) && '\n' !in event && '\n' !in detail
    ensures var st, h := LogWriter.After(Writes(output)), WriteBanner(event, detail, secs);
            LogWriter.After(Writes(WithBanner(output, event, detail, secs, at))).records
            == st.records + [LogWriter.Record(Prefix(at), st.buf + h.rule1 + "\n", false),
                             LogWriter.Record(Prefix(at), h.mid + "\n", false),
                             LogWriter.Record(Prefix(at), h.rule2 + "\n", false)]
  {
    hide LogWriter.Written, FourDigitYear, Prefix, WriteBanner, BannerText;
    var st, out := LogWriter.After(Writes(output)), WithBanner(output, event, detail, secs, at);
    assert Writes(out)[..|output|] == Writes(output);
    LogWriter.RunConserves(Writes(output));
    BannerWritten(st, Prefix(at), event, detail, secs);
  }

  lemma ContentOf(prefix: string, text: string)
    ensures Content(LogWriter.Record(prefix, text + "\n", false)) == text
  {
  }

  lemma StartsVisible(text: string)
    requires text != "" && text[0] == '='
    ensures TrimStart(text) == text
  {
  }

  /** What the readers show of the three lines of a banner `h` behind `buf`: three entries of their own. */
  ghost predicate ThreeEntries(es: seq<Entry>, buf: string, h: Head, ts: int) {
    && |es| == 3 && h.Banner?
    && es[0].body == TrimStart(buf + h.rule1) && es[1].body == h.mid && es[2].body == h.rule2
    && forall i | 0 <= i < 3 :: es[i].ts == Some(ts)
  }

  lemma BannerEntries(tz: Zone, before: seq<Record>, buf: string, h: Head, at: nat, ts: seq<nat>, tag: string, seqNo: nat)
    requires h.Banner? && h.rule2 != "" && h.rule2[0] == '=' && h.mid != "" && h.mid[0] == '='
    requires |ts| == |before| + 3 && forall i | |before| <= i < |ts| :: ts[i] == at
    ensures var records := before + [LogWriter.Record(Prefix(at), buf + h.rule1 + "\n", false),
                                     LogWriter.Record(Prefix(at), h.mid + "\n", false),
                                     LogWriter.Record(Prefix(at), h.rule2 + "\n", false)];
            ThreeEntries(Shown(tz, records, ts, tag, seqNo)[|before|..], buf, h, ReadAs(tz, at))
  {
    hide Prefix, Content, TrimStart, ReadAs;
    ContentOf(Prefix(at), buf + h.rule1);
    ContentOf(Prefix(at), h.mid);
    ContentOf(Prefix(at), h.rule2);
    StartsVisible(h.mid);
    StartsVisible(h.rule2);
  }

  lemma BannerNoReturns(before: seq<Record>, buf: string, h: Head, prefix: string)
    requires h.Banner? && h.rule1 != "" && h.rule1[|h.rule1| - 1] == '=' && h.rule2 == h.rule1
    requires h.mid != "" && h.mid[|h.mid| - 1] == '=' && NoReturns(before)
    ensures NoReturns(before + [LogWriter.Record(prefix, buf + h.rule1 + "\n", false),
                                LogWriter.Record(prefix, h.mid + "\n", false),
                                LogWriter.Record(prefix, h.rule2 + "\n", false)])
  {
    hide Content;
    ContentOf(prefix, buf + h.rule1);
    ContentOf(prefix, h.mid);
    ContentOf(prefix, h.rule2);
  }

  lemma BannerTimes(output: seq<Output>, event: string, detail: string, secs: nat, at: nat)
    ensures var ts, out := RecordTimes(output), RecordTimes(WithBanner(output, event, detail, secs, at));
            ts <= out && forall i | |ts| <= i < |out| :: out[i] == at
  {
    hide Added, BannerText;
    var out := WithBanner(output, event, detail, secs, at);
    assert out[..|output|] == output;
  }

  /** A banner that the daemon writes is no banner to the readers: after any run of writes they show its three lines as
      three entries, the first with what was left of the output before it. */
  lemma BannerShownAsLines(tz: Zone, output: seq<Output>, event: string, detail: string, secs: nat, at: nat,
                           polls: nat -> nat, tag: string, n: nat, seqNo: nat)
    requires InTime(output) && FourDigitYear(secs) && FourDigitYear(at) && '\n' !in event && '\n' !in detail
    ensures var st, h := LogWriter.After(Writes(output)), WriteBanner(event, detail, secs);
            var out := WithBanner(output, event, detail, secs, at);
            var records, ts := LogWriter.After(Writes(out)).records, RecordTimes(out);
            && |ts| == |records| == |st.records| + 3
            && (NoReturns(st.records) ==> ReadersShow(tz, records, ts, polls, tag, n, seqNo))
            && ThreeEntries(Shown(tz, records, ts, tag, seqNo)[|st.records|..], st.buf, h, ReadAs(tz, at))
  {
    hide LogWriter.After, LogWriter.Written, ReadersShow, FourDigitYear, Prefix, WriteBanner, BannerText, ReadAs, Timed;
    hide ThreeEntries, Shown, NoReturns, RecordTimes, TextsShown, Unindented, LogWriter.NeverOverlong;
    var st, h := LogWriter.After(Writes(output)), WriteBanner(event, detail, secs);
    var out := WithBanner(output, event, detail, secs, at);
    assert InTime(out);
    RunTimed(output);
    SameLength(st.records, RecordTimes(output));
    ReadersShowOutput(tz, out, polls, tag, n, seqNo);
    BannerRecords(output, event, detail, secs, at);
    BannerTimes(output, event, detail, secs, at);
    BannerLinesWhole(event, detail, secs);
    BannerEntries(tz, st.records, st.buf, h, at, RecordTimes(out), tag, seqNo);
    if NoReturns(st.records) {
      BannerNoReturns(st.records, st.buf, h, Prefix(at));
    }
  }
}
