/** The timestamping log writer: buffers partial lines and writes whole ones with a prefix. */
module LogWriter {
  import opened Text

  /** Longest partial line kept in the buffer between writes. */
  const MAX_LOG_BUF := 1024 * 1024

  /** One line with its newline. */
  predicate IsLine(s: string) {
    s != "" && s[|s| - 1] == '\n' && '\n' !in s[..|s| - 1]
  }

  /** The complete lines of `s`, each with its newline, and what follows the last of them. */
  function Complete(s: string): (lines: seq<string>)
    ensures forall i | 0 <= i < |lines| :: IsLine(lines[i])
    decreases |s|
  {
    var n := BeforeNewline(s);
    if n == |s| then []
    else
      assert s[..n + 1][..n] == s[..n];
      [s[..n + 1]] + Complete(s[n + 1..])
  }

  function Rest(s: string): (r: string)
    ensures '\n' !in r
    decreases |s|
  {
    var n := BeforeNewline(s);
    if n == |s| then assert s[..n] == s; s else Rest(s[n + 1..])
  }

  /** One write to the sink: a prefix, the text, and a newline of its own if the line was cut by force. */
  datatype Record = Record(prefix: string, text: string, forced: bool)

  function Bytes(r: Record): string {
    r.prefix + r.text + if r.forced then "\n" else ""
  }

  function Rendered(records: seq<Record>): string {
    if records == [] then "" else Rendered(records[..|records| - 1]) + Bytes(records[|records| - 1])
  }

  function Stamped(prefix: string, lines: seq<string>): (records: seq<Record>)
    ensures |records| == |lines| && forall i | 0 <= i < |lines| :: records[i] == Record(prefix, lines[i], false)
  {
    seq(|lines|, i requires 0 <= i < |lines| => Record(prefix, lines[i], false))
  }

  datatype State = State(buf: string, records: seq<Record>)

  /** The effect of writing `p` at the time of `prefix`. */
  function Written(st: State, prefix: string, p: string): State {
    var all := st.buf + p;
    var records := st.records + Stamped(prefix, Complete(all));
    if |Rest(all)| > MAX_LOG_BUF then State("", records + [Record(prefix, Rest(all), true)])
    else State(Rest(all), records)
  }

  lemma StampNone(prefix: string, lines: seq<string>)
    ensures Stamped(prefix, []) == [] && [] + lines == lines && Rendered([]) == ""
  {
  }

  lemma StampOne(prefix: string, done: seq<string>, line: string, lines: seq<string>)
    ensures Stamped(prefix, done + [line]) == Stamped(prefix, done) + [Record(prefix, line, false)]
    ensures done + ([line] + lines) == done + [line] + lines
  {
  }

  lemma TakeLine(buf: string)
    ensures var n := BeforeNewline(buf);
            if n == |buf| then Complete(buf) == [] && Rest(buf) == buf
            else Complete(buf) == [buf[..n + 1]] + Complete(buf[n + 1..]) && Rest(buf) == Rest(buf[n + 1..])
  {
    hide BeforeNewline;
    if BeforeNewline(buf) == |buf| {
      assert Complete(buf) == [] && Rest(buf) == buf;
    } else {
      var n := BeforeNewline(buf);
      assert Complete(buf) == [buf[..n + 1]] + Complete(buf[n + 1..]);
      assert Rest(buf) == Rest(buf[n + 1..]);
    }
  }

  lemma AppendRecord(records: seq<Record>, r: Record)
    ensures Rendered(records + [r]) == Rendered(records) + Bytes(r)
    ensures r.forced || r.text != "" ==> Bytes(r) != ""
  {
    assert (records + [r])[..|records|] == records;
  }

  /** What a write at the time of `prefix` sends to the sink. */
  function Sent(buf: string, prefix: string, p: string): seq<Record> {
    Written(State(buf, []), prefix, p).records
  }

  class TimestampWriter {
    var buf: string
    var sink: string

    constructor ()
      ensures buf == "" && sink == ""
    {
      buf, sink := "", "";
    }

    /** `fails` is the number of bytes after which the sink gives up, if it does. What was taken from the buffer by then
        is gone. */
    method Write(p: string, prefix: string, fails: Option<nat>) returns (n: Option<nat>)
      modifies this
      ensures n == if fails.Some? && Sent(old(buf), prefix, p) != [] then None else Some(|p|)
      ensures buf == Written(State(old(buf), []), prefix, p).buf
      ensures var bytes := Rendered(Sent(old(buf), prefix, p));
              sink == old(sink) + if n.None? && fails.value < |bytes| then bytes[..fails.value] else bytes
    {
      hide Complete, Rest, BeforeNewline, Rendered, Stamped, Bytes;
      buf := buf + p;
      ghost var all := buf;
      ghost var records: seq<Record>, done: seq<string> := [], [];
      var out := "";
      StampNone(prefix, Complete(all));
      while true
        invariant sink == old(sink) && records == Stamped(prefix, done)
        invariant Rendered(records) == out && (out == "" <==> records == [])
        invariant Complete(all) == done + Complete(buf) && Rest(all) == Rest(buf)
        decreases |buf|
      {
        var idx := BeforeNewline(buf);
        TakeLine(buf);
        if idx == |buf| {
          assert done + [] == done && [] + records == records;
          if |buf| > MAX_LOG_BUF {
            var cut := Record(prefix, buf, true);
            AppendRecord(records, cut);
            out, records, buf := out + Bytes(cut), records + [cut], "";
          }
          break;
        }
        var line := buf[..idx + 1];
        var stamped := Record(prefix, line, false);
        AppendRecord(records, stamped);
        StampOne(prefix, done, line, Complete(buf[idx + 1..]));
        out, records, done := out + Bytes(stamped), records + [stamped], done + [line];
        buf := buf[idx + 1..];
      }
      assert records == Sent(old(buf), prefix, p) && Rendered(records) == out && (out == "" <==> records == []);
      if out != "" {
        if fails.Some? {
          var written := if fails.value < |out| then out[..fails.value] else out;
          sink := sink + written;
          return None;
        }
        sink := sink + out;
      } else {
        assert sink + "" == sink;
      }
      return Some(|p|);
    }
  }

  // ----- every run

  datatype Chunk = Chunk(bytes: string, prefix: string)

  /** The writer after a run of writes. */
  function After(writes: seq<Chunk>): State {
    if writes == [] then State("", [])
    else
      var last := writes[|writes| - 1];
      Written(After(writes[..|writes| - 1]), last.prefix, last.bytes)
  }

  function Input(writes: seq<Chunk>): string {
    if writes == [] then "" else Input(writes[..|writes| - 1]) + writes[|writes| - 1].bytes
  }

  function Joined(texts: seq<string>): string {
    if texts == [] then "" else Joined(texts[..|texts| - 1]) + texts[|texts| - 1]
  }

  function Texts(records: seq<Record>): (texts: seq<string>)
    ensures |texts| == |records| && forall i | 0 <= i < |records| :: texts[i] == records[i].text
  {
    seq(|records|, i requires 0 <= i < |records| => records[i].text)
  }

  lemma {:induction false} JoinedConcat(a: seq<string>, b: seq<string>)
    ensures Joined(a + b) == Joined(a) + Joined(b)
  {
    if b == [] {
      assert a + b == a;
    } else {
      JoinedConcat(a, b[..|b| - 1]);
      assert (a + b)[..|a + b| - 1] == a + b[..|b| - 1];
    }
  }

  /** Lines and rest spell out the text. */
  lemma {:induction false} LinesAndRest(s: string)
    ensures Joined(Complete(s)) + Rest(s) == s
    decreases |s|
  {
    hide Complete, Rest, BeforeNewline;
    TakeLine(s);
    var n := BeforeNewline(s);
    if n < |s| {
      var line, rest := s[..n + 1], s[n + 1..];
      LinesAndRest(rest);
      JoinedConcat([line], Complete(rest));
      assert [line][..0] == [] && Joined([line]) == "" + line;
      assert line + (Joined(Complete(rest)) + Rest(rest)) == line + Joined(Complete(rest)) + Rest(rest);
      assert s == line + rest;
    }
  }

  /** Cutting a text anywhere and completing the rest gives the same lines. */
  lemma {:induction false} LinesConcat(a: string, b: string)
    ensures Complete(a + b) == Complete(a) + Complete(Rest(a) + b)
    ensures Rest(a + b) == Rest(Rest(a) + b)
    decreases |a|
  {
    hide Complete, Rest, BeforeNewline;
    TakeLine(a);
    var n := BeforeNewline(a);
    if n == |a| {
      assert [] + Complete(a + b) == Complete(a + b);
    } else {
      var line, rest := a[..n + 1], a[n + 1..];
      NewlineInFirst(a, b);
      assert (a + b)[..n + 1] == line && (a + b)[n + 1..] == rest + b;
      TakeLine(a + b);
      LinesConcat(rest, b);
      assert [line] + (Complete(rest) + Complete(Rest(a) + b)) == [line] + Complete(rest) + Complete(Rest(a) + b);
    }
  }

  lemma TextsStamped(records: seq<Record>, prefix: string, lines: seq<string>)
    ensures Joined(Texts(records + Stamped(prefix, lines))) == Joined(Texts(records)) + Joined(lines)
  {
    hide Joined;
    assert Texts(records + Stamped(prefix, lines)) == Texts(records) + lines;
    JoinedConcat(Texts(records), lines);
  }

  lemma TextsForced(records: seq<Record>, r: Record)
    ensures Joined(Texts(records + [r])) == Joined(Texts(records)) + r.text
  {
    assert Texts(records + [r]) == Texts(records) + [r.text];
    assert (Texts(records) + [r.text])[..|records|] == Texts(records);
  }

  /** One write loses nothing: texts written, then the buffer, grow by exactly the input. */
  lemma WriteConserves(st: State, prefix: string, p: string)
    ensures var st' := Written(st, prefix, p);
            && Joined(Texts(st'.records)) + st'.buf == Joined(Texts(st.records)) + st.buf + p
            && '\n' !in st'.buf && |st'.buf| <= MAX_LOG_BUF
  {
    hide Complete, Rest, Joined, Texts, Stamped;
    var all := st.buf + p;
    LinesAndRest(all);
    TextsStamped(st.records, prefix, Complete(all));
    if |Rest(all)| > MAX_LOG_BUF {
      TextsForced(st.records + Stamped(prefix, Complete(all)), Record(prefix, Rest(all), true));
    }
    var a, b, c := Joined(Texts(st.records)), Joined(Complete(all)), Rest(all);
    assert a + b + c == a + (b + c) && a + (st.buf + p) == a + st.buf + p && a + b + c + "" == a + b + c;
  }

  lemma EmptyRun()
    ensures Joined(Texts([])) + "" == "" && Texts([]) == [] && Complete("") == [] && Rest("") == ""
  {
  }

  /** Over every run of writes: the buffer holds no newline and at most the limit, and the texts written,
      followed by the buffer, are exactly the input. */
  lemma {:induction false} RunConserves(writes: seq<Chunk>)
    ensures var st := After(writes);
            && Joined(Texts(st.records)) + st.buf == Input(writes)
            && '\n' !in st.buf && |st.buf| <= MAX_LOG_BUF
  {
    hide Written, Joined;
    if writes != [] {
      var front, last := writes[..|writes| - 1], writes[|writes| - 1];
      RunConserves(front);
      WriteConserves(After(front), last.prefix, last.bytes);
    } else {
      EmptyRun();
    }
  }

  /** What reached the sink as whole records when write `i` worked exactly if `works(i)`: a write that fails loses
      what it took from the buffer. */
  function Surviving(writes: seq<Chunk>, works: nat -> bool): seq<Record> {
    if writes == [] then []
    else
      var n := |writes| - 1;
      Surviving(writes[..n], works)
      + if works(n) then Sent(After(writes[..n]).buf, writes[n].prefix, writes[n].bytes) else []
  }

  /** No write failed that had something to send. */
  predicate NothingFailed(writes: seq<Chunk>, works: nat -> bool) {
    writes != [] ==>
      var n := |writes| - 1;
      && NothingFailed(writes[..n], works)
      && (works(n) || Sent(After(writes[..n]).buf, writes[n].prefix, writes[n].bytes) == [])
  }

  lemma SentAdds(st: State, prefix: string, p: string)
    ensures Written(st, prefix, p).records == st.records + Sent(st.buf, prefix, p)
    ensures Written(st, prefix, p).buf == Written(State(st.buf, []), prefix, p).buf
  {
    hide Complete, Rest;
    var lines := Stamped(prefix, Complete(st.buf + p));
    assert [] + lines == lines;
    var cut := [Record(prefix, Rest(st.buf + p), true)];
    assert st.records + lines + cut == st.records + (lines + cut);
  }

  lemma {:induction false} JoinedSome(texts: seq<string>)
    requires texts != [] && forall i | 0 <= i < |texts| :: texts[i] != ""
    ensures Joined(texts) != ""
  {
  }

  lemma TextsConcat(a: seq<Record>, b: seq<Record>)
    ensures Joined(Texts(a + b)) == Joined(Texts(a)) + Joined(Texts(b))
  {
    assert Texts(a + b) == Texts(a) + Texts(b);
    JoinedConcat(Texts(a), Texts(b));
  }

  lemma SentTexts(buf: string, prefix: string, p: string)
    ensures Sent(buf, prefix, p) != [] ==> Joined(Texts(Sent(buf, prefix, p))) != ""
  {
    hide Joined, Complete, Rest;
    var records := Sent(buf, prefix, p);
    if records != [] {
      JoinedSome(Texts(records));
    }
  }

  lemma {:induction false} RenderedConcat(a: seq<Record>, b: seq<Record>)
    ensures Rendered(a + b) == Rendered(a) + Rendered(b)
  {
    hide Bytes;
    if b == [] {
      assert a + b == a && Rendered(a) + "" == Rendered(a);
    } else {
      var front, last := b[..|b| - 1], Bytes(b[|b| - 1]);
      RenderedConcat(a, front);
      assert (a + b)[..|a + b| - 1] == a + front;
      assert Rendered(a) + Rendered(front) + last == Rendered(a) + (Rendered(front) + last);
    }
  }

  /** The bytes that a run without failures leaves in the sink grow by what each write sends. */
  lemma SinkGrows(st: State, prefix: string, p: string)
    ensures Rendered(Written(st, prefix, p).records) == Rendered(st.records) + Rendered(Sent(st.buf, prefix, p))
  {
    hide Written, Sent;
    SentAdds(st, prefix, p);
    RenderedConcat(st.records, Sent(st.buf, prefix, p));
  }

  /** With a sink that can fail: what survives is never more than without failures, and all of it exactly when no write
      failed that had something to send. */
  lemma {:induction false} SurvivingExactly(writes: seq<Chunk>, works: nat -> bool)
    ensures |Joined(Texts(Surviving(writes, works)))| <= |Joined(Texts(After(writes).records))|
    ensures Surviving(writes, works) == After(writes).records <==> NothingFailed(writes, works)
    ensures !NothingFailed(writes, works) ==>
              |Joined(Texts(Surviving(writes, works)))| < |Joined(Texts(After(writes).records))|
  {
    hide Joined, Sent, Written, Texts;
    if writes == [] {
    } else {
      var n := |writes| - 1;
      var front, st := writes[..n], After(writes[..n]);
      var sent := Sent(st.buf, writes[n].prefix, writes[n].bytes);
      SurvivingExactly(front, works);
      SentAdds(st, writes[n].prefix, writes[n].bytes);
      TextsConcat(Surviving(front, works), sent);
      TextsConcat(st.records, sent);
      SentTexts(st.buf, writes[n].prefix, writes[n].bytes);
      assert Surviving(front, works) + [] == Surviving(front, works) && st.records + [] == st.records;
    }
  }

  /** And so the sink and the buffer spell out the input exactly then. */
  lemma SinkConserves(writes: seq<Chunk>, works: nat -> bool)
    ensures Joined(Texts(Surviving(writes, works))) + After(writes).buf == Input(writes) <==> NothingFailed(writes, works)
  {
    hide Joined, Texts, After, Surviving, NothingFailed, Input;
    SurvivingExactly(writes, works);
    RunConserves(writes);
  }

  /** After every write, what follows the last newline of the input so far is within the limit. */
  predicate NeverOverlong(writes: seq<Chunk>) {
    |Rest(Input(writes))| <= MAX_LOG_BUF && (writes != [] ==> NeverOverlong(writes[..|writes| - 1]))
  }

  lemma ForcedShows(records: seq<Record>, i: nat, lines: seq<string>)
    requires i < |records| && '\n' !in records[i].text
    requires forall k | 0 <= k < |lines| :: IsLine(lines[k])
    ensures Texts(records) != lines
  {
    assert Texts(records)[i] == records[i].text;
  }

  /** The lines written are the lines of the input, however it was cut into writes, exactly when no write
      left an overlong partial line behind; a forced cut always shows. */
  lemma {:induction false} LinesIndependentOfSplit(writes: seq<Chunk>)
    ensures NeverOverlong(writes) ==> After(writes).buf == Rest(Input(writes))
    ensures Texts(After(writes).records) == Complete(Input(writes)) <==> NeverOverlong(writes)
    ensures NeverOverlong(writes) || exists i | 0 <= i < |After(writes).records| :: '\n' !in After(writes).records[i].text
  {
    hide Complete, Rest;
    if writes == [] {
      EmptyRun();
    } else {
      var front, last := writes[..|writes| - 1], writes[|writes| - 1];
      LinesIndependentOfSplit(front);
      var st, st', all := After(front), After(writes), After(front).buf + last.bytes;
      if NeverOverlong(front) {
        LinesConcat(Input(front), last.bytes);
        assert Texts(st.records + Stamped(last.prefix, Complete(all))) == Texts(st.records) + Complete(all);
        if |Rest(all)| > MAX_LOG_BUF {
          assert st'.records[|st'.records| - 1].text == Rest(all);
          ForcedShows(st'.records, |st'.records| - 1, Complete(Input(writes)));
        }
      } else {
        var i :| 0 <= i < |st.records| && '\n' !in st.records[i].text;
        assert st'.records[i] == st.records[i];
        ForcedShows(st'.records, i, Complete(Input(writes)));
      }
    }
  }
}
