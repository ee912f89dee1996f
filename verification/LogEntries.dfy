/** The batch log parser: lines to entries, with continuation folding and lifecycle banners. */
module LogEntries {
  import opened Text
  import opened Collections

  /** Width of the timestamp prefix. */
  const TS_LEN := 19

  /** One log record; multi-line bodies fold under one timestamp. */
  datatype Entry = Entry(ts: Option<int>, tag: string, body: string, seqNo: nat, hasTs: bool)

  /** How timestamps are recognised: at the head of a line, and in the middle line of a banner. */
  datatype LogFormat = LogFormat(stamp: string -> Option<int>, middle: string -> Option<int>)

  predicate IsBannerRule(line: string) {
    |line| >= 8 && forall i | 0 <= i < |line| :: line[i] == '='
  }

  /** A rule is a run of eight '=' or more. */
  lemma RuleLengths(n: nat, line: string)
    ensures IsBannerRule(Repeat('=', n)) <==> n >= 8
    ensures IsBannerRule(line) ==> line == Repeat('=', |line|)
  {
  }

  /** A run of '=' is never a stamped line nor the middle of a banner, and neither is an empty line. */
  ghost predicate Sane(f: LogFormat) {
    forall line :: line == "" || IsBannerRule(line) ==> f.stamp(line).None? && f.middle(line).None?
  }

  function StampedEntry(ts: int, line: string, tag: string, seqNo: nat): Entry {
    Entry(Some(ts), tag, if |line| > TS_LEN then TrimStart(line[TS_LEN..]) else "", seqNo, true)
  }

  function BannerEntry(ts: int, rule1: string, mid: string, rule2: string, tag: string, seqNo: nat): Entry {
    Entry(Some(ts), tag, rule1 + "\n" + mid + "\n" + rule2, seqNo, true)
  }

  function HeadlessEntry(line: string, tag: string, seqNo: nat): Entry {
    Entry(None, tag, line, seqNo, false)
  }

  function Continued(e: Entry, line: string): Entry {
    e.(body := e.body + "\n" + line)
  }

  function TryConsumeBanner(f: LogFormat, rule1: string, mid: string, rule2: string, tag: string, seqNo: nat)
    : Option<Entry>
  {
    if !IsBannerRule(rule1) || !IsBannerRule(rule2) then None
    else match f.middle(mid)
      case None => None
      case Some(ts) => Some(BannerEntry(ts, rule1, mid, rule2, tag, seqNo))
  }

  /** What the parser does with the first of the remaining lines: how many lines it takes,
      the entries it then has, and the next sequence number. */
  function ParseStep(f: LogFormat, lines: seq<string>, tag: string, out: seq<Entry>, seqNo: nat)
    : (r: (nat, seq<Entry>, nat))
    requires lines != []
    ensures 1 <= r.0 <= |lines|
  {
    if lines[0] == "" then (1, out, seqNo)
    else
      var banner := if |lines| > 2 then TryConsumeBanner(f, lines[0], lines[1], lines[2], tag, seqNo) else None;
      if banner.Some? then (3, out + [banner.value], seqNo + 1)
      else match f.stamp(lines[0])
        case Some(ts) => (1, out + [StampedEntry(ts, lines[0], tag, seqNo)], seqNo + 1)
        case None =>
          if out != [] then (1, out[..|out| - 1] + [Continued(out[|out| - 1], lines[0])], seqNo)
          else (1, [HeadlessEntry(lines[0], tag, seqNo)], seqNo + 1)
  }

  /** Entries read from `lines` on top of those already in `out`, and the next sequence number. */
  function ParseOnto(f: LogFormat, lines: seq<string>, tag: string, out: seq<Entry>, seqNo: nat)
    : (r: (seq<Entry>, nat))
    decreases |lines|
  {
    if lines == [] then (out, seqNo)
    else
      var (taken, out', seqNo') := ParseStep(f, lines, tag, out, seqNo);
      ParseOnto(f, lines[taken..], tag, out', seqNo')
  }

  /** The source's loop over an index, with the last entry edited in place. */
  method ReadEntries(f: LogFormat, input: string, tag: string, startSeq: nat) returns (out: seq<Entry>, seqNo: nat)
    ensures (out, seqNo) == ParseOnto(f, Split(input, '\n'), tag, [], startSeq)
  {
    out, seqNo := [], startSeq;
    var lines := Split(input, '\n');
    var i := 0;
    while i < |lines|
      invariant 0 <= i <= |lines|
      invariant ParseOnto(f, lines[i..], tag, out, seqNo) == ParseOnto(f, lines, tag, [], startSeq)
    {
      var line := lines[i];
      ghost var rest := lines[i..];
      assert rest[1..] == lines[i + 1..];
      if line == "" {
        i := i + 1;
        continue;
      }
      if IsBannerRule(line) && i + 2 < |lines| {
        assert rest[3..] == lines[i + 3..];
        var e := TryConsumeBanner(f, lines[i], lines[i + 1], lines[i + 2], tag, seqNo);
        if e.Some? {
          out, seqNo, i := out + [e.value], seqNo + 1, i + 3;
          continue;
        }
      }
      var ts := f.stamp(line);
      if ts.Some? {
        out, seqNo := out + [StampedEntry(ts.value, line, tag, seqNo)], seqNo + 1;
      } else if out != [] {
        out := out[..|out| - 1] + [Continued(out[|out| - 1], line)];
      } else {
        out, seqNo := [HeadlessEntry(line, tag, seqNo)], seqNo + 1;
      }
      i := i + 1;
    }
  }

  // ----- the grammar of well-formed logs

  /** What opens a log record: a stamped line, or a three-line lifecycle banner. */
  datatype Head = Stamped(line: string) | Banner(rule1: string, mid: string, rule2: string)

  /** A record: its head and the continuation lines folded into it. */
  datatype Block = Block(head: Head, conts: seq<string>)

  predicate WholeLine(line: string) {
    line != "" && '\n' !in line && line[|line| - 1] != '\r'
  }

  predicate Continuation(f: LogFormat, line: string) {
    WholeLine(line) && !IsBannerRule(line) && f.stamp(line).None?
  }

  predicate WellFormedHead(f: LogFormat, h: Head) {
    match h
    case Stamped(line) => WholeLine(line) && f.stamp(line).Some?
    case Banner(rule1, mid, rule2) =>
      IsBannerRule(rule1) && IsBannerRule(rule2) && WholeLine(mid) && f.middle(mid).Some?
  }

  predicate WellFormed(f: LogFormat, b: Block) {
    WellFormedHead(f, b.head) && forall i | 0 <= i < |b.conts| :: Continuation(f, b.conts[i])
  }

  function HeadLines(h: Head): (lines: seq<string>)
    ensures |lines| >= 1
  {
    match h
    case Stamped(line) => [line]
    case Banner(rule1, mid, rule2) => [rule1, mid, rule2]
  }

  function BlockLines(b: Block): (lines: seq<string>)
    ensures |lines| >= 1
  {
    HeadLines(b.head) + b.conts
  }

  function Flatten(blocks: seq<Block>): (lines: seq<string>) {
    if blocks == [] then [] else BlockLines(blocks[0]) + Flatten(blocks[1..])
  }

  function WithContinuations(e: Entry, conts: seq<string>): Entry
    decreases |conts|
  {
    if conts == [] then e else WithContinuations(Continued(e, conts[0]), conts[1..])
  }

  function HeadEntry(f: LogFormat, h: Head, tag: string, seqNo: nat): Entry
    requires WellFormedHead(f, h)
  {
    match h
    case Stamped(line) => StampedEntry(f.stamp(line).value, line, tag, seqNo)
    case Banner(rule1, mid, rule2) => BannerEntry(f.middle(mid).value, rule1, mid, rule2, tag, seqNo)
  }

  /** The one entry a block stands for. */
  function EntryOf(f: LogFormat, b: Block, tag: string, seqNo: nat): Entry
    requires WellFormed(f, b)
  {
    WithContinuations(HeadEntry(f, b.head, tag, seqNo), b.conts)
  }

  function EntriesOf(f: LogFormat, blocks: seq<Block>, tag: string, seqNo: nat): (es: seq<Entry>)
    requires forall i | 0 <= i < |blocks| :: WellFormed(f, blocks[i])
    ensures |es| == |blocks|
  {
    if blocks == [] then []
    else [EntryOf(f, blocks[0], tag, seqNo)] + EntriesOf(f, blocks[1..], tag, seqNo + 1)
  }

  // ----- what an entry holds

  /** Whatever follows the 19 characters of a timestamp, without leading white space; of a banner, its three lines. */
  function HeadBody(h: Head): string {
    match h
    case Stamped(line) => if |line| > 19 then TrimStart(line[19..]) else ""
    case Banner(rule1, mid, rule2) => Join([rule1, mid, rule2], "\n")
  }

  function HeadTime(f: LogFormat, h: Head): Option<int> {
    match h
    case Stamped(line) => f.stamp(line)
    case Banner(_, mid, _) => f.middle(mid)
  }

  lemma JoinThree(a: string, b: string, c: string)
    ensures Join([a, b, c], "\n") == a + "\n" + b + "\n" + c
  {
    assert [a, b, c][1..] == [b, c] && [b, c][1..] == [c];
    assert Join([b, c], "\n") == b + "\n" + c;
  }

  lemma JoinMerge(a: string, b: string, rest: seq<string>)
    ensures Join([a + "\n" + b] + rest, "\n") == Join([a, b] + rest, "\n")
  {
    var merged, apart := [a + "\n" + b] + rest, [a, b] + rest;
    assert apart[1..] == [b] + rest && merged[1..] == rest && ([b] + rest)[1..] == rest;
    if rest != [] {
      assert a + "\n" + (b + "\n" + Join(rest, "\n")) == a + "\n" + b + "\n" + Join(rest, "\n");
    }
  }

  /** Continuations are appended to the body line by line, in order, and change nothing else. */
  lemma {:induction false} ContinuationsJoin(e: Entry, conts: seq<string>)
    ensures WithContinuations(e, conts) == e.(body := Join([e.body] + conts, "\n"))
    decreases |conts|
  {
    if conts == [] {
      assert [e.body] + conts == [e.body];
    } else {
      ContinuationsJoin(Continued(e, conts[0]), conts[1..]);
      JoinMerge(e.body, conts[0], conts[1..]);
      assert [e.body, conts[0]] + conts[1..] == [e.body] + conts;
    }
  }

  /** The entry of a record: its time, its head and continuations joined by newlines, and its number. */
  lemma EntryHolds(f: LogFormat, b: Block, tag: string, seqNo: nat)
    requires WellFormed(f, b)
    ensures EntryOf(f, b, tag, seqNo) == Entry(HeadTime(f, b.head), tag, Join([HeadBody(b.head)] + b.conts, "\n"), seqNo, true)
  {
    var head := HeadEntry(f, b.head, tag, seqNo);
    ContinuationsJoin(head, b.conts);
    if b.head.Banner? {
      JoinThree(b.head.rule1, b.head.mid, b.head.rule2);
    }
  }

  lemma {:induction false} EntriesHold(f: LogFormat, blocks: seq<Block>, tag: string, seqNo: nat, i: nat)
    requires i < |blocks| && forall k | 0 <= k < |blocks| :: WellFormed(f, blocks[k])
    ensures EntriesOf(f, blocks, tag, seqNo)[i]
         == Entry(HeadTime(f, blocks[i].head), tag, Join([HeadBody(blocks[i].head)] + blocks[i].conts, "\n"), seqNo + i, true)
    decreases |blocks|
  {
    hide EntryOf, HeadBody, HeadTime, Join, WellFormed;
    if i == 0 {
      EntryHolds(f, blocks[0], tag, seqNo);
    } else {
      EntriesHold(f, blocks[1..], tag, seqNo + 1, i - 1);
    }
  }

  // ----- the batch parser inverts the grammar

  /** The lines after a rule complete a banner with it. */
  predicate CompletesBanner(f: LogFormat, lines: seq<string>) {
    |lines| >= 2 && f.middle(lines[0]).Some? && IsBannerRule(lines[1])
  }

  /** Line `i` of `lines` is one the parser folds: unstamped, and not the start of a banner. */
  predicate Folds(f: LogFormat, lines: seq<string>, i: nat)
    requires i < |lines|
  {
    && lines[i] != "" && f.stamp(lines[i]).None?
    && !(IsBannerRule(lines[i]) && CompletesBanner(f, lines[i + 1..]))
  }

  /** Such lines fold into the last entry, in order. */
  lemma {:induction false} FoldLines(f: LogFormat, conts: seq<string>, rest: seq<string>, tag: string,
                                     out: seq<Entry>, last: Entry, seqNo: nat)
    requires forall i | 0 <= i < |conts| :: Folds(f, conts + rest, i)
    ensures ParseOnto(f, conts + rest, tag, out + [last], seqNo)
         == ParseOnto(f, rest, tag, out + [WithContinuations(last, conts)], seqNo)
    decreases |conts|
  {
    if conts == [] {
      assert conts + rest == rest;
    } else {
      var lines, more := conts + rest, conts[1..] + rest;
      assert Folds(f, lines, 0) && lines[0] == conts[0] && lines[1..] == more;
      assert (out + [last])[..|out|] == out;
      forall i | 0 <= i < |conts[1..]|
        ensures Folds(f, more, i)
      {
        assert Folds(f, lines, i + 1) && lines[i + 2..] == more[i + 1..];
      }
      FoldLines(f, conts[1..], rest, tag, out, Continued(last, conts[0]), seqNo);
    }
  }

  /** Reading one well-formed block appends exactly its entry, whatever was read before. */
  lemma ParseBlock(f: LogFormat, b: Block, rest: seq<string>, tag: string, out: seq<Entry>, seqNo: nat)
    requires Sane(f) && WellFormed(f, b)
    ensures ParseOnto(f, BlockLines(b) + rest, tag, out, seqNo)
         == ParseOnto(f, rest, tag, out + [EntryOf(f, b, tag, seqNo)], seqNo + 1)
  {
    var lines, more := BlockLines(b) + rest, b.conts + rest;
    match b.head {
      case Stamped(line) => assert lines[0] == line && lines[1..] == more;
      case Banner(rule1, mid, rule2) =>
        assert lines[0] == rule1 && lines[1] == mid && lines[2] == rule2 && lines[3..] == more;
    }
    forall i | 0 <= i < |b.conts|
      ensures Folds(f, more, i)
    {
      assert Continuation(f, b.conts[i]);
    }
    FoldLines(f, b.conts, rest, tag, out, HeadEntry(f, b.head, tag, seqNo), seqNo + 1);
  }

  /** Parsing the lines of a well-formed log yields its entries, numbered consecutively. */
  lemma {:induction false} ParseInvertsFlatten(f: LogFormat, blocks: seq<Block>, rest: seq<string>, tag: string,
                                               out: seq<Entry>, seqNo: nat)
    requires Sane(f) && forall i | 0 <= i < |blocks| :: WellFormed(f, blocks[i])
    ensures ParseOnto(f, Flatten(blocks) + rest, tag, out, seqNo)
         == ParseOnto(f, rest, tag, out + EntriesOf(f, blocks, tag, seqNo), seqNo + |blocks|)
  {
    hide ParseOnto, EntryOf, BlockLines, Sane;
    if blocks == [] {
      assert Flatten(blocks) + rest == rest;
      assert out + EntriesOf(f, blocks, tag, seqNo) == out;
    } else {
      var e, more := EntryOf(f, blocks[0], tag, seqNo), Flatten(blocks[1..]) + rest;
      assert Flatten(blocks) + rest == BlockLines(blocks[0]) + more;
      assert out + EntriesOf(f, blocks, tag, seqNo) == out + [e] + EntriesOf(f, blocks[1..], tag, seqNo + 1);
      ParseBlock(f, blocks[0], more, tag, out, seqNo);
      ParseInvertsFlatten(f, blocks[1..], rest, tag, out + [e], seqNo + 1);
    }
  }

  lemma {:induction false} FlattenWholeLines(f: LogFormat, blocks: seq<Block>)
    requires forall i | 0 <= i < |blocks| :: WellFormed(f, blocks[i])
    ensures forall i | 0 <= i < |Flatten(blocks)| :: '\n' !in Flatten(blocks)[i]
  {
    if blocks == [] {
    } else {
      FlattenWholeLines(f, blocks[1..]);
      assert WellFormed(f, blocks[0]);
      assert forall i | 0 <= i < |BlockLines(blocks[0])| :: '\n' !in BlockLines(blocks[0])[i];
    }
  }

  /** The text of a well-formed log. */
  function LogText(blocks: seq<Block>): string {
    Terminated(Flatten(blocks))
  }

  /** Round trip: reading the text of any well-formed log gives one entry per record, with its time, its lines joined by
      newlines, and its number. */
  lemma ReadInvertsLogText(f: LogFormat, blocks: seq<Block>, tag: string, seqNo: nat)
    requires Sane(f) && forall i | 0 <= i < |blocks| :: WellFormed(f, blocks[i])
    ensures ParseOnto(f, Split(LogText(blocks), '\n'), tag, [], seqNo)
         == (EntriesOf(f, blocks, tag, seqNo), seqNo + |blocks|)
    ensures var es := ParseOnto(f, Split(LogText(blocks), '\n'), tag, [], seqNo).0;
            |es| == |blocks| && forall i | 0 <= i < |blocks| ::
              es[i] == Entry(HeadTime(f, blocks[i].head), tag, Join([HeadBody(blocks[i].head)] + blocks[i].conts, "\n"),
                             seqNo + i, true)
  {
    hide EntriesOf, HeadBody, HeadTime, Join, WellFormed, Sane, Split;
    FlattenWholeLines(f, blocks);
    SplitTerminated(Flatten(blocks));
    ParseInvertsFlatten(f, blocks, [""], tag, [], seqNo);
    assert [] + EntriesOf(f, blocks, tag, seqNo) == EntriesOf(f, blocks, tag, seqNo);
    forall i | 0 <= i < |blocks|
      ensures EntriesOf(f, blocks, tag, seqNo)[i]
           == Entry(HeadTime(f, blocks[i].head), tag, Join([HeadBody(blocks[i].head)] + blocks[i].conts, "\n"), seqNo + i, true)
    {
      EntriesHold(f, blocks, tag, seqNo, i);
    }
  }

  // ----- numbers

  /** Entries of one file, numbered one after another from `base` on. */
  predicate NumberedFrom(es: seq<Entry>, tag: string, base: nat) {
    forall i | 0 <= i < |es| :: es[i].seqNo == base + i && es[i].tag == tag
  }

  lemma StepNumbers(f: LogFormat, lines: seq<string>, tag: string, out: seq<Entry>, base: nat)
    requires lines != [] && NumberedFrom(out, tag, base)
    ensures var (_, out', next) := ParseStep(f, lines, tag, out, base + |out|);
            NumberedFrom(out', tag, base) && next == base + |out'|
  {
  }

  lemma {:induction false} ParseNumbersFrom(f: LogFormat, lines: seq<string>, tag: string, out: seq<Entry>, base: nat)
    requires NumberedFrom(out, tag, base)
    ensures var (es, next) := ParseOnto(f, lines, tag, out, base + |out|); NumberedFrom(es, tag, base) && next == base + |es|
    decreases |lines|
  {
    hide ParseStep, NumberedFrom;
    if lines == [] {
    } else {
      var (taken, out', _) := ParseStep(f, lines, tag, out, base + |out|);
      StepNumbers(f, lines, tag, out, base);
      ParseNumbersFrom(f, lines[taken..], tag, out', base);
    }
  }

  /** Whatever the input, well-formed or not, the reader numbers its entries one after another and goes on from there. */
  lemma ParseNumbers(f: LogFormat, lines: seq<string>, tag: string, seqNo: nat)
    ensures var (es, next) := ParseOnto(f, lines, tag, [], seqNo); NumberedFrom(es, tag, seqNo) && next == seqNo + |es|
  {
    ParseNumbersFrom(f, lines, tag, [], seqNo);
  }
}
