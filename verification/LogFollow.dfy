/** The follow-mode reader: one line at a time, with a pending entry and a three-line banner buffer. */
module LogFollow {
  import opened Text
  import opened LogEntries

  /** One pass of the tail loop: a line was read, or the reader was at end of file. */
  datatype Event = Read(raw: string) | Idle
  datatype FollowState = FollowState(pending: Option<Entry>, banner: seq<string>, seqNo: nat, sent: seq<Entry>)

  function Optional(e: Option<Entry>): seq<Entry> {
    if e.Some? then [e.value] else []
  }

  /** Drop one trailing newline, then one trailing carriage return. */
  function Chomp(raw: string): string {
    var line := if raw != "" && raw[|raw| - 1] == '\n' then raw[..|raw| - 1] else raw;
    if line != "" && line[|line| - 1] == '\r' then line[..|line| - 1] else line
  }

  function Flushed(st: FollowState): FollowState {
    if st.banner == [] then st
    else if st.pending.None? then st.(banner := [])
    else st.(banner := [], pending := Some(Continued(st.pending.value, Join(st.banner, "\n"))))
  }

  function Handled(f: LogFormat, tag: string, st: FollowState, line: string): FollowState {
    if IsBannerRule(line) then st.(banner := st.banner + [line])
    else match f.stamp(line)
      case Some(ts) =>
        FollowState(Some(StampedEntry(ts, line, tag, st.seqNo)), st.banner, st.seqNo + 1, st.sent + Optional(st.pending))
      case None =>
        if st.pending.None? then st else st.(pending := Some(Continued(st.pending.value, line)))
  }

  function Step(f: LogFormat, tag: string, st: FollowState, ev: Event): FollowState {
    match ev
    case Idle => st.(pending := None, sent := st.sent + Optional(st.pending))
    case Read(raw) =>
      var line := Chomp(raw);
      if |st.banner| == 1 then
        if f.middle(line).Some? then st.(banner := st.banner + [line])
        else Handled(f, tag, Flushed(st), line)
      else if |st.banner| == 2 then
        if IsBannerRule(line) then
          match f.middle(st.banner[1])
          case None => st.(banner := [])
          case Some(ts) =>
            var e := Entry(Some(ts), tag, Join(st.banner + [line], "\n"), st.seqNo, true);
            FollowState(None, [], st.seqNo + 1, st.sent + Optional(st.pending) + [e])
        else Handled(f, tag, Flushed(st), line)
      else Handled(f, tag, st, line)
  }

  function Steps(f: LogFormat, tag: string, st: FollowState, events: seq<Event>): FollowState
    decreases |events|
  {
    if events == [] then st else Steps(f, tag, Step(f, tag, st, events[0]), events[1..])
  }

  /** The per-source follower; `sent` is what went down the channel. */
  class Follower {
    const f: LogFormat
    const tag: string
    var pending: Option<Entry>
    var banner: seq<string>
    var seqNo: nat
    var sent: seq<Entry>

    ghost function State(): FollowState
      reads this
    {
      FollowState(pending, banner, seqNo, sent)
    }

    constructor (f: LogFormat, tag: string, seqBase: nat)
      ensures this.f == f && this.tag == tag && State() == FollowState(None, [], seqBase, [])
    {
      this.f, this.tag := f, tag;
      pending, banner, seqNo, sent := None, [], seqBase, [];
    }

    method Send(e: Option<Entry>)
      modifies this`sent
      ensures sent == old(sent) + Optional(e)
    {
      if e.Some? {
        sent := sent + [e.value];
      }
    }

    method FlushBannerAsContinuation()
      modifies this`banner, this`pending
      ensures State() == Flushed(old(State()))
    {
      if banner == [] {
        return;
      }
      if pending.Some? {
        pending := Some(Continued(pending.value, Join(banner, "\n")));
      }
      banner := [];
    }

    method HandleLine(line: string) returns (displaced: Option<Entry>)
      modifies this`banner, this`pending, this`seqNo
      ensures State().(sent := sent + Optional(displaced)) == Handled(f, tag, old(State()), line)
    {
      displaced := None;
      if IsBannerRule(line) {
        banner := banner + [line];
        return;
      }
      var ts := f.stamp(line);
      if ts.Some? {
        displaced := pending;
        pending := Some(StampedEntry(ts.value, line, tag, seqNo));
        seqNo := seqNo + 1;
        return;
      }
      if pending.Some? {
        pending := Some(Continued(pending.value, line));
      }
    }

    method OnEvent(ev: Event)
      modifies this
      ensures State() == Step(f, tag, old(State()), ev)
    {
      if ev.Idle? {
        Send(pending);
        pending := None;
        return;
      }
      var line := Chomp(ev.raw);
      if |banner| == 1 && f.middle(line).Some? {
        banner := banner + [line];
      } else if |banner| == 2 && IsBannerRule(line) {
        var mid := f.middle(banner[1]);
        banner := banner + [line];
        if mid.Some? {
          Send(pending);
          pending := None;
          Send(Some(Entry(mid, tag, Join(banner, "\n"), seqNo, true)));
          seqNo := seqNo + 1;
        }
        banner := [];
      } else {
        if |banner| == 1 || |banner| == 2 {
          FlushBannerAsContinuation();
        }
        var displaced := HandleLine(line);
        Send(displaced);
      }
    }

    method Follow(events: seq<Event>)
      modifies this
      ensures State() == Steps(f, tag, old(State()), events)
    {
      var i := 0;
      while i < |events|
        invariant 0 <= i <= |events|
        invariant Steps(f, tag, State(), events[i..]) == Steps(f, tag, old(State()), events)
      {
        OnEvent(events[i]);
        assert events[i..][1..] == events[i + 1..];
        i := i + 1;
      }
    }
  }

  // ----- the follower computes the batch parse

  /** A continuation line and the number of idle polls before it. */
  datatype PacedLine = PacedLine(polls: nat, line: string)

  /** A block as the follower meets it, with idle polls anywhere: between the lines of a banner
      (`k1`, `k2`), before each continuation, and after the last line. */
  datatype Paced = Paced(head: Head, k1: nat, k2: nat, conts: seq<PacedLine>, after: nat)

  function Reads(line: string): seq<Event> {
    [Read(line + "\n")]
  }

  function Idles(k: nat): seq<Event> {
    if k == 0 then [] else [Idle] + Idles(k - 1)
  }

  function HeadEvents(h: Head, k1: nat, k2: nat): seq<Event> {
    match h
    case Stamped(line) => Reads(line)
    case Banner(rule1, mid, rule2) => Reads(rule1) + Idles(k1) + Reads(mid) + Idles(k2) + Reads(rule2)
  }

  function ContEvents(conts: seq<PacedLine>): seq<Event> {
    if conts == [] then [] else Idles(conts[0].polls) + Reads(conts[0].line) + ContEvents(conts[1..])
  }

  function BlockEvents(p: Paced): seq<Event> {
    HeadEvents(p.head, p.k1, p.k2) + ContEvents(p.conts) + Idles(p.after)
  }

  function Events(log: seq<Paced>): seq<Event> {
    if log == [] then [] else BlockEvents(log[0]) + Events(log[1..])
  }

  function ContLines(conts: seq<PacedLine>): (lines: seq<string>)
    ensures |lines| == |conts| && forall i | 0 <= i < |conts| :: lines[i] == conts[i].line
  {
    seq(|conts|, i requires 0 <= i < |conts| => conts[i].line)
  }

  /** The block without its pacing. */
  function Unpaced(p: Paced): Block {
    Block(p.head, ContLines(p.conts))
  }

  function Blocks(log: seq<Paced>): (blocks: seq<Block>)
    ensures |blocks| == |log| && forall i | 0 <= i < |log| :: blocks[i] == Unpaced(log[i])
  {
    seq(|log|, i requires 0 <= i < |log| => Unpaced(log[i]))
  }

  /** The continuations that arrive while an entry is still open, that is before any idle poll. */
  function Kept(open: bool, conts: seq<PacedLine>): (lines: seq<string>)
    ensures |lines| <= |conts|
    ensures !open || (conts != [] && conts[0].polls > 0) ==> lines == []
  {
    if !open || conts == [] || conts[0].polls > 0 then [] else [conts[0].line] + Kept(open, conts[1..])
  }

  /** What the follower makes of a block; a banner is sent at once, so it keeps no continuation. */
  function Followed(f: LogFormat, p: Paced, tag: string, seqNo: nat): Entry
    requires WellFormedHead(f, p.head)
  {
    WithContinuations(HeadEntry(f, p.head, tag, seqNo), Kept(p.head.Stamped?, p.conts))
  }

  function FollowedAll(f: LogFormat, log: seq<Paced>, tag: string, seqNo: nat): (es: seq<Entry>)
    requires forall i | 0 <= i < |log| :: WellFormed(f, Unpaced(log[i]))
    ensures |es| == |log|
  {
    if log == [] then []
    else
      assert WellFormed(f, Unpaced(log[0]));
      [Followed(f, log[0], tag, seqNo)] + FollowedAll(f, log[1..], tag, seqNo + 1)
  }

  /** No continuation belongs to a banner or comes after an idle poll. */
  predicate Undisturbed(p: Paced) {
    p.conts == [] || (p.head.Stamped? && forall i | 0 <= i < |p.conts| :: p.conts[i].polls == 0)
  }

  lemma FollowedHolds(f: LogFormat, p: Paced, tag: string, seqNo: nat)
    requires WellFormedHead(f, p.head)
    ensures Followed(f, p, tag, seqNo)
         == Entry(HeadTime(f, p.head), tag, Join([HeadBody(p.head)] + Kept(p.head.Stamped?, p.conts), "\n"), seqNo, true)
  {
    var kept := Kept(p.head.Stamped?, p.conts);
    ContinuationsJoin(HeadEntry(f, p.head, tag, seqNo), kept);
    EntryHolds(f, Block(p.head, []), tag, seqNo);
    assert [HeadBody(p.head)] + [] == [HeadBody(p.head)];
  }

  /** Everything sent so far and the entry still waiting for continuations. */
  function Emitted(st: FollowState): seq<Entry> {
    st.sent + Optional(st.pending)
  }

  /** From `st` to `st'` the follower left no banner open and emitted exactly `es`. */
  ghost predicate Advanced(st: FollowState, st': FollowState, es: seq<Entry>) {
    st'.banner == [] && st'.seqNo == st.seqNo + |es| && Emitted(st') == Emitted(st) + es
  }

  lemma {:induction false} StepsConcat(f: LogFormat, tag: string, st: FollowState, a: seq<Event>, b: seq<Event>)
    ensures Steps(f, tag, st, a + b) == Steps(f, tag, Steps(f, tag, st, a), b)
    decreases |a|
  {
    if a == [] {
      assert a + b == b;
    } else {
      assert (a + b)[1..] == a[1..] + b;
      StepsConcat(f, tag, Step(f, tag, st, a[0]), a[1..], b);
    }
  }

  lemma ChompLine(line: string)
    requires line == "" || line[|line| - 1] != '\r'
    ensures Chomp(line + "\n") == line
  {
    assert (line + "\n")[..|line|] == line;
  }

  /** A line that ends in a carriage return and a newline loses both, and a last one without newline is left as it is. */
  lemma ChompReturn(line: string)
    ensures Chomp(line + "\r\n") == line
    ensures line != "" && line[|line| - 1] != '\n' && line[|line| - 1] != '\r' ==> Chomp(line) == line
  {
    var raw := line + "\r\n";
    assert raw[..|raw| - 1] == line + "\r" && (line + "\r")[..|line|] == line;
  }

  lemma StepsOne(f: LogFormat, tag: string, st: FollowState, ev: Event)
    ensures Steps(f, tag, st, [ev]) == Step(f, tag, st, ev)
  {
    assert Steps(f, tag, st, [ev]) == Steps(f, tag, Step(f, tag, st, ev), []);
  }

  /** Idle polls release the pending entry and change nothing else. */
  lemma {:induction false} IdlePolls(f: LogFormat, tag: string, st: FollowState, k: nat)
    ensures Steps(f, tag, st, Idles(k)) == if k == 0 then st else FollowState(None, st.banner, st.seqNo, Emitted(st))
    decreases k
  {
    if k == 0 {
    } else {
      assert Idles(k)[1..] == Idles(k - 1);
      IdlePolls(f, tag, Step(f, tag, st, Idle), k - 1);
    }
  }

  /** The entry left open by a state, extended with continuation lines. */
  function Extended(e: Option<Entry>, conts: seq<string>): seq<Entry> {
    if e.Some? then [WithContinuations(e.value, conts)] else []
  }

  lemma {:induction false} FollowContinuations(f: LogFormat, tag: string, st: FollowState, conts: seq<PacedLine>)
    requires st.banner == [] && forall i | 0 <= i < |conts| :: Continuation(f, conts[i].line)
    ensures var st' := Steps(f, tag, st, ContEvents(conts));
            st'.banner == [] && st'.seqNo == st.seqNo
            && Emitted(st') == st.sent + Extended(st.pending, Kept(st.pending.Some?, conts))
    decreases |conts|
  {
    if conts == [] {
    } else {
      var polls, line := conts[0].polls, conts[0].line;
      var st1 := Steps(f, tag, st, Idles(polls));
      var st2 := Step(f, tag, st1, Read(line + "\n"));
      StepsConcat(f, tag, st, Idles(polls) + Reads(line), ContEvents(conts[1..]));
      StepsConcat(f, tag, st, Idles(polls), Reads(line));
      IdlePolls(f, tag, st, polls);
      StepsOne(f, tag, st1, Read(line + "\n"));
      assert Continuation(f, line);
      ChompLine(line);
      FollowContinuations(f, tag, st2, conts[1..]);
    }
  }

  lemma FollowBannerClose(f: LogFormat, tag: string, st: FollowState, rule1: string, mid: string, rule2: string)
    requires Sane(f) && WellFormedHead(f, Banner(rule1, mid, rule2)) && st.banner == [rule1, mid]
    ensures Step(f, tag, st, Read(rule2 + "\n"))
         == FollowState(None, [], st.seqNo + 1, Emitted(st) + [HeadEntry(f, Banner(rule1, mid, rule2), tag, st.seqNo)])
  {
    ChompLine(rule2);
    JoinThree(rule1, mid, rule2);
    assert [rule1, mid] + [rule2] == [rule1, mid, rule2];
  }

  lemma FollowBannerOpen(f: LogFormat, tag: string, st: FollowState, rule1: string, k1: nat, mid: string)
    requires Sane(f) && st.banner == [] && IsBannerRule(rule1) && WholeLine(mid) && f.middle(mid).Some?
    ensures var st' := Steps(f, tag, st, Reads(rule1) + Idles(k1) + Reads(mid));
            st'.banner == [rule1, mid] && st'.seqNo == st.seqNo && Emitted(st') == Emitted(st)
  {
    var a := st.(banner := [rule1]);
    StepsOne(f, tag, st, Read(rule1 + "\n"));
    ChompLine(rule1);
    assert a == Step(f, tag, st, Read(rule1 + "\n"));
    IdlePolls(f, tag, a, k1);
    var b := Steps(f, tag, a, Idles(k1));
    StepsConcat(f, tag, st, Reads(rule1), Idles(k1));
    StepsConcat(f, tag, st, Reads(rule1) + Idles(k1), Reads(mid));
    StepsOne(f, tag, b, Read(mid + "\n"));
    ChompLine(mid);
  }

  lemma FollowHead(f: LogFormat, tag: string, st: FollowState, h: Head, k1: nat, k2: nat)
    requires Sane(f) && WellFormedHead(f, h) && st.banner == []
    ensures var st', e := Steps(f, tag, st, HeadEvents(h, k1, k2)), HeadEntry(f, h, tag, st.seqNo);
            st' == if h.Stamped? then FollowState(Some(e), [], st.seqNo + 1, Emitted(st))
                   else FollowState(None, [], st.seqNo + 1, Emitted(st) + [e])
  {
    match h
    case Stamped(line) =>
      StepsOne(f, tag, st, Read(line + "\n"));
      ChompLine(line);
    case Banner(rule1, mid, rule2) =>
      hide Steps, Step, Sane;
      FollowBannerOpen(f, tag, st, rule1, k1, mid);
      var c := Steps(f, tag, st, Reads(rule1) + Idles(k1) + Reads(mid));
      IdlePolls(f, tag, c, k2);
      var d := Steps(f, tag, c, Idles(k2));
      StepsConcat(f, tag, st, Reads(rule1) + Idles(k1) + Reads(mid), Idles(k2));
      StepsConcat(f, tag, st, Reads(rule1) + Idles(k1) + Reads(mid) + Idles(k2), Reads(rule2));
      StepsOne(f, tag, d, Read(rule2 + "\n"));
      FollowBannerClose(f, tag, d, rule1, mid, rule2);
  }

  /** Between blocks no banner is open and exactly one entry per block read has been emitted. */
  lemma FollowBlock(f: LogFormat, tag: string, st: FollowState, p: Paced)
    requires Sane(f) && WellFormed(f, Unpaced(p)) && st.banner == []
    ensures Advanced(st, Steps(f, tag, st, BlockEvents(p)), [Followed(f, p, tag, st.seqNo)])
  {
    hide Step, Sane, HeadEvents, ContEvents;
    var events := HeadEvents(p.head, p.k1, p.k2);
    StepsConcat(f, tag, st, events + ContEvents(p.conts), Idles(p.after));
    StepsConcat(f, tag, st, events, ContEvents(p.conts));
    FollowHead(f, tag, st, p.head, p.k1, p.k2);
    var st1 := Steps(f, tag, st, events);
    assert forall i | 0 <= i < |p.conts| :: ContLines(p.conts)[i] == p.conts[i].line;
    FollowContinuations(f, tag, st1, p.conts);
    IdlePolls(f, tag, Steps(f, tag, st1, ContEvents(p.conts)), p.after);
  }

  lemma {:induction false} FollowLog(f: LogFormat, tag: string, st: FollowState, log: seq<Paced>)
    requires Sane(f) && st.banner == [] && forall i | 0 <= i < |log| :: WellFormed(f, Unpaced(log[i]))
    ensures Advanced(st, Steps(f, tag, st, Events(log)), FollowedAll(f, log, tag, st.seqNo))
    decreases |log|
  {
    hide Step, Followed, BlockEvents, WellFormed, Unpaced;
    if log == [] {
    } else {
      StepsConcat(f, tag, st, BlockEvents(log[0]), Events(log[1..]));
      FollowBlock(f, tag, st, log[0]);
      FollowLog(f, tag, Steps(f, tag, st, BlockEvents(log[0])), log[1..]);
    }
  }

  // ----- when the two readers agree

  lemma {:induction false} ContinuationsGrow(e: Entry, conts: seq<string>)
    ensures |WithContinuations(e, conts).body| >= |e.body| + |conts|
    decreases |conts|
  {
    if conts == [] {
    } else {
      ContinuationsGrow(Continued(e, conts[0]), conts[1..]);
    }
  }

  /** Keeping some of the continuations gives the same entry only if all are kept. */
  lemma {:induction false} KeptMatters(e: Entry, open: bool, conts: seq<PacedLine>)
    ensures WithContinuations(e, Kept(open, conts)) == WithContinuations(e, ContLines(conts))
       <==> conts == [] || (open && forall i | 0 <= i < |conts| :: conts[i].polls == 0)
    decreases |conts|
  {
    if conts == [] {
    } else {
      var lines := ContLines(conts);
      assert lines[0] == conts[0].line && lines[1..] == ContLines(conts[1..]);
      if !open || conts[0].polls > 0 {
        ContinuationsGrow(e, lines);
      } else {
        KeptMatters(Continued(e, conts[0].line), open, conts[1..]);
        assert Kept(open, conts)[1..] == Kept(open, conts[1..]);
        assert forall i | 0 < i < |conts| :: conts[i] == conts[1..][i - 1];
      }
    }
  }

  lemma {:induction false} FollowedMatters(f: LogFormat, log: seq<Paced>, tag: string, seqNo: nat)
    requires forall i | 0 <= i < |log| :: WellFormed(f, Unpaced(log[i]))
    ensures FollowedAll(f, log, tag, seqNo) == EntriesOf(f, Blocks(log), tag, seqNo)
       <==> forall i | 0 <= i < |log| :: Undisturbed(log[i])
    decreases |log|
  {
    if log == [] {
    } else {
      var blocks := Blocks(log);
      assert blocks[1..] == Blocks(log[1..]);
      assert WellFormed(f, Unpaced(log[0]));
      KeptMatters(HeadEntry(f, log[0].head, tag, seqNo), log[0].head.Stamped?, log[0].conts);
      FollowedMatters(f, log[1..], tag, seqNo + 1);
      var a, b := FollowedAll(f, log, tag, seqNo), EntriesOf(f, blocks, tag, seqNo);
      assert a == b <==> a[0] == b[0] && a[1..] == b[1..];
      assert forall i | 0 < i < |log| :: log[i] == log[1..][i - 1];
    }
  }

  /** On every well-formed log, with idle polls anywhere, the follower sends one entry per record of
      the batch reader, in order; the two outputs are equal if and only if no continuation follows a
      banner or an idle poll. */
  lemma FollowerMatchesBatch(f: LogFormat, tag: string, seqNo: nat, log: seq<Paced>)
    requires Sane(f) && forall i | 0 <= i < |log| :: WellFormed(f, Unpaced(log[i]))
    ensures var st := Steps(f, tag, FollowState(None, [], seqNo, []), Events(log) + [Idle]);
            var (batch, next) := ParseOnto(f, Split(LogText(Blocks(log)), '\n'), tag, [], seqNo);
            && st.sent == FollowedAll(f, log, tag, seqNo)
            && |st.sent| == |batch| && st.seqNo == next
            && (st.sent == batch <==> forall i | 0 <= i < |log| :: Undisturbed(log[i]))
  {
    hide ParseOnto, EntriesOf, FollowedAll, Steps, Events, Split, LogText, Undisturbed;
    var start := FollowState(None, [], seqNo, []);
    FollowLog(f, tag, start, log);
    StepsConcat(f, tag, start, Events(log), [Idle]);
    var st := Steps(f, tag, start, Events(log));
    StepsOne(f, tag, st, Idle);
    ReadInvertsLogText(f, Blocks(log), tag, seqNo);
    FollowedMatters(f, log, tag, seqNo);
    assert Emitted(start) + FollowedAll(f, log, tag, seqNo) == FollowedAll(f, log, tag, seqNo);
  }

  // ----- banners that are begun and not completed

  function ReadAll(lines: seq<string>): (events: seq<Event>)
    ensures |events| == |lines| && forall i | 0 <= i < |lines| :: events[i] == Read(lines[i] + "\n")
  {
    seq(|lines|, i requires 0 <= i < |lines| => Read(lines[i] + "\n"))
  }

  /** Lines that no reader takes for the start of a record: unstamped, and no three of them make a banner. */
  predicate Unstamped(f: LogFormat, lines: seq<string>) {
    && (forall i | 0 <= i < |lines| :: WholeLine(lines[i]) && f.stamp(lines[i]).None?)
    && (forall i | 0 <= i < |lines| - 2 :: !(IsBannerRule(lines[i]) && CompletesBanner(f, lines[i + 1..])))
  }

  /** After such lines the entry `e` has them all, but for at most two at the end that may still become a banner. */
  ghost predicate Folding(f: LogFormat, st: FollowState, e: Entry, lines: seq<string>, seqNo: nat, sent: seq<Entry>) {
    && |st.banner| <= 2 && |st.banner| <= |lines| && st.banner == lines[|lines| - |st.banner|..]
    && (|st.banner| >= 1 ==> IsBannerRule(st.banner[0])) && (|st.banner| == 2 ==> f.middle(st.banner[1]).Some?)
    && st.pending == Some(e.(body := Join([e.body] + lines[..|lines| - |st.banner|], "\n")))
    && st.seqNo == seqNo && st.sent == sent
  }

  lemma {:induction false} JoinTwice(a: seq<string>, b: seq<string>)
    requires a != [] && b != []
    ensures Join(a + b, "\n") == Join(a, "\n") + "\n" + Join(b, "\n")
    decreases |a|
  {
    if |a| == 1 {
      assert (a + b)[1..] == b;
    } else {
      JoinTwice(a[1..], b);
      assert (a + b)[1..] == a[1..] + b;
      var x, y, z := a[0], Join(a[1..], "\n"), Join(b, "\n");
      assert x + "\n" + (y + "\n" + z) == x + "\n" + y + "\n" + z;
    }
  }

  /** Flushing the banner buffer gives the entry the lines in it, in order. */
  lemma FlushFolds(f: LogFormat, st: FollowState, e: Entry, lines: seq<string>, seqNo: nat, sent: seq<Entry>)
    requires Folding(f, st, e, lines, seqNo, sent)
    ensures Flushed(st) == FollowState(Some(e.(body := Join([e.body] + lines, "\n"))), [], seqNo, sent)
  {
    var m := |lines| - |st.banner|;
    var body := Join([e.body] + lines[..m], "\n");
    if st.banner == [] {
      assert lines[..m] == lines;
    } else {
      JoinTwice([e.body] + lines[..m], st.banner);
      assert [e.body] + lines[..m] + st.banner == [e.body] + lines;
    }
  }

  lemma FoldRule(f: LogFormat, e: Entry, lines: seq<string>, line: string, seqNo: nat, sent: seq<Entry>)
    requires IsBannerRule(line)
    ensures Folding(f, FollowState(Some(e.(body := Join([e.body] + lines, "\n"))), [line], seqNo, sent), e, lines + [line], seqNo, sent)
  {
    hide Join, IsBannerRule;
    var all := lines + [line];
    assert all[..|lines|] == lines && all[|lines|..] == [line];
  }

  lemma FoldLine(f: LogFormat, e: Entry, lines: seq<string>, line: string, seqNo: nat, sent: seq<Entry>)
    ensures Folding(f, FollowState(Some(e.(body := Join([e.body] + lines, "\n") + "\n" + line)), [], seqNo, sent),
                    e, lines + [line], seqNo, sent)
  {
    var all := lines + [line];
    JoinTwice([e.body] + lines, [line]);
    assert Join([line], "\n") == line;
    hide Join;
    assert [e.body] + lines + [line] == [e.body] + all && all[..|all|] == all && all[|all|..] == [];
  }

  lemma FoldOne(f: LogFormat, e: Entry, lines: seq<string>, line: string, seqNo: nat, sent: seq<Entry>, tag: string)
    requires !IsBannerRule(line) ==> f.stamp(line).None?
    ensures var st := FollowState(Some(e.(body := Join([e.body] + lines, "\n"))), [], seqNo, sent);
            Folding(f, Handled(f, tag, st, line), e, lines + [line], seqNo, sent)
  {
    hide Join, Folding, IsBannerRule;
    if IsBannerRule(line) {
      FoldRule(f, e, lines, line, seqNo, sent);
      assert [] + [line] == [line];
    } else {
      FoldLine(f, e, lines, line, seqNo, sent);
    }
  }

  lemma StepFlushes(f: LogFormat, tag: string, st: FollowState, line: string)
    requires WholeLine(line) && |st.banner| <= 2 && (|st.banner| == 2 ==> !IsBannerRule(line))
    ensures Step(f, tag, st, Read(line + "\n"))
         == if |st.banner| == 1 && f.middle(line).Some? then st.(banner := st.banner + [line])
            else Handled(f, tag, Flushed(st), line)
  {
    hide Join;
    ChompLine(line);
  }

  lemma FoldStep(f: LogFormat, tag: string, st: FollowState, e: Entry, lines: seq<string>, line: string, seqNo: nat, sent: seq<Entry>)
    requires Folding(f, st, e, lines, seqNo, sent) && Unstamped(f, lines + [line])
    ensures Folding(f, Step(f, tag, st, Read(line + "\n")), e, lines + [line], seqNo, sent)
  {
    hide Join, Step, Handled, Flushed;
    var all := lines + [line];
    assert all[|lines|] == line && WholeLine(line) && f.stamp(line).None?;
    if |st.banner| == 2 {
      var i := |lines| - 2;
      assert all[i + 1..] == [st.banner[1], line] && all[i] == st.banner[0];
    }
    StepFlushes(f, tag, st, line);
    if |st.banner| == 1 && f.middle(line).Some? {
      assert all[|all| - 2..] == [st.banner[0], line] && all[..|all| - 2] == lines[..|lines| - 1];
    } else {
      FlushFolds(f, st, e, lines, seqNo, sent);
      FoldOne(f, e, lines, line, seqNo, sent, tag);
    }
  }

  lemma UnstampedFront(f: LogFormat, front: seq<string>, line: string)
    requires Unstamped(f, front + [line])
    ensures Unstamped(f, front)
  {
    var all := front + [line];
    forall i | 0 <= i < |front|
      ensures front[i] == all[i]
    {
    }
    forall i | 0 <= i < |front| - 2 && IsBannerRule(front[i])
      ensures !CompletesBanner(f, front[i + 1..])
    {
      assert all[i + 1..][0] == front[i + 1..][0] && all[i + 1..][1] == front[i + 1..][1];
    }
  }

  lemma {:induction false} FollowUnstamped(f: LogFormat, tag: string, st: FollowState, e: Entry, lines: seq<string>)
    requires Sane(f) && Unstamped(f, lines) && st.pending == Some(e) && st.banner == []
    ensures Folding(f, Steps(f, tag, st, ReadAll(lines)), e, lines, st.seqNo, st.sent)
    decreases |lines|
  {
    hide Step, Sane;
    if lines == [] {
      assert [e.body] + [] == [e.body];
    } else {
      var front, line := lines[..|lines| - 1], lines[|lines| - 1];
      assert lines == front + [line] && ReadAll(lines) == ReadAll(front) + [Read(line + "\n")];
      UnstampedFront(f, front, line);
      FollowUnstamped(f, tag, st, e, front);
      var st1 := Steps(f, tag, st, ReadAll(front));
      FoldStep(f, tag, st1, e, front, line, st.seqNo, st.sent);
      StepsConcat(f, tag, st, ReadAll(front), [Read(line + "\n")]);
      StepsOne(f, tag, st1, Read(line + "\n"));
    }
  }

  lemma StampedEnds(f: LogFormat, tag: string, st: FollowState, e: Entry, lines: seq<string>, seqNo: nat, sent: seq<Entry>, line: string)
    requires Sane(f) && Folding(f, st, e, lines, seqNo, sent) && WellFormedHead(f, Stamped(line)) && f.middle(line).None?
    ensures var st' := Step(f, tag, st, Read(line + "\n"));
            st'.sent == sent + [e.(body := Join([e.body] + lines, "\n"))] && st'.pending.Some? && st'.banner == []
  {
    hide Join;
    ChompLine(line);
    assert !IsBannerRule(line);
    FlushFolds(f, st, e, lines, seqNo, sent);
  }

  lemma FollowerFolds(f: LogFormat, tag: string, seqNo: nat, first: string, lines: seq<string>, second: string)
    requires Sane(f) && Unstamped(f, lines) && WellFormedHead(f, Stamped(first)) && WellFormedHead(f, Stamped(second))
    requires f.middle(second).None?
    ensures var e := Entry(f.stamp(first), tag, Join([HeadBody(Stamped(first))] + lines, "\n"), seqNo, true);
            var sent := Steps(f, tag, FollowState(None, [], seqNo, []), ReadAll([first] + lines + [second]) + [Idle]).sent;
            |sent| == 2 && sent[0] == e
  {
    hide Steps, Unstamped, Folding, Join;
    var st0 := FollowState(None, [], seqNo, []);
    var a, b, c := Read(first + "\n"), ReadAll(lines), Read(second + "\n");
    assert ReadAll([first] + lines + [second]) + [Idle] == [a] + b + [c] + [Idle];
    var st1 := Step(f, tag, st0, a);
    StepsOne(f, tag, st0, a);
    ChompLine(first);
    assert !IsBannerRule(first);
    var e := Entry(f.stamp(first), tag, HeadBody(Stamped(first)), seqNo, true);
    assert st1 == FollowState(Some(e), [], seqNo + 1, []);
    StepsConcat(f, tag, st0, [a], b);
    FollowUnstamped(f, tag, st1, e, lines);
    var st2 := Steps(f, tag, st1, b);
    StepsConcat(f, tag, st0, [a] + b, [c]);
    StepsOne(f, tag, st2, c);
    StampedEnds(f, tag, st2, e, lines, seqNo + 1, [], second);
    var st3 := Step(f, tag, st2, c);
    StepsConcat(f, tag, st0, [a] + b + [c], [Idle]);
    StepsOne(f, tag, st3, Idle);
  }

  lemma JoinOne(s: string)
    ensures Join([s] + [], "\n") == s
  {
  }

  lemma ParseNone(f: LogFormat, tag: string, out: seq<Entry>, seqNo: nat)
    ensures ParseOnto(f, [], tag, out, seqNo) == (out, seqNo)
  {
  }

  lemma FoldsUnstamped(f: LogFormat, lines: seq<string>, second: string)
    requires Sane(f) && Unstamped(f, lines) && f.stamp(second).Some? && f.middle(second).None?
    ensures forall i | 0 <= i < |lines| :: Folds(f, lines + [second], i)
  {
    var all := lines + [second];
    assert !IsBannerRule(second);
    forall i | 0 <= i < |lines|
      ensures Folds(f, all, i)
    {
      assert all[i] == lines[i];
      if i < |lines| - 2 {
        assert all[i + 1..][0] == lines[i + 1..][0] && all[i + 1..][1] == lines[i + 1..][1];
      }
    }
  }

  lemma BatchFolds(f: LogFormat, tag: string, seqNo: nat, first: string, lines: seq<string>, second: string)
    requires Sane(f) && Unstamped(f, lines) && WellFormedHead(f, Stamped(first)) && WellFormedHead(f, Stamped(second))
    requires f.middle(second).None?
    ensures var e := Entry(f.stamp(first), tag, Join([HeadBody(Stamped(first))] + lines, "\n"), seqNo, true);
            var es := ParseOnto(f, [first] + lines + [second], tag, [], seqNo).0;
            |es| == 2 && es[0] == e
  {
    hide ParseOnto, Join;
    var rest := lines + [second];
    assert [first] + lines + [second] == BlockLines(Block(Stamped(first), [])) + rest;
    ParseBlock(f, Block(Stamped(first), []), rest, tag, [], seqNo);
    EntryHolds(f, Block(Stamped(first), []), tag, seqNo);
    var head := EntryOf(f, Block(Stamped(first), []), tag, seqNo);
    JoinOne(HeadBody(Stamped(first)));
    FoldsUnstamped(f, lines, second);
    FoldLines(f, lines, [second], tag, [], head, seqNo + 1);
    ContinuationsJoin(head, lines);
    var out := [] + [WithContinuations(head, lines)];
    assert [second] == BlockLines(Block(Stamped(second), [])) + [];
    ParseBlock(f, Block(Stamped(second), []), [], tag, out, seqNo + 1);
    ParseNone(f, tag, out + [EntryOf(f, Block(Stamped(second), []), tag, seqNo + 1)], seqNo + 2);
  }

  /** Rules and middles that are begun and not completed are continuation lines: after a stamped line, any such lines and
      another stamped line, the follower has sent the first record with all of them, as the batch reader does. */
  lemma AbandonedBannersFold(f: LogFormat, tag: string, seqNo: nat, first: string, lines: seq<string>, second: string)
    requires Sane(f) && Unstamped(f, lines) && WellFormedHead(f, Stamped(first)) && WellFormedHead(f, Stamped(second))
    requires f.middle(second).None?
    ensures var e := Entry(f.stamp(first), tag, Join([HeadBody(Stamped(first))] + lines, "\n"), seqNo, true);
            var sent := Steps(f, tag, FollowState(None, [], seqNo, []), ReadAll([first] + lines + [second]) + [Idle]).sent;
            var batch := ParseOnto(f, [first] + lines + [second], tag, [], seqNo).0;
            |sent| == |batch| == 2 && sent[0] == batch[0] == e
  {
    hide Steps, ParseOnto, Join, Unstamped;
    FollowerFolds(f, tag, seqNo, first, lines, second);
    BatchFolds(f, tag, seqNo, first, lines, second);
  }
}
