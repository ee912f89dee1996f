/** The seek-from-end reader: parse a window at the end of the file, widening it until it holds
    enough entries. */
module LogTail {
  import opened Text
  import opened LogEntries

  /** Bytes of file assumed per entry, and the number of windows tried before reading everything. */
  const BYTES_PER_ENTRY := 200
  const ATTEMPTS := 4

  function LastN<T>(s: seq<T>, n: nat): (r: seq<T>) {
    if |s| > n then s[|s| - n..] else s
  }

  /** What is left after reading up to and including the first newline. */
  function AfterNewline(s: string): (r: string)
    ensures |r| <= |s|
  {
    if s == "" then "" else if s[0] == '\n' then s[1..] else AfterNewline(s[1..])
  }

  /** The text parsed when the window starts at byte `start`: a partial first line is dropped. */
  function Window(file: string, start: nat): string
    requires start <= |file|
  {
    if start == 0 then file else AfterNewline(file[start..])
  }

  /** Entries returned, next sequence number, and where the last window started. */
  datatype TailRun = TailRun(entries: seq<Entry>, next: nat, start: nat)

  function TailFrom(f: LogFormat, file: string, tag: string, n: nat, seqNo: nat, guess: nat, attempts: nat)
    : (r: TailRun)
    ensures r.start <= |file|
    decreases attempts
  {
    var target := if guess > |file| || attempts == 0 then |file| else guess;
    var start := |file| - target;
    if target < |file| && target == 0 then TailRun([], seqNo, start)
    else
      var (es, next) := ParseOnto(f, Split(Window(file, start), '\n'), tag, [], seqNo);
      if |es| >= n || guess >= |file| || attempts == 0 then TailRun(LastN(es, n), next, start)
      else TailFrom(f, file, tag, n, next, if 4 * guess > |file| then |file| else 4 * guess, attempts - 1)
  }

  function Tail(f: LogFormat, file: string, tag: string, n: nat, startSeq: nat): TailRun {
    if file == "" then TailRun([], startSeq, 0)
    else TailFrom(f, file, tag, n, startSeq, n * BYTES_PER_ENTRY, ATTEMPTS)
  }

  /** One attempt of the tail reader. */
  lemma TailStep(f: LogFormat, file: string, tag: string, n: nat, seqNo: nat, guess: nat, attempts: nat)
    ensures var target := if guess > |file| || attempts == 0 then |file| else guess;
            var (es, next) := ParseOnto(f, Split(Window(file, |file| - target), '\n'), tag, [], seqNo);
            TailFrom(f, file, tag, n, seqNo, guess, attempts)
            == if target < |file| && target == 0 then TailRun([], seqNo, |file| - target)
               else if |es| >= n || guess >= |file| || attempts == 0 then TailRun(LastN(es, n), next, |file| - target)
               else TailFrom(f, file, tag, n, next, if 4 * guess > |file| then |file| else 4 * guess, attempts - 1)
  {
    hide ParseOnto, Split, Window, LastN;
  }

  method ReadLastNEntries(f: LogFormat, file: string, tag: string, n: nat, startSeq: nat)
    returns (entries: seq<Entry>, seqNo: nat)
    ensures var run := Tail(f, file, tag, n, startSeq); entries == run.entries && seqNo == run.next
  {
    hide ParseOnto, Split, AfterNewline, TailFrom;
    var size := |file|;
    if size == 0 {
      return [], startSeq;
    }
    var guess: nat := n * BYTES_PER_ENTRY;
    seqNo := startSeq;
    for attempt := 0 to ATTEMPTS
      invariant attempt <= ATTEMPTS
      invariant Tail(f, file, tag, n, startSeq) == TailFrom(f, file, tag, n, seqNo, guess, ATTEMPTS - attempt)
    {
      TailStep(f, file, tag, n, seqNo, guess, ATTEMPTS - attempt);
      var target := if guess > size then size else guess;
      var buf := file[size - target..];
      if target < size {
        if buf == "" {
          return [], seqNo;
        }
        buf := AfterNewline(buf);
      } else {
        assert buf == file;
      }
      var nextSeq;
      entries, nextSeq := ReadEntries(f, buf, tag, seqNo);
      if |entries| >= n || guess >= size {
        if |entries| > n {
          entries := entries[|entries| - n..];
        }
        return entries, nextSeq;
      }
      seqNo := nextSeq;
      guess := guess * 4;
      if guess > size {
        guess := size;
      }
    }
    TailStep(f, file, tag, n, seqNo, guess, 0);
    entries, seqNo := ReadEntries(f, file, tag, seqNo);
    if |entries| > n {
      entries := entries[|entries| - n..];
    }
  }

  // ----- a window starts at a line boundary

  function Newlines(s: string): (k: nat) {
    if s == "" then 0 else (if s[0] == '\n' then 1 else 0) + Newlines(s[1..])
  }

  lemma NewlinesNone()
    ensures Newlines("") == 0
  {
  }

  lemma NewlinesFrom(s: string)
    requires s != ""
    ensures Newlines(s) == (if s[0] == '\n' then 1 else 0) + Newlines(s[1..])
  {
  }

  /** The first line of the file that a window starting at byte `start` parses. */
  function FirstLine(file: string, start: nat): (j: nat)
    requires start <= |file|
    ensures start == 0 <==> j == 0
  {
    if start == 0 then 0 else 1 + Newlines(file[..start])
  }

  lemma {:induction false} SplitAfterNewline(s: string)
    requires '\n' in s
    ensures |Split(s, '\n')| >= 2 && Split(AfterNewline(s), '\n') == Split(s, '\n')[1..]
  {
    if s[0] != '\n' {
      SplitAfterNewline(s[1..]);
    }
  }

  /** Beyond the first line, dropping the first character drops at most the first line. */
  lemma SplitDropsFirst(s: string, j: nat)
    requires s != "" && 1 <= j < |Split(s[1..], '\n')|
    ensures var k := if s[0] == '\n' then j + 1 else j;
            k < |Split(s, '\n')| && Split(s[1..], '\n')[j..] == Split(s, '\n')[k..]
  {
    var pieces, whole := Split(s[1..], '\n'), Split(s, '\n');
    if s[0] == '\n' {
      assert whole == [""] + pieces;
    } else {
      assert whole[1..] == pieces[1..];
    }
  }

  lemma FirstLineFrom(s: string, start: nat)
    requires 0 < start < |s|
    ensures var j := if start == 1 then 1 else FirstLine(s[1..], start - 1);
            FirstLine(s, start) == if s[0] == '\n' then j + 1 else j
  {
    hide Newlines;
    var all := s[..start];
    NewlinesFrom(all);
    assert all[0] == s[0] && all[1..] == s[1..][..start - 1];
    if start == 1 {
      assert all[1..] == "";
      NewlinesNone();
    }
  }

  lemma WindowFrom(s: string, start: nat)
    requires 0 < start < |s|
    ensures Window(s, start) == if start == 1 then AfterNewline(s[1..]) else Window(s[1..], start - 1)
  {
    hide AfterNewline;
    assert s[start..] == s[1..][start - 1..];
  }

  /** Dropping the partial first line of a window leaves a suffix of the file's lines. */
  lemma {:induction false} WindowLines(file: string, start: nat)
    requires 0 < start < |file| && file[|file| - 1] == '\n'
    ensures FirstLine(file, start) < |Split(file, '\n')|
    ensures Split(Window(file, start), '\n') == Split(file, '\n')[FirstLine(file, start)..]
  {
    hide Split, AfterNewline, FirstLine, Window;
    var rest := file[1..];
    assert rest[|rest| - 1] == '\n';
    WindowFrom(file, start);
    FirstLineFrom(file, start);
    if start == 1 {
      SplitAfterNewline(rest);
      SplitDropsFirst(file, 1);
    } else {
      WindowLines(rest, start - 1);
      SplitDropsFirst(file, FirstLine(rest, start - 1));
    }
  }

  // ----- a parse that starts anywhere resynchronises after at most one entry

  /** The first block that begins at or after line `j`. */
  function FirstBlock(blocks: seq<Block>, j: nat): (k: nat)
    ensures k <= |blocks|
    ensures k == 0 <==> j == 0 || blocks == []
  {
    if blocks == [] || j == 0 then 0
    else if j < |BlockLines(blocks[0])| then 1
    else 1 + FirstBlock(blocks[1..], j - |BlockLines(blocks[0])|)
  }

  /** The lines from `j` to the end of the block that `j` falls inside; none at a block boundary. */
  function FragmentLines(blocks: seq<Block>, j: nat): (lines: seq<string>)
    ensures j == 0 || blocks == [] ==> lines == []
  {
    if blocks == [] || j == 0 then []
    else if j < |BlockLines(blocks[0])| then BlockLines(blocks[0])[j..]
    else FragmentLines(blocks[1..], j - |BlockLines(blocks[0])|)
  }

  /** The entry without timestamp that such a fragment is read as. */
  function FragmentEntry(lines: seq<string>, tag: string, seqNo: nat): (es: seq<Entry>)
    ensures |es| == if lines == [] then 0 else 1
  {
    if lines == [] then [] else [WithContinuations(HeadlessEntry(lines[0], tag, seqNo), lines[1..])]
  }

  /** A parse that starts inside the block cannot go wrong: the middle of a banner does not look like a stamped
      line, and what follows a banner does not complete another banner with its second rule. */
  predicate Unambiguous(f: LogFormat, b: Block, next: seq<string>) {
    b.head.Banner? ==> f.stamp(b.head.mid).None? && !CompletesBanner(f, b.conts + next)
  }

  predicate AllUnambiguous(f: LogFormat, blocks: seq<Block>) {
    blocks != [] ==> Unambiguous(f, blocks[0], Flatten(blocks[1..])) && AllUnambiguous(f, blocks[1..])
  }

  /** A well-formed log that can be read from any line on. */
  ghost predicate Readable(f: LogFormat, blocks: seq<Block>) {
    Sane(f) && (forall i | 0 <= i < |blocks| :: WellFormed(f, blocks[i])) && AllUnambiguous(f, blocks)
  }

  lemma BannerLines(f: LogFormat, h: Head)
    requires Sane(f) && WellFormedHead(f, h) && h.Banner?
    ensures f.stamp(h.rule2).None? && h.rule2 != "" && h.mid != "" && !IsBannerRule(h.mid)
  {
  }

  lemma EmptyLineNoBanner(f: LogFormat, lines: seq<string>)
    ensures CompletesBanner(f, lines + [""]) <==> CompletesBanner(f, lines)
  {
  }

  lemma FragmentFolds(f: LogFormat, b: Block, j: nat, next: seq<string>)
    requires Sane(f) && WellFormed(f, b) && Unambiguous(f, b, next) && 0 < j < |BlockLines(b)|
    ensures var lines := BlockLines(b)[j..];
            forall i | 0 <= i < |lines| :: Folds(f, lines + (next + [""]), i)
  {
    hide Sane, CompletesBanner;
    var lines, h := BlockLines(b)[j..], |HeadLines(b.head)|;
    var all := lines + (next + [""]);
    forall i | 0 <= i < |lines|
      ensures Folds(f, all, i)
    {
      var at := j + i;
      assert all[i] == BlockLines(b)[at];
      if at >= h {
        assert Continuation(f, b.conts[at - h]);
      } else {
        assert b.head.Banner?;
        BannerLines(f, b.head);
        if at == 2 {
          assert all[i + 1..] == b.conts + next + [""];
          EmptyLineNoBanner(f, b.conts + next);
        }
      }
    }
  }

  /** A parse started in the middle of a block yields one headless entry for what is left of it. */
  lemma ParseFragment(f: LogFormat, frag: seq<string>, rest: seq<string>, tag: string, seqNo: nat)
    requires frag != [] && forall i | 0 <= i < |frag| :: Folds(f, frag + rest, i)
    ensures ParseOnto(f, frag + rest, tag, [], seqNo) == ParseOnto(f, rest, tag, FragmentEntry(frag, tag, seqNo), seqNo + 1)
  {
    var lines, more := frag + rest, frag[1..] + rest;
    assert Folds(f, lines, 0) && lines[0] == frag[0] && lines[1..] == more;
    forall i | 0 <= i < |frag[1..]|
      ensures Folds(f, more, i)
    {
      assert Folds(f, lines, i + 1) && lines[i + 2..] == more[i + 1..];
    }
    var head := HeadlessEntry(frag[0], tag, seqNo);
    assert [] + [head] == [head];
    FoldLines(f, frag[1..], rest, tag, [], head, seqNo + 1);
    assert [] + [WithContinuations(head, frag[1..])] == FragmentEntry(frag, tag, seqNo);
  }

  lemma ParseTerminated(f: LogFormat, blocks: seq<Block>, tag: string, out: seq<Entry>, seqNo: nat)
    requires Sane(f) && forall i | 0 <= i < |blocks| :: WellFormed(f, blocks[i])
    ensures ParseOnto(f, Flatten(blocks) + [""], tag, out, seqNo).0 == out + EntriesOf(f, blocks, tag, seqNo)
  {
    ParseInvertsFlatten(f, blocks, [""], tag, out, seqNo);
    hide EntriesOf, Flatten, Sane;
    assert [""][1..] == [];
  }

  lemma ParseInside(f: LogFormat, blocks: seq<Block>, j: nat, tag: string, seqNo: nat)
    requires Readable(f, blocks) && blocks != [] && 0 < j < |BlockLines(blocks[0])|
    ensures var frag := BlockLines(blocks[0])[j..];
            ParseOnto(f, frag + (Flatten(blocks[1..]) + [""]), tag, [], seqNo).0
            == FragmentEntry(frag, tag, seqNo) + EntriesOf(f, blocks[1..], tag, seqNo + 1)
  {
    hide ParseOnto, Sane, WellFormed, Unambiguous, Folds;
    var frag, next := BlockLines(blocks[0])[j..], Flatten(blocks[1..]);
    var rest := next + [""];
    FragmentFolds(f, blocks[0], j, next);
    ParseFragment(f, frag, rest, tag, seqNo);
    ParseTerminated(f, blocks[1..], tag, FragmentEntry(frag, tag, seqNo), seqNo + 1);
  }

  /** From any line of a well-formed log, the parser reads at most one fragment and then exactly the
      entries of the blocks that follow. */
  lemma {:induction false} Resynchronises(f: LogFormat, blocks: seq<Block>, j: nat, tag: string, seqNo: nat)
    requires Readable(f, blocks) && j <= |Flatten(blocks)|
    ensures var frag := FragmentEntry(FragmentLines(blocks, j), tag, seqNo);
            var k := FirstBlock(blocks, j);
            ParseOnto(f, (Flatten(blocks) + [""])[j..], tag, [], seqNo).0
            == frag + EntriesOf(f, blocks[k..], tag, seqNo + |frag|)
    decreases |blocks|
  {
    hide ParseOnto, EntriesOf, WellFormed, Unambiguous, Sane, FragmentEntry, BlockLines;
    var lines := Flatten(blocks) + [""];
    if j == 0 || blocks == [] {
      assert lines[j..] == lines && blocks[0..] == blocks;
      assert FragmentLines(blocks, j) == [] && FragmentEntry([], tag, seqNo) == [];
      ParseTerminated(f, blocks, tag, [], seqNo);
    } else {
      var len, rest := |BlockLines(blocks[0])|, Flatten(blocks[1..]) + [""];
      assert lines == BlockLines(blocks[0]) + rest;
      if j < len {
        assert lines[j..] == BlockLines(blocks[0])[j..] + rest;
        ParseInside(f, blocks, j, tag, seqNo);
      } else {
        assert lines[j..] == rest[j - len..];
        assert blocks[1..][FirstBlock(blocks[1..], j - len)..] == blocks[FirstBlock(blocks, j)..];
        Resynchronises(f, blocks[1..], j - len, tag, seqNo);
      }
    }
  }

  // ----- the tail reader returns the last entries

  /** Entries without their sequence numbers, which depend on how many windows were tried. */
  function Unnumbered(es: seq<Entry>): (r: seq<Entry>)
    ensures |r| == |es| && forall i | 0 <= i < |es| :: r[i] == es[i].(seqNo := 0)
  {
    seq(|es|, i requires 0 <= i < |es| => es[i].(seqNo := 0))
  }

  lemma {:induction false} ContinuationsKeepNumber(e: Entry, conts: seq<string>, seqNo: nat)
    ensures WithContinuations(e.(seqNo := seqNo), conts) == WithContinuations(e, conts).(seqNo := seqNo)
    ensures WithContinuations(e, conts).ts == e.ts
    decreases |conts|
  {
    if conts == [] {
    } else {
      ContinuationsKeepNumber(Continued(e, conts[0]), conts[1..], seqNo);
    }
  }

  /** Entry `i` of a log depends on its block only, apart from its number, and has a timestamp. */
  lemma {:induction false} EntryAt(f: LogFormat, blocks: seq<Block>, tag: string, seqNo: nat, i: nat)
    requires i < |blocks| && forall i | 0 <= i < |blocks| :: WellFormed(f, blocks[i])
    ensures var e := EntriesOf(f, blocks, tag, seqNo)[i];
            e.(seqNo := 0) == EntryOf(f, blocks[i], tag, 0) && e.ts.Some?
    decreases |blocks|
  {
    if i == 0 {
      var b := blocks[0];
      ContinuationsKeepNumber(HeadEntry(f, b.head, tag, seqNo), b.conts, 0);
    } else {
      EntryAt(f, blocks[1..], tag, seqNo + 1, i - 1);
    }
  }

  /** The entries of the last blocks are the last entries of all blocks. */
  lemma SuffixEntries(f: LogFormat, blocks: seq<Block>, k: nat, tag: string, seqNo: nat, seqNo': nat)
    requires k <= |blocks| && forall i | 0 <= i < |blocks| :: WellFormed(f, blocks[i])
    ensures Unnumbered(EntriesOf(f, blocks[k..], tag, seqNo')) == Unnumbered(EntriesOf(f, blocks, tag, seqNo))[k..]
  {
    var a, b := EntriesOf(f, blocks[k..], tag, seqNo'), EntriesOf(f, blocks, tag, seqNo);
    forall i | 0 <= i < |a|
      ensures Unnumbered(a)[i] == Unnumbered(b)[k..][i]
    {
      EntryAt(f, blocks[k..], tag, seqNo', i);
      EntryAt(f, blocks, tag, seqNo, k + i);
    }
  }

  // ----- which window the reader stops at

  /** The lengths of the lines of a record, newlines included. */
  function LineLengths(lines: seq<string>): (lens: seq<nat>)
    ensures |lens| == |lines| && forall i | 0 <= i < |lines| :: lens[i] == |lines[i]| + 1
  {
    seq(|lines|, i requires 0 <= i < |lines| => |lines[i]| + 1)
  }

  function Shape(blocks: seq<Block>): (shape: seq<seq<nat>>)
    ensures |shape| == |blocks| && forall i | 0 <= i < |blocks| :: shape[i] == LineLengths(BlockLines(blocks[i]))
  {
    seq(|blocks|, i requires 0 <= i < |blocks| => LineLengths(BlockLines(blocks[i])))
  }

  function Bytes(lens: seq<nat>): nat {
    if lens == [] then 0 else lens[0] + Bytes(lens[1..])
  }

  function Size(shape: seq<seq<nat>>): nat {
    if shape == [] then 0 else Bytes(shape[0]) + Size(shape[1..])
  }

  /** Number of records that begin after byte `start`. */
  function RecordsAfter(shape: seq<seq<nat>>, start: nat): nat
    decreases |shape|
  {
    if shape == [] then 0
    else if start < Bytes(shape[0]) then |shape| - 1
    else RecordsAfter(shape[1..], start - Bytes(shape[0]))
  }

  /** Some line of the record at byte `start`, but not the record, begins after that byte. */
  predicate CutsRecord(shape: seq<seq<nat>>, start: nat)
    decreases |shape|
  {
    && shape != []
    && if start < Bytes(shape[0]) then |shape[0]| > 0 && start < Bytes(shape[0]) - shape[0][|shape[0]| - 1]
       else CutsRecord(shape[1..], start - Bytes(shape[0]))
  }

  /** Number of entries that the window from byte `start` on parses to. */
  function EntriesHeld(shape: seq<seq<nat>>, start: nat): nat {
    if start == 0 then |shape|
    else RecordsAfter(shape, start) + if CutsRecord(shape, start) then 1 else 0
  }

  /** Where the first window starts that holds `n` entries, of at most `attempts` windows, each four times
      as long as the one before, and then the whole file. */
  function StopFrom(shape: seq<seq<nat>>, n: nat, guess: nat, attempts: nat): (start: nat)
    ensures start <= Size(shape)
    decreases attempts
  {
    var size := Size(shape);
    if guess >= size || attempts == 0 then 0
    else if guess == 0 || EntriesHeld(shape, size - guess) >= n then size - guess
    else StopFrom(shape, n, if 4 * guess > size then size else 4 * guess, attempts - 1)
  }

  /** The window that decides: the first of 200, 800, 3200 and 12800 bytes per entry wanted that holds enough. */
  function StopAt(shape: seq<seq<nat>>, n: nat): nat {
    StopFrom(shape, n, n * BYTES_PER_ENTRY, ATTEMPTS)
  }

  /** The window from byte `start` on begins inside a record and holds exactly `n` entries with the rest of it. */
  predicate CutsExactly(shape: seq<seq<nat>>, start: nat, n: nat) {
    start > 0 && CutsRecord(shape, start) && EntriesHeld(shape, start) == n
  }

  /** Number of lines that begin at or before byte `start`. */
  function LinesBegun(lines: seq<string>, start: nat): (k: nat)
    ensures k <= |lines|
    ensures lines != [] ==> k >= 1
    decreases |lines|
  {
    if lines == [] then 0
    else if start <= |lines[0]| then 1
    else 1 + LinesBegun(lines[1..], start - |lines[0]| - 1)
  }

  lemma {:induction false} NewlinesConcat(a: string, b: string)
    ensures Newlines(a + b) == Newlines(a) + Newlines(b)
  {
    if a == "" {
      assert a + b == b;
    } else {
      NewlinesConcat(a[1..], b);
      assert (a + b)[1..] == a[1..] + b;
    }
  }

  lemma {:induction false} NewlinesInLine(a: string)
    requires '\n' !in a
    ensures Newlines(a) == 0
  {
    if a == "" {
    } else {
      NewlinesInLine(a[1..]);
    }
  }

  /** Counting newlines finds the same line as adding up lengths. */
  lemma {:induction false} NewlinesAreLines(lines: seq<string>, start: nat)
    requires forall i | 0 <= i < |lines| :: '\n' !in lines[i]
    requires start < |Terminated(lines)|
    ensures 1 + Newlines(Terminated(lines)[..start]) == LinesBegun(lines, start)
    decreases |lines|
  {
    hide Newlines;
    if lines == [] {
    } else {
      var line, more := lines[0], Terminated(lines[1..]);
      var text := line + "\n" + more;
      if start <= |line| {
        assert text[..start] == line[..start];
        NewlinesInLine(line[..start]);
      } else {
        var k := start - |line| - 1;
        NewlinesAreLines(lines[1..], k);
        assert text[..start] == line + "\n" + more[..k];
        NewlinesConcat(line + "\n", more[..k]);
        NewlinesConcat(line, "\n");
        NewlinesInLine(line);
        NewlinesFrom("\n");
        NewlinesNone();
        assert "\n"[1..] == "";
      }
    }
  }

  lemma {:induction false} LinesBegunConcat(a: seq<string>, b: seq<string>, start: nat)
    ensures var size := Bytes(LineLengths(a));
            LinesBegun(a + b, start) == if start < size then LinesBegun(a, start) else |a| + LinesBegun(b, start - size)
    decreases |a|
  {
    if a == [] {
      assert a + b == b;
    } else {
      assert (a + b)[1..] == a[1..] + b && LineLengths(a)[1..] == LineLengths(a[1..]);
      if start > |a[0]| {
        LinesBegunConcat(a[1..], b, start - |a[0]| - 1);
      }
    }
  }

  lemma {:induction false} LastWithin(lens: seq<nat>)
    requires lens != []
    ensures lens[|lens| - 1] <= Bytes(lens)
  {
    if |lens| > 1 {
      LastWithin(lens[1..]);
    }
  }

  /** A record has a line that begins after byte `start` exactly if `start` is before its last line. */
  lemma {:induction false} LinesBegunLast(lines: seq<string>, start: nat)
    requires lines != []
    ensures var lens := LineLengths(lines);
            LinesBegun(lines, start) < |lines| <==> start < Bytes(lens) - lens[|lens| - 1]
    decreases |lines|
  {
    var lens := LineLengths(lines);
    assert lens[1..] == LineLengths(lines[1..]);
    if |lines| == 1 {
      assert Bytes(lens[1..]) == 0;
    } else {
      LastWithin(lens[1..]);
      if start > |lines[0]| {
        LinesBegunLast(lines[1..], start - |lines[0]| - 1);
      }
    }
  }

  lemma FlattenSome(blocks: seq<Block>)
    requires blocks != []
    ensures Flatten(blocks) != []
  {
  }

  lemma BlocksFrom(blocks: seq<Block>, j: nat)
    requires blocks != [] && j > 0
    ensures var len, rest := |BlockLines(blocks[0])|, blocks[1..];
            && FirstBlock(blocks, j) == (if j < len then 1 else 1 + FirstBlock(rest, j - len))
            && (FragmentLines(blocks, j) != [] <==> j < len || FragmentLines(rest, j - len) != [])
  {
    hide BlockLines;
  }

  lemma ShapeFrom(blocks: seq<Block>, start: nat)
    requires blocks != []
    ensures var lens, rest := LineLengths(BlockLines(blocks[0])), Shape(blocks[1..]);
            && RecordsAfter(Shape(blocks), start)
               == (if start < Bytes(lens) then |blocks| - 1 else RecordsAfter(rest, start - Bytes(lens)))
            && (CutsRecord(Shape(blocks), start)
                <==> if start < Bytes(lens) then start < Bytes(lens) - lens[|lens| - 1] else CutsRecord(rest, start - Bytes(lens)))
  {
    hide BlockLines, Bytes;
    assert Shape(blocks)[1..] == Shape(blocks[1..]);
  }

  lemma NothingFrom(blocks: seq<Block>)
    ensures FirstBlock(blocks, 0) == 0 && FragmentLines(blocks, 0) == []
  {
  }

  /** The record lengths say where a window cuts the log. */
  lemma {:induction false} ShapeSaysWhere(blocks: seq<Block>, start: nat)
    ensures var j, shape := LinesBegun(Flatten(blocks), start), Shape(blocks);
            && |blocks| - FirstBlock(blocks, j) == RecordsAfter(shape, start)
            && (FragmentLines(blocks, j) != [] <==> CutsRecord(shape, start))
    decreases |blocks|
  {
    if blocks == [] {
    } else {
      var lines, rest := BlockLines(blocks[0]), blocks[1..];
      var size := Bytes(LineLengths(lines));
      assert Flatten(blocks) == lines + Flatten(rest);
      hide BlockLines, LinesBegun, Bytes, FirstBlock, FragmentLines, RecordsAfter, CutsRecord, Shape, Flatten;
      LinesBegunConcat(lines, Flatten(rest), start);
      LinesBegunLast(lines, start);
      var j := LinesBegun(Flatten(blocks), start);
      BlocksFrom(blocks, j);
      ShapeFrom(blocks, start);
      if start >= size {
        ShapeSaysWhere(rest, start - size);
      } else {
        NothingFrom(rest);
      }
    }
  }

  lemma {:induction false} TerminatedConcat(a: seq<string>, b: seq<string>)
    ensures Terminated(a + b) == Terminated(a) + Terminated(b)
  {
    if a == [] {
      assert a + b == b;
    } else {
      TerminatedConcat(a[1..], b);
      assert (a + b)[1..] == a[1..] + b;
      assert a[0] + "\n" + (Terminated(a[1..]) + Terminated(b)) == a[0] + "\n" + Terminated(a[1..]) + Terminated(b);
    }
  }

  lemma {:induction false} TerminatedLength(lines: seq<string>)
    ensures |Terminated(lines)| == Bytes(LineLengths(lines))
  {
    if lines == [] {
    } else {
      TerminatedLength(lines[1..]);
      assert LineLengths(lines)[1..] == LineLengths(lines[1..]);
    }
  }

  lemma {:induction false} ShapeSize(blocks: seq<Block>)
    ensures |LogText(blocks)| == Size(Shape(blocks))
  {
    if blocks == [] {
    } else {
      ShapeSize(blocks[1..]);
      assert Shape(blocks)[1..] == Shape(blocks[1..]);
      TerminatedConcat(BlockLines(blocks[0]), Flatten(blocks[1..]));
      TerminatedLength(BlockLines(blocks[0]));
    }
  }

  // ----- the windows give the last entries

  /** `es` is the last `n` entries of the log, or has a fragment in the place of the first of them. */
  ghost predicate LastEntries(f: LogFormat, blocks: seq<Block>, tag: string, n: nat, es: seq<Entry>, cut: bool)
    requires forall i | 0 <= i < |blocks| :: WellFormed(f, blocks[i])
  {
    var last := LastN(Unnumbered(EntriesOf(f, blocks, tag, 0)), n);
    && |es| == |last|
    && (Unnumbered(es) == last <==> !cut)
    && (cut ==> es != [] && es[0].ts.None? && Unnumbered(es)[1..] == last[1..])
  }

  lemma SomeBlocks(blocks: seq<Block>)
    requires LogText(blocks) != ""
    ensures blocks != [] && Flatten(blocks) != []
  {
  }

  lemma WholeWindow(file: string)
    ensures Window(file, 0) == file && Split(file, '\n')[0..] == Split(file, '\n')
  {
  }

  /** It has no time, and holds the lines joined by newlines. */
  lemma FragmentHeadless(lines: seq<string>, tag: string, seqNo: nat)
    ensures lines != [] ==> FragmentEntry(lines, tag, seqNo) == [Entry(None, tag, Join(lines, "\n"), seqNo, false)]
  {
    if lines != [] {
      ContinuationsJoin(HeadlessEntry(lines[0], tag, seqNo), lines[1..]);
      assert [lines[0]] + lines[1..] == lines;
    }
  }

  lemma {:induction false} TerminatedEnds(lines: seq<string>)
    requires lines != []
    ensures Terminated(lines) != "" && Terminated(lines)[|Terminated(lines)| - 1] == '\n'
  {
    if |lines| > 1 {
      TerminatedEnds(lines[1..]);
    }
  }

  /** What any window of the file parses to. */
  lemma ParseWindow(f: LogFormat, blocks: seq<Block>, start: nat, tag: string, seqNo: nat)
    returns (k: nat, frag: seq<Entry>)
    requires Readable(f, blocks) && start < |LogText(blocks)|
    ensures k <= |blocks| && (k == 0 <==> start == 0)
    ensures |frag| == if start > 0 && CutsRecord(Shape(blocks), start) then 1 else 0
    ensures frag != [] ==> k > 0 && frag[0].ts.None?
    ensures |frag| + |blocks| - k == EntriesHeld(Shape(blocks), start)
    ensures ParseOnto(f, Split(Window(LogText(blocks), start), '\n'), tag, [], seqNo).0
         == frag + EntriesOf(f, blocks[k..], tag, seqNo + |frag|)
  {
    hide ParseOnto, EntriesOf, WellFormed, Unambiguous, FirstBlock, FragmentLines, CutsRecord, Split, Window, Sane;
    FlattenWholeLines(f, blocks);
    SplitTerminated(Flatten(blocks));
    var j := FirstLine(LogText(blocks), start);
    k, frag := FirstBlock(blocks, j), FragmentEntry(FragmentLines(blocks, j), tag, seqNo);
    SomeBlocks(blocks);
    if start > 0 {
      TerminatedEnds(Flatten(blocks));
      WindowLines(LogText(blocks), start);
      NewlinesAreLines(Flatten(blocks), start);
      ShapeSaysWhere(blocks, start);
    } else {
      WholeWindow(LogText(blocks));
    }
    FragmentHeadless(FragmentLines(blocks, j), tag, seqNo);
    Resynchronises(f, blocks, j, tag, seqNo);
  }

  lemma LastOfCut(es: seq<Entry>, full: seq<Entry>, k: nat, n: nat)
    requires 0 < k <= |full| && |es| == |full| - k + 1 == n && Unnumbered(es[1..]) == full[k..]
    ensures LastN(es, n) == es && LastN(full, n) == full[k - 1..]
    ensures Unnumbered(es)[1..] == LastN(full, n)[1..]
  {
    assert Unnumbered(es)[1..] == Unnumbered(es[1..]);
  }

  lemma LastNConcat(a: seq<Entry>, b: seq<Entry>, n: nat)
    requires |b| >= n || a == []
    ensures LastN(a + b, n) == LastN(b, n)
  {
    assert a == [] ==> a + b == b;
  }

  lemma LastNUnnumbered(es: seq<Entry>, n: nat)
    ensures Unnumbered(LastN(es, n)) == LastN(Unnumbered(es), n)
    ensures |Unnumbered(es)| == |es|
  {
  }

  lemma LastOfSuffix(es: seq<Entry>, frag: seq<Entry>, tail: seq<Entry>, full: seq<Entry>, k: nat, n: nat)
    requires k <= |full| && Unnumbered(tail) == full[k..] && es == frag + tail
    requires |tail| >= n || (frag == [] && k == 0)
    ensures Unnumbered(LastN(es, n)) == LastN(full, n)
  {
    hide LastN, Unnumbered;
    LastNConcat(frag, tail, n);
    LastNConcat(full[..k], full[k..], n);
    assert full[..k] + full[k..] == full;
    LastNUnnumbered(tail, n);
  }

  /** A window with at least `n` entries, or one that covers the whole file, gives the last entries. */
  lemma AcceptedWindow(f: LogFormat, blocks: seq<Block>, k: nat, frag: seq<Entry>, tag: string, n: nat, seqNo: nat)
    requires forall i | 0 <= i < |blocks| :: WellFormed(f, blocks[i])
    requires k <= |blocks| && |frag| <= 1 && (frag != [] ==> k > 0 && frag[0].ts.None?)
    requires |frag| + |blocks| - k >= n || k == 0
    ensures var es := frag + EntriesOf(f, blocks[k..], tag, seqNo);
            LastEntries(f, blocks, tag, n, LastN(es, n), frag != [] && |es| == n)
  {
    hide EntriesOf, WellFormed, LastN;
    var tail := EntriesOf(f, blocks[k..], tag, seqNo);
    var es := frag + tail;
    SuffixEntries(f, blocks, k, tag, 0, seqNo);
    var full := Unnumbered(EntriesOf(f, blocks, tag, 0));
    if frag != [] && |es| == n {
      assert es[1..] == tail && es[0] == frag[0];
      LastOfCut(es, full, k, n);
      EntryAt(f, blocks, tag, 0, k - 1);
    } else {
      LastOfSuffix(es, frag, tail, full, k, n);
    }
  }

  lemma NoneNotCut(shape: seq<seq<nat>>, start: nat)
    ensures !CutsExactly(shape, start, 0)
  {
  }

  lemma EmptyTail(f: LogFormat, blocks: seq<Block>, tag: string)
    requires forall i | 0 <= i < |blocks| :: WellFormed(f, blocks[i])
    ensures LastEntries(f, blocks, tag, 0, [], false)
  {
    var full := Unnumbered(EntriesOf(f, blocks, tag, 0));
    assert LastN(full, 0) == [] && Unnumbered([]) == [];
  }

  /** What one window yields, and that it is right if the reader stops there. */
  lemma WindowGives(f: LogFormat, blocks: seq<Block>, start: nat, tag: string, n: nat, seqNo: nat)
    returns (es: seq<Entry>, next: nat)
    requires Readable(f, blocks) && start < |LogText(blocks)|
    ensures (es, next) == ParseOnto(f, Split(Window(LogText(blocks), start), '\n'), tag, [], seqNo)
    ensures |es| == EntriesHeld(Shape(blocks), start)
    ensures |es| >= n || start == 0 ==> LastEntries(f, blocks, tag, n, LastN(es, n), CutsExactly(Shape(blocks), start, n))
  {
    hide ParseOnto, EntriesOf, WellFormed, LastEntries, Window, Split, Sane, AllUnambiguous, LastN, CutsRecord, RecordsAfter;
    var k, frag := ParseWindow(f, blocks, start, tag, seqNo);
    var r := ParseOnto(f, Split(Window(LogText(blocks), start), '\n'), tag, [], seqNo);
    es, next := r.0, r.1;
    if |es| >= n || start == 0 {
      AcceptedWindow(f, blocks, k, frag, tag, n, seqNo + |frag|);
    }
  }

  lemma {:induction false} TailFromIsLast(f: LogFormat, blocks: seq<Block>, tag: string, n: nat, seqNo: nat,
                                          guess: nat, attempts: nat)
    requires Readable(f, blocks) && blocks != [] && (guess == 0 <==> n == 0)
    ensures var run, shape := TailFrom(f, LogText(blocks), tag, n, seqNo, guess, attempts), Shape(blocks);
            && run.start == StopFrom(shape, n, guess, attempts)
            && LastEntries(f, blocks, tag, n, run.entries, CutsExactly(shape, run.start, n))
    decreases attempts
  {
    hide ParseOnto, WellFormed, LastEntries, Window, Split, TailFrom, Sane, AllUnambiguous, LastN, CutsRecord, EntriesHeld;
    hide Terminated, Shape;
    var file, shape := LogText(blocks), Shape(blocks);
    ShapeSize(blocks);
    FlattenSome(blocks);
    TerminatedEnds(Flatten(blocks));
    TailStep(f, file, tag, n, seqNo, guess, attempts);
    var start := if guess > |file| || attempts == 0 then 0 else |file| - guess;
    if start > 0 && guess == 0 {
      EmptyTail(f, blocks, tag);
      NoneNotCut(shape, start);
    } else {
      var es, next := WindowGives(f, blocks, start, tag, n, seqNo);
      if |es| < n && start > 0 {
        TailFromIsLast(f, blocks, tag, n, next, if 4 * guess > |file| then |file| else 4 * guess, attempts - 1);
      }
    }
  }

  /** On every readable log the tail reader returns exactly the last `n` entries of the whole log, if and only
      if the window that the record lengths make it stop at does not cut a record while holding exactly `n`
      entries; in that case only the first entry differs: it is a fragment without timestamp. */
  lemma TailReturnsLastEntries(f: LogFormat, blocks: seq<Block>, tag: string, n: nat, startSeq: nat)
    requires Readable(f, blocks)
    ensures var run, stop := Tail(f, LogText(blocks), tag, n, startSeq), StopAt(Shape(blocks), n);
            run.start == stop && LastEntries(f, blocks, tag, n, run.entries, CutsExactly(Shape(blocks), stop, n))
  {
    if blocks == [] {
      assert Unnumbered([]) == [];
    } else {
      FlattenSome(blocks);
      TerminatedEnds(Flatten(blocks));
      TailFromIsLast(f, blocks, tag, n, startSeq, n * BYTES_PER_ENTRY, ATTEMPTS);
    }
  }

  /** Records of one line are never cut. */
  lemma {:induction false} OneLineNeverCut(shape: seq<seq<nat>>, start: nat)
    requires forall i | 0 <= i < |shape| :: |shape[i]| == 1
    ensures !CutsRecord(shape, start)
    decreases |shape|
  {
    if shape == [] {
    } else {
      assert Bytes(shape[0]) == shape[0][0] + Bytes(shape[0][1..]);
      if start >= Bytes(shape[0]) {
        OneLineNeverCut(shape[1..], start - Bytes(shape[0]));
      }
    }
  }

  lemma ParseEmpty(f: LogFormat, tag: string, out: seq<Entry>, seqNo: nat)
    ensures ParseOnto(f, [""], tag, out, seqNo) == (out, seqNo)
  {
    assert [""][1..] == [];
  }

  lemma OneRecordText(line: string, cont: string)
    ensures LogText([Block(Stamped(line), [cont])]) == line + "\n" + (cont + "\n")
  {
    var blocks := [Block(Stamped(line), [cont])];
    assert blocks[1..] == [] && Flatten(blocks) == [line, cont];
    assert [line, cont][1..] == [cont] && [cont][1..] == [];
    assert Terminated([cont]) == cont + "\n" + "";
  }

  lemma OneRecord(f: LogFormat, line: string, cont: string)
    requires Readable(f, [Block(Stamped(line), [cont])])
    ensures '\n' !in line && '\n' !in cont && Split(cont + "\n", '\n') == [cont, ""]
    ensures Folds(f, [cont] + [""], 0)
  {
    var b := [Block(Stamped(line), [cont])][0];
    assert WellFormed(f, b) && Continuation(f, b.conts[0]);
    assert [cont][0] == cont;
    SplitTerminated([cont]);
    assert [cont][1..] == [] && Terminated([]) == "";
    assert cont + "\n" + "" == cont + "\n";
    assert [cont] + [""] == [cont, ""];
  }

  lemma {:induction false} AfterNewlineSkips(a: string, rest: string)
    requires '\n' !in a
    ensures AfterNewline(a + "\n" + rest) == rest
  {
    if a == "" {
    } else {
      AfterNewlineSkips(a[1..], rest);
      assert (a + "\n" + rest)[1..] == a[1..] + "\n" + rest;
    }
  }

  /** The exception is real: asked for one entry of a log whose only record is a long stamped line with
      a short continuation, the reader returns the continuation alone. */
  lemma FragmentReturned(f: LogFormat, line: string, cont: string, tag: string, startSeq: nat)
    requires Readable(f, [Block(Stamped(line), [cont])])
    requires |line| + 1 >= BYTES_PER_ENTRY > |cont| + 1
    ensures Tail(f, LogText([Block(Stamped(line), [cont])]), tag, 1, startSeq).entries
         == [Entry(None, tag, cont, startSeq, false)]
  {
    hide Folds, ParseOnto, TailFrom, Split, AfterNewline, Readable;
    var blocks, file := [Block(Stamped(line), [cont])], line + "\n" + (cont + "\n");
    OneRecordText(line, cont);
    var start := |file| - BYTES_PER_ENTRY;
    TailStep(f, file, tag, 1, startSeq, BYTES_PER_ENTRY, ATTEMPTS);
    OneRecord(f, line, cont);
    assert file[start..] == line[start..] + "\n" + (cont + "\n");
    AfterNewlineSkips(line[start..], cont + "\n");
    ParseFragment(f, [cont], [""], tag, startSeq);
    ParseEmpty(f, tag, FragmentEntry([cont], tag, startSeq), startSeq + 1);
    assert [cont] + [""] == [cont, ""] && [cont][1..] == [];
  }

  // ----- numbers

  lemma LastNumbers(es: seq<Entry>, tag: string, base: nat, n: nat)
    requires NumberedFrom(es, tag, base)
    ensures NumberedFrom(LastN(es, n), tag, base + |es| - |LastN(es, n)|)
  {
  }

  lemma NoNumbers(tag: string, base: nat)
    ensures NumberedFrom([], tag, base)
  {
  }

  lemma LastNLength(es: seq<Entry>, n: nat)
    ensures |LastN(es, n)| <= |es| && |LastN(es, n)| <= n
  {
  }

  lemma {:induction false} TailNumbersFrom(f: LogFormat, file: string, tag: string, n: nat, seqNo: nat, guess: nat, attempts: nat)
    ensures var run := TailFrom(f, file, tag, n, seqNo, guess, attempts);
            |run.entries| <= n && seqNo + |run.entries| <= run.next && NumberedFrom(run.entries, tag, run.next - |run.entries|)
    decreases attempts
  {
    hide ParseOnto, Split, Window, LastN, TailFrom, NumberedFrom;
    TailStep(f, file, tag, n, seqNo, guess, attempts);
    var target := if guess > |file| || attempts == 0 then |file| else guess;
    var lines := Split(Window(file, |file| - target), '\n');
    var (es, next) := ParseOnto(f, lines, tag, [], seqNo);
    ParseNumbers(f, lines, tag, seqNo);
    if target < |file| && target == 0 {
      NoNumbers(tag, seqNo);
    } else if |es| >= n || guess >= |file| || attempts == 0 {
      LastNumbers(es, tag, seqNo, n);
      LastNLength(es, n);
    } else {
      TailNumbersFrom(f, file, tag, n, next, if 4 * guess > |file| then |file| else 4 * guess, attempts - 1);
    }
  }

  /** Whatever the file, the entries returned are at most `n`, carry the reader's tag, and are numbered one after another
      up to where the reader goes on. */
  lemma TailNumbers(f: LogFormat, file: string, tag: string, n: nat, startSeq: nat)
    ensures var run := Tail(f, file, tag, n, startSeq);
            |run.entries| <= n && startSeq + |run.entries| <= run.next && NumberedFrom(run.entries, tag, run.next - |run.entries|)
  {
    hide TailFrom;
    if file != "" {
      TailNumbersFrom(f, file, tag, n, startSeq, n * BYTES_PER_ENTRY, ATTEMPTS);
    }
  }
}
