/** Box-drawing tables: column widths fitted to the terminal, cells wrapped to their columns. */
module Table {
  import opened Text
  import opened Collections

  const MIN_COL_WIDTH := 3

  // ----- visible text

  predicate IsAlphabetic(c: char) {
    'a' <= c <= 'z' || 'A' <= c <= 'Z'
  }

  const ESC := 0x1B as char

  /** The text without escape sequences, `inSeq` telling whether it begins inside one. */
  function Stripped(s: string, inSeq: bool): (r: string)
    ensures ESC !in r && |r| <= |s|
  {
    if s == "" then ""
    else if s[0] == ESC then Stripped(s[1..], true)
    else if inSeq then Stripped(s[1..], !IsAlphabetic(s[0]))
    else [s[0]] + Stripped(s[1..], false)
  }

  /** The scan that removes escape sequences. */
  method StripAnsi(s: string) returns (out: string)
    ensures out == Stripped(s, false)
  {
    out := "";
    var inSeq := false;
    for i := 0 to |s|
      invariant out + Stripped(s[i..], inSeq) == Stripped(s, false)
    {
      assert s[i..][1..] == s[i + 1..];
      if s[i] == ESC {
        inSeq := true;
        continue;
      }
      if inSeq {
        if IsAlphabetic(s[i]) {
          inSeq := false;
        }
      } else {
        assert out + ([s[i]] + Stripped(s[i + 1..], false)) == out + [s[i]] + Stripped(s[i + 1..], false);
        out := out + [s[i]];
      }
    }
  }

  function VisibleLen(s: string): nat {
    |Stripped(s, false)|
  }

  /** Whether `s` ends inside an escape sequence. */
  predicate EndsInSeq(s: string, inSeq: bool) {
    if s == "" then inSeq else EndsInSeq(s[1..], s[0] == ESC || (inSeq && !IsAlphabetic(s[0])))
  }

  /** All escape sequences of `s` are complete, so what is printed after it stays visible. */
  predicate Closed(s: string) {
    !EndsInSeq(s, false)
  }

  lemma {:induction false} StrippedConcat(a: string, b: string, inSeq: bool)
    ensures Stripped(a + b, inSeq) == Stripped(a, inSeq) + Stripped(b, EndsInSeq(a, inSeq))
    ensures EndsInSeq(a + b, inSeq) == EndsInSeq(b, EndsInSeq(a, inSeq))
  {
    if a == "" {
      assert a + b == b;
    } else {
      StrippedConcat(a[1..], b, a[0] == ESC || (inSeq && !IsAlphabetic(a[0])));
      assert (a + b)[1..] == a[1..] + b;
    }
  }

  lemma ClosedConcat(a: string, b: string)
    requires Closed(a) && Closed(b)
    ensures Closed(a + b) && VisibleLen(a + b) == VisibleLen(a) + VisibleLen(b)
  {
    StrippedConcat(a, b, false);
  }

  lemma {:induction false} PlainIsVisible(s: string)
    requires ESC !in s
    ensures Stripped(s, false) == s && Closed(s)
  {
    if s == "" {
    } else {
      PlainIsVisible(s[1..]);
    }
  }

  // ----- column widths

  function Sum(widths: seq<nat>): nat {
    if widths == [] then 0 else Sum(widths[..|widths| - 1]) + widths[|widths| - 1] + 3
  }

  /** Width of the whole table: the columns, their padding and the rules between them. */
  function TotalWidth(widths: seq<nat>): nat {
    1 + Sum(widths)
  }

  lemma {:induction false} SumUpdate(widths: seq<nat>, i: nat, w: nat)
    requires i < |widths|
    ensures Sum(widths[i := w]) == Sum(widths) - widths[i] + w
  {
    var front := widths[..|widths| - 1];
    if i == |widths| - 1 {
      assert widths[i := w][..i] == front;
    } else {
      SumUpdate(front, i, w);
      assert widths[i := w][..|widths| - 1] == front[i := w];
    }
  }

  /** `now` is `was` with everything at or above `level` cut to `level`, the leftmost of these possibly by
      one more. */
  ghost predicate Levelled(was: seq<nat>, now: seq<nat>, level: nat) {
    && |now| == |was|
    && (forall i | 0 <= i < |was| && was[i] < level :: now[i] == was[i])
    && (forall i | 0 <= i < |was| && was[i] >= level :: now[i] == level || now[i] == level - 1)
    && (forall i, j | 0 <= i < j < |was| && was[i] >= level && was[j] >= level :: now[i] <= now[j])
  }

  /** Widths fitted to the terminal: columns are levelled fairly; none is cut below the minimum; a table that
      fits is left alone; one that had to shrink and fits now fits exactly; one that does not fit has only
      columns of minimal width. */
  ghost predicate Fitted(start: seq<nat>, widths: seq<nat>, termWidth: nat)
    requires |start| == |widths|
  {
    && (exists level :: Levelled(start, widths, level))
    && (forall i | 0 <= i < |start| :: widths[i] < start[i] ==> widths[i] >= MIN_COL_WIDTH)
    && (TotalWidth(start) <= termWidth ==> widths == start)
    && (TotalWidth(start) > termWidth && TotalWidth(widths) <= termWidth ==> TotalWidth(widths) == termWidth)
    && (TotalWidth(widths) > termWidth ==> forall i | 0 <= i < |widths| :: widths[i] <= MIN_COL_WIDTH)
  }

  /** Position of the first widest column wider than the minimum, if any. */
  method Widest(widths: seq<nat>) returns (widest: Option<nat>)
    ensures widest.None? ==> forall i | 0 <= i < |widths| :: widths[i] <= MIN_COL_WIDTH
    ensures widest.Some? ==> widest.value < |widths| && widths[widest.value] > MIN_COL_WIDTH
    ensures widest.Some? ==> forall i | 0 <= i < |widths| ::
              if i < widest.value then widths[i] < widths[widest.value] else widths[i] <= widths[widest.value]
  {
    widest := None;
    for i := 0 to |widths|
      invariant widest.None? ==> forall k | 0 <= k < i :: widths[k] <= MIN_COL_WIDTH
      invariant widest.Some? ==> widest.value < i && widths[widest.value] > MIN_COL_WIDTH
      invariant widest.Some? ==> forall k | 0 <= k < i ::
                  if k < widest.value then widths[k] < widths[widest.value] else widths[k] <= widths[widest.value]
    {
      if widths[i] <= MIN_COL_WIDTH {
        continue;
      }
      if widest.None? || widths[i] > widths[widest.value] {
        widest := Some(i);
      }
    }
  }

  function Highest(widths: seq<nat>): (h: nat)
    ensures forall i | 0 <= i < |widths| :: widths[i] <= h
  {
    if widths == [] then 0
    else
      var h := Highest(widths[..|widths| - 1]);
      if widths[|widths| - 1] > h then widths[|widths| - 1] else h
  }

  lemma LevelledAtStart(start: seq<nat>)
    ensures Levelled(start, start, Highest(start))
  {
  }

  lemma TakeOne(was: seq<nat>, now: seq<nat>, level: nat, i: nat) returns (level': nat)
    requires Levelled(was, now, level) && i < |now| && now[i] > MIN_COL_WIDTH
    requires forall k | 0 <= k < |now| :: if k < i then now[k] < now[i] else now[k] <= now[i]
    ensures Levelled(was, now[i := now[i] - 1], level')
    ensures TotalWidth(now[i := now[i] - 1]) == TotalWidth(now) - 1
  {
    level' := now[i];
    SumUpdate(now, i, now[i] - 1);
  }

  /** Takes cells off the widest column, one at a time, until the table fits or nothing can shrink. */
  method Shrink(start: seq<nat>, termWidth: nat) returns (widths: seq<nat>)
    ensures |widths| == |start| && Fitted(start, widths, termWidth)
  {
    hide Levelled, TotalWidth, Highest;
    ghost var level;
    widths, level := start, Highest(start);
    LevelledAtStart(start);
    while TotalWidth(widths) > termWidth
      invariant |widths| == |start| && Levelled(start, widths, level)
      invariant forall i | 0 <= i < |start| :: widths[i] < start[i] ==> widths[i] >= MIN_COL_WIDTH
      invariant TotalWidth(start) <= termWidth ==> widths == start
      invariant TotalWidth(start) > termWidth ==> TotalWidth(widths) >= termWidth
      decreases TotalWidth(widths)
    {
      var widest := Widest(widths);
      if widest.None? {
        break;
      }
      var i := widest.value;
      level := TakeOne(start, widths, level, i);
      widths := widths[i := widths[i] - 1];
    }
  }

  // ----- wrapping

  /** Pieces of `width` characters, the last possibly shorter. */
  function Chunks(word: string, width: nat): (parts: seq<string>)
    requires width > 0
    decreases |word|
  {
    if word == "" then []
    else if |word| <= width then [word]
    else [word[..width]] + Chunks(word[width..], width)
  }

  method SplitLongWord(word: string, width: nat) returns (parts: seq<string>)
    requires width > 0 && ESC !in word
    ensures parts == Chunks(word, width)
  {
    parts := [];
    var remaining := word;
    assert [] + Chunks(word, width) == Chunks(word, width);
    while remaining != ""
      invariant ESC !in remaining
      invariant parts + Chunks(remaining, width) == Chunks(word, width)
      decreases |remaining|
    {
      PlainIsVisible(remaining);
      var visible := VisibleLen(remaining);
      var take := if visible < width then visible else width;
      assert parts + ([remaining[..take]] + Chunks(remaining[take..], width))
          == parts + [remaining[..take]] + Chunks(remaining[take..], width);
      if |remaining| <= width {
        assert remaining[..take] == remaining && remaining[take..] == "";
        assert [remaining] + [] == [remaining];
      }
      parts := parts + [remaining[..take]];
      remaining := remaining[take..];
    }
    assert parts + [] == parts;
  }

  /** Greedy filling of lines with words, from a line begun with `current`; a word wider than a line is cut. */
  function Filled(words: seq<string>, width: nat, current: string): (lines: seq<string>)
    requires width > 0
    decreases |words|
  {
    if words == [] then Pending(current)
    else
      var word, rest := words[0], words[1..];
      if |word| > width then Pending(current) + Chunks(word, width) + Filled(rest, width, "")
      else if current == "" then Filled(rest, width, word)
      else if |current| + |word| + 1 > width then [current] + Filled(rest, width, word)
      else Filled(rest, width, current + " " + word)
  }

  /** The lines of a cell in a column of the given width. */
  function Wrapped(text: string, width: nat): (lines: seq<string>) {
    var words := SplitWhitespace(Stripped(text, false), "");
    if width == 0 || VisibleLen(text) <= width || words == [] then [text] else Filled(words, width, "")
  }

  lemma {:induction false} WordsClean(s: string, cur: string)
    requires ESC !in s && ESC !in cur
    ensures forall k | 0 <= k < |SplitWhitespace(s, cur)| :: ESC !in SplitWhitespace(s, cur)[k]
    decreases |s|
  {
    if s == "" {
    } else {
      if IsWhitespace(s[0]) {
        WordsClean(s[1..], "");
      } else {
        WordsClean(s[1..], cur + [s[0]]);
      }
    }
  }

  lemma FilledAssoc(a: seq<string>, b: seq<string>, c: seq<string>, d: seq<string>)
    ensures a + (b + c + d) == a + b + c + d && b + [] == b && a + (b + d) == a + b + d
  {
  }

  /** The wrapping loop. */
  method WrapText(text: string, width: nat) returns (lines: seq<string>)
    ensures lines == Wrapped(text, width)
  {
    if width == 0 {
      return [text];
    }
    if VisibleLen(text) <= width {
      return [text];
    }
    var plain := StripAnsi(text);
    var words := SplitWhitespace(plain, "");
    if words == [] {
      return [text];
    }
    WordsClean(plain, "");
    lines := [];
    var current, currentLen := "", 0;
    for i := 0 to |words|
      invariant currentLen == |current|
      invariant lines + Filled(words[i..], width, current) == Filled(words, width, "")
    {
      var word := words[i];
      var wordLen := |word|;
      assert words[i..][0] == word && words[i..][1..] == words[i + 1..];
      if wordLen > width {
        ghost var before, begun := lines, current;
        if currentLen > 0 {
          lines, current, currentLen := lines + [current], "", 0;
        }
        var chunks := SplitLongWord(word, width);
        FilledAssoc(before, Pending(begun), chunks, Filled(words[i + 1..], width, ""));
        lines := lines + chunks;
        continue;
      }
      if currentLen > 0 && currentLen + wordLen + 1 > width {
        FilledAssoc(lines, [current], [], Filled(words[i + 1..], width, word));
        lines := lines + [current];
        current, currentLen := word, wordLen;
      } else if currentLen > 0 {
        current := current + " " + word;
        currentLen := currentLen + 1 + wordLen;
      } else {
        current, currentLen := word, wordLen;
      }
    }
    if current != "" {
      lines := lines + [current];
    }
  }

  /** Text without its white space. */
  function Ink(s: string): (r: string) {
    if s == "" then "" else (if IsWhitespace(s[0]) then "" else [s[0]]) + Ink(s[1..])
  }

  function InkOf(lines: seq<string>): string {
    if lines == [] then "" else Ink(lines[0]) + InkOf(lines[1..])
  }

  lemma {:induction false} InkConcat(a: string, b: string)
    ensures Ink(a + b) == Ink(a) + Ink(b)
  {
    if a == "" {
      assert a + b == b;
    } else {
      assert (a + b)[1..] == a[1..] + b;
      InkConcat(a[1..], b);
    }
  }

  lemma {:induction false} InkOfConcat(a: seq<string>, b: seq<string>)
    ensures InkOf(a + b) == InkOf(a) + InkOf(b)
  {
    if a == [] {
      assert a + b == b;
    } else {
      assert (a + b)[1..] == a[1..] + b;
      InkOfConcat(a[1..], b);
    }
  }

  lemma InkOne(s: string)
    ensures InkOf([s]) == Ink(s) && InkOf(Pending(s)) == Ink(s)
  {
    assert [s][1..] == [] && Ink(s) + "" == Ink(s);
  }

  lemma InkHead(s: string)
    ensures Ink(s) == if s == "" then "" else if IsWhitespace(s[0]) then Ink(s[1..]) else [s[0]] + Ink(s[1..])
  {
  }

  lemma InkChar(c: char)
    ensures Ink([c]) == if IsWhitespace(c) then "" else [c]
  {
    assert [c][1..] == "";
  }

  lemma {:induction false} InkOfWords(s: string, cur: string)
    ensures InkOf(SplitWhitespace(s, cur)) == Ink(cur) + Ink(s)
    decreases |s|
  {
    hide Ink, InkOf;
    InkOne(cur);
    InkHead(s);
    if s == "" {
      assert Ink(cur) + "" == Ink(cur);
    } else {
      var rest := s[1..];
      if IsWhitespace(s[0]) {
        InkOfConcat(Pending(cur), SplitWhitespace(rest, ""));
        InkOfWords(rest, "");
        InkHead("");
        assert "" + Ink(rest) == Ink(rest);
      } else {
        InkConcat(cur, [s[0]]);
        InkChar(s[0]);
        InkOfWords(rest, cur + [s[0]]);
        assert Ink(cur) + [s[0]] + Ink(rest) == Ink(cur) + ([s[0]] + Ink(rest));
      }
    }
  }

  lemma {:induction false} InkOfChunks(word: string, width: nat)
    requires width > 0
    ensures InkOf(Chunks(word, width)) == Ink(word)
    ensures forall i | 0 <= i < |Chunks(word, width)| :: |Chunks(word, width)[i]| <= width
    decreases |word|
  {
    InkOne(word);
    if |word| > width {
      InkOfChunks(word[width..], width);
      InkConcat(word[..width], word[width..]);
      assert word == word[..width] + word[width..];
      assert InkOf([word[..width]] + Chunks(word[width..], width)) == Ink(word[..width]) + InkOf(Chunks(word[width..], width)) by {
        InkOfConcat([word[..width]], Chunks(word[width..], width));
        InkOne(word[..width]);
      }
    }
  }

  /** The lines hold exactly this ink, and none is wider than the column. */
  ghost predicate Lays(lines: seq<string>, width: nat, ink: string) {
    InkOf(lines) == ink && forall i | 0 <= i < |lines| :: |lines[i]| <= width
  }

  lemma InkFirst(words: seq<string>)
    requires words != []
    ensures InkOf(words) == Ink(words[0]) + InkOf(words[1..])
  {
  }

  lemma LayPending(current: string, width: nat)
    requires |current| <= width
    ensures Lays(Pending(current), width, Ink(current)) && (current != "" ==> Lays([current], width, Ink(current)))
  {
    InkOne(current);
  }

  lemma LayBoth(a: seq<string>, b: seq<string>, width: nat, inkA: string, inkB: string)
    requires Lays(a, width, inkA) && Lays(b, width, inkB)
    ensures Lays(a + b, width, inkA + inkB)
  {
    InkOfConcat(a, b);
  }

  lemma LayLong(word: string, width: nat, more: seq<string>, ink: string)
    requires width > 0 && Lays(more, width, ink)
    ensures Lays(Chunks(word, width) + more, width, Ink(word) + ink)
  {
    InkOfChunks(word, width);
    LayBoth(Chunks(word, width), more, width, Ink(word), ink);
  }

  lemma InkEmpty()
    ensures Ink("") == "" && Ink(" ") == "" && InkOf([]) == ""
  {
    assert " "[1..] == "";
  }

  lemma InkSpaced(current: string, word: string)
    ensures Ink(current + " " + word) == Ink(current) + Ink(word)
  {
    InkConcat(current + " ", word);
    InkConcat(current, " ");
    InkEmpty();
  }

  /** Filling loses no ink and exceeds no line. */
  lemma {:induction false} FilledFits(words: seq<string>, width: nat, current: string)
    requires width > 0 && |current| <= width
    ensures Lays(Filled(words, width, current), width, Ink(current) + InkOf(words))
    decreases |words|
  {
    hide Ink, InkOf, Chunks, Lays;
    LayPending(current, width);
    if words == [] {
      InkEmpty();
      assert Ink(current) + "" == Ink(current);
    } else {
      var word, rest := words[0], words[1..];
      InkFirst(words);
      assert Ink(current) + (Ink(word) + InkOf(rest)) == Ink(current) + Ink(word) + InkOf(rest);
      if |word| > width {
        FilledFits(rest, width, "");
        InkEmpty();
        assert "" + InkOf(rest) == InkOf(rest);
        LayLong(word, width, Filled(rest, width, ""), InkOf(rest));
        assert Pending(current) + Chunks(word, width) + Filled(rest, width, "")
            == Pending(current) + (Chunks(word, width) + Filled(rest, width, ""));
        LayBoth(Pending(current), Chunks(word, width) + Filled(rest, width, ""), width,
                Ink(current), Ink(word) + InkOf(rest));
      } else if current == "" {
        InkEmpty();
        assert "" + Ink(word) == Ink(word);
        FilledFits(rest, width, word);
      } else if |current| + |word| + 1 > width {
        FilledFits(rest, width, word);
        LayBoth([current], Filled(rest, width, word), width, Ink(current), Ink(word) + InkOf(rest));
      } else {
        InkSpaced(current, word);
        FilledFits(rest, width, current + " " + word);
      }
    }
  }

  lemma {:induction false} NoWords(s: string, cur: string)
    requires Ink(cur) == cur
    ensures SplitWhitespace(s, cur) == [] <==> cur == "" && Ink(s) == ""
    decreases |s|
  {
    if s == "" {
    } else {
      if IsWhitespace(s[0]) {
        InkEmpty();
        NoWords(s[1..], "");
      } else {
        InkConcat(cur, [s[0]]);
        assert [s[0]][1..] == "";
        NoWords(s[1..], cur + [s[0]]);
      }
    }
  }

  lemma {:induction false} PlainChunks(word: string, width: nat)
    requires width > 0 && ESC !in word
    ensures forall i | 0 <= i < |Chunks(word, width)| :: ESC !in Chunks(word, width)[i]
    decreases |word|
  {
    if |word| > width {
      PlainChunks(word[width..], width);
    }
  }

  lemma {:induction false} PlainLines(words: seq<string>, width: nat, current: string)
    requires width > 0 && ESC !in current && forall k | 0 <= k < |words| :: ESC !in words[k]
    ensures forall i | 0 <= i < |Filled(words, width, current)| :: ESC !in Filled(words, width, current)[i]
    decreases |words|
  {
    if words == [] {
    } else {
      var word, rest := words[0], words[1..];
      if |word| > width {
        PlainChunks(word, width);
        PlainLines(rest, width, "");
      } else {
        PlainLines(rest, width, word);
        PlainLines(rest, width, current + " " + word);
      }
    }
  }

  /** A cell that keeps to its column: it is narrow enough, or has a word to wrap at. */
  predicate Wrappable(cell: string, width: nat) {
    VisibleLen(cell) <= width || (width > 0 && Ink(Stripped(cell, false)) != "")
  }

  function VisibleLines(lines: seq<string>): (visible: seq<string>)
    ensures |visible| == |lines| && forall i | 0 <= i < |lines| :: visible[i] == Stripped(lines[i], false)
  {
    seq(|lines|, i requires 0 <= i < |lines| => Stripped(lines[i], false))
  }

  /** A cell is left as it is, or its visible words fill plain lines. */
  lemma WrappedLines(text: string, width: nat)
    ensures var words := SplitWhitespace(Stripped(text, false), "");
            if width == 0 || VisibleLen(text) <= width || words == []
            then Wrapped(text, width) == [text]
            else Wrapped(text, width) == VisibleLines(Wrapped(text, width)) == Filled(words, width, "")
                 && forall i | 0 <= i < |Wrapped(text, width)| :: ESC !in Wrapped(text, width)[i]
  {
    hide Stripped, SplitWhitespace, Filled;
    var words := SplitWhitespace(Stripped(text, false), "");
    WordsClean(Stripped(text, false), "");
    if width > 0 && VisibleLen(text) > width && words != [] {
      PlainLines(words, width, "");
      var lines := Filled(words, width, "");
      forall i | 0 <= i < |lines|
        ensures VisibleLines(lines)[i] == lines[i]
      {
        PlainIsVisible(lines[i]);
      }
      assert VisibleLines(lines) == lines;
    }
  }

  /** Wrapping keeps every visible character but white space, in order; its lines fit the column exactly when the
      text is narrow enough or has a word. */
  lemma WrapKeepsAndFits(text: string, width: nat)
    ensures InkOf(VisibleLines(Wrapped(text, width))) == Ink(Stripped(text, false))
    ensures |Wrapped(text, width)| >= 1
    ensures (forall i | 0 <= i < |Wrapped(text, width)| :: VisibleLen(Wrapped(text, width)[i]) <= width)
       <==> Wrappable(text, width)
  {
    hide Ink, SplitWhitespace, Filled, Stripped, Wrapped;
    var visible, lines := Stripped(text, false), Wrapped(text, width);
    InkEmpty();
    InkOne(visible);
    NoWords(visible, "");
    InkOfWords(visible, "");
    WrappedLines(text, width);
    var words := SplitWhitespace(visible, "");
    assert Ink("") + InkOf(words) == InkOf(words);
    if width > 0 && |visible| > width && words != [] {
      FilledFits(words, width, "");
      assert forall i | 0 <= i < |lines| :: VisibleLen(lines[i]) == |lines[i]|;
    } else {
      assert VisibleLines(lines) == [visible];
      assert VisibleLen(lines[0]) == |visible|;
    }
  }

  /** A cell with complete escape sequences is wrapped to such lines. */
  lemma WrappedClosed(text: string, width: nat)
    requires Closed(text)
    ensures forall i | 0 <= i < |Wrapped(text, width)| :: Closed(Wrapped(text, width)[i])
  {
    hide SplitWhitespace, Filled, Stripped, Wrapped, Closed;
    WrappedLines(text, width);
    forall i | 0 <= i < |Wrapped(text, width)| && ESC !in Wrapped(text, width)[i]
      ensures Closed(Wrapped(text, width)[i])
    {
      PlainIsVisible(Wrapped(text, width)[i]);
    }
  }

  // ----- the table

  datatype Table = Table(headers: seq<string>, rows: seq<seq<string>>, maxWidths: Option<seq<nat>>)

  function Max(a: nat, b: nat): nat {
    if a > b then a else b
  }

  /** The widest of a header and the cells below it. */
  function Natural(header: string, rows: seq<seq<string>>, i: nat): (w: nat)
    ensures VisibleLen(header) <= w
    ensures forall r | 0 <= r < |rows| && i < |rows[r]| :: VisibleLen(rows[r][i]) <= w
    ensures w == VisibleLen(header) || exists r | 0 <= r < |rows| && i < |rows[r]| :: w == VisibleLen(rows[r][i])
  {
    if rows == [] then VisibleLen(header)
    else
      var above, last := Natural(header, rows[..|rows| - 1], i), rows[|rows| - 1];
      if i < |last| then Max(above, VisibleLen(last[i])) else above
  }

  /** A column's width before fitting: its natural width, capped by the configured maximum. */
  function Capped(t: Table, i: nat): (w: nat)
    requires i < |t.headers|
    ensures VisibleLen(t.headers[i]) <= w || (t.maxWidths.Some? && i < |t.maxWidths.value| && w == t.maxWidths.value[i])
    ensures forall r | 0 <= r < |t.rows| && i < |t.rows[r]| ::
              VisibleLen(t.rows[r][i]) <= w || (t.maxWidths.Some? && i < |t.maxWidths.value| && w == t.maxWidths.value[i])
    ensures t.maxWidths.Some? && |t.maxWidths.value| == |t.headers| ==> w <= t.maxWidths.value[i]
    ensures w == VisibleLen(t.headers[i]) || (exists r | 0 <= r < |t.rows| && i < |t.rows[r]| :: w == VisibleLen(t.rows[r][i]))
            || (t.maxWidths.Some? && |t.maxWidths.value| == |t.headers| && w == t.maxWidths.value[i])
  {
    var w := Natural(t.headers[i], t.rows, i);
    if t.maxWidths.Some? && |t.maxWidths.value| == |t.headers| && t.maxWidths.value[i] < w
    then t.maxWidths.value[i] else w
  }

  function AllCapped(t: Table): (widths: seq<nat>)
    ensures |widths| == |t.headers| && forall i | 0 <= i < |widths| :: widths[i] == Capped(t, i)
  {
    seq(|t.headers|, i requires 0 <= i < |t.headers| => Capped(t, i))
  }

  /** The widening loop over rows and cells. */
  method NaturalWidths(headers: seq<string>, rows: seq<seq<string>>) returns (widths: seq<nat>)
    ensures |widths| == |headers| && forall i | 0 <= i < |widths| :: widths[i] == Natural(headers[i], rows, i)
  {
    hide VisibleLen;
    var n := |headers|;
    widths := seq(n, i requires 0 <= i < n => VisibleLen(headers[i]));
    for r := 0 to |rows|
      invariant |widths| == n && forall i | 0 <= i < n :: widths[i] == Natural(headers[i], rows[..r], i)
    {
      ghost var before := widths;
      var i := 0;
      while i < |rows[r]| && i < n
        invariant 0 <= i <= n && i <= |rows[r]| && |widths| == n
        invariant forall k | i <= k < n :: widths[k] == before[k]
        invariant forall k | 0 <= k < i :: widths[k] == Max(before[k], VisibleLen(rows[r][k]))
      {
        var l := VisibleLen(rows[r][i]);
        if l > widths[i] {
          widths := widths[i := l];
        }
        i := i + 1;
      }
      assert rows[..r + 1][..r] == rows[..r];
    }
    assert rows[..|rows|] == rows;
  }

  method CapWidths(t: Table, natural: seq<nat>) returns (widths: seq<nat>)
    requires |natural| == |t.headers| && forall i | 0 <= i < |natural| :: natural[i] == Natural(t.headers[i], t.rows, i)
    ensures |widths| == |t.headers| && forall i | 0 <= i < |widths| :: widths[i] == Capped(t, i)
  {
    hide Natural;
    widths := natural;
    if t.maxWidths.Some? && |t.maxWidths.value| == |widths| {
      for i := 0 to |natural|
        invariant |widths| == |natural|
        invariant forall k | 0 <= k < |natural| :: widths[k] == if k < i then Capped(t, k) else natural[k]
      {
        if widths[i] > t.maxWidths.value[i] {
          widths := widths[i := t.maxWidths.value[i]];
        }
      }
    }
  }

  method CalculateWidths(t: Table, termWidth: nat) returns (widths: seq<nat>)
    ensures |widths| == |t.headers| && Fitted(AllCapped(t), widths, termWidth)
  {
    hide Fitted, Capped;
    widths := NaturalWidths(t.headers, t.rows);
    widths := CapWidths(t, widths);
    assert widths == AllCapped(t);
    widths := Shrink(widths, termWidth);
  }

  /** The box-drawing characters: the rules, and left, middle and right of the three borders. */
  const H_RULE := '\U{2500}'
  const V_RULE := '\U{2502}'
  const TOP := ('\U{250C}', '\U{252C}', '\U{2510}')
  const MIDDLE := ('\U{251C}', '\U{253C}', '\U{2524}')
  const BOTTOM := ('\U{2514}', '\U{2534}', '\U{2518}')

  function BorderCells(mid: char, widths: seq<nat>): string {
    if widths == [] then ""
    else
      var last := |widths| - 1;
      BorderCells(mid, widths[..last]) + (if last > 0 then [mid] else "") + Repeat(H_RULE, widths[last] + 2)
  }

  function Border(style: (char, char, char), widths: seq<nat>): string {
    [style.0] + BorderCells(style.1, widths) + [style.2]
  }

  function CellAt(lines: seq<string>, k: nat): string {
    if k < |lines| then lines[k] else ""
  }

  /** One cell of a printed line: a space, the text padded to the width, a space and the rule. */
  function Boxed(cell: string, width: nat): string {
    var vis := VisibleLen(cell);
    " " + cell + Repeat(' ', if width > vis then width - vis else 0) + " " + [V_RULE]
  }

  function Cells(cellLines: seq<seq<string>>, widths: seq<nat>, k: nat): string
    requires |cellLines| == |widths|
  {
    if widths == [] then ""
    else
      var last := |widths| - 1;
      Cells(cellLines[..last], widths[..last], k) + Boxed(CellAt(cellLines[last], k), widths[last])
  }

  function WrappedRow(row: seq<string>, widths: seq<nat>): (cellLines: seq<seq<string>>)
    requires |row| == |widths|
    ensures |cellLines| == |row| && forall i | 0 <= i < |row| :: cellLines[i] == Wrapped(row[i], widths[i])
  {
    seq(|row|, i requires 0 <= i < |row| => Wrapped(row[i], widths[i]))
  }

  /** Number of lines of the tallest cell. */
  function Height(cellLines: seq<seq<string>>): (h: nat)
    ensures forall i | 0 <= i < |cellLines| :: |cellLines[i]| <= h
  {
    if cellLines == [] then 0 else Max(Height(cellLines[..|cellLines| - 1]), |cellLines[|cellLines| - 1]|)
  }

  /** The widths of the columns of a row of `n` cells; a cell beyond the last column has none. */
  function ColumnsFor(n: nat, widths: seq<nat>): (columns: seq<nat>)
    ensures |columns| == n && forall i | 0 <= i < n :: columns[i] == if i < |widths| then widths[i] else 0
    ensures n == |widths| ==> columns == widths
  {
    seq(n, i requires 0 <= i => if i < |widths| then widths[i] else 0)
  }

  function RowLines(row: seq<string>, widths: seq<nat>): (lines: seq<string>) {
    var columns := ColumnsFor(|row|, widths);
    var cellLines := WrappedRow(row, columns);
    seq(if row == [] then 1 else Height(cellLines), k requires k >= 0 => [V_RULE] + Cells(cellLines, columns, k))
  }

  /** Printing a border, column by column. */
  method PrintBorder(style: (char, char, char), widths: seq<nat>) returns (line: string)
    ensures line == Border(style, widths)
  {
    line := [style.0];
    for i := 0 to |widths|
      invariant line == [style.0] + BorderCells(style.1, widths[..i]) + if 0 < i < |widths| then [style.1] else ""
    {
      assert widths[..i + 1][..i] == widths[..i];
      line := line + Repeat(H_RULE, widths[i] + 2);
      if i < |widths| - 1 {
        line := line + [style.1];
      }
    }
    assert widths[..|widths|] == widths;
    line := line + [style.2];
  }

  method WrapRow(row: seq<string>, widths: seq<nat>) returns (cellLines: seq<seq<string>>)
    requires |row| == |widths|
    ensures cellLines == WrappedRow(row, widths)
  {
    hide Wrapped;
    cellLines := [];
    for i := 0 to |row|
      invariant cellLines == WrappedRow(row[..i], widths[..i])
    {
      var cell := WrapText(row[i], widths[i]);
      assert WrappedRow(row[..i + 1], widths[..i + 1]) == WrappedRow(row[..i], widths[..i]) + [cell];
      cellLines := cellLines + [cell];
    }
    assert row[..|row|] == row && widths[..|row|] == widths;
  }

  /** Line `k` of a row, cell by cell. */
  method PrintLine(cellLines: seq<seq<string>>, widths: seq<nat>, k: nat) returns (line: string)
    requires |cellLines| == |widths|
    ensures line == [V_RULE] + Cells(cellLines, widths, k)
  {
    hide Boxed;
    line := [V_RULE];
    for i := 0 to |cellLines|
      invariant line == [V_RULE] + Cells(cellLines[..i], widths[..i], k)
    {
      assert cellLines[..i + 1][..i] == cellLines[..i] && widths[..i + 1][..i] == widths[..i];
      line := line + Boxed(CellAt(cellLines[i], k), widths[i]);
    }
    assert cellLines[..|cellLines|] == cellLines && widths[..|widths|] == widths;
  }

  /** Printing a row: as many lines as its tallest cell has. */
  method PrintRow(row: seq<string>, widths: seq<nat>) returns (lines: seq<string>)
    ensures lines == RowLines(row, widths)
  {
    hide Wrapped, Height, Cells;
    var columns := ColumnsFor(|row|, widths);
    var cellLines := WrapRow(row, columns);
    var height := if row == [] then 1 else Height(cellLines);
    lines := [];
    for k := 0 to height
      invariant |lines| == k && forall j | 0 <= j < k :: lines[j] == [V_RULE] + Cells(cellLines, columns, j)
    {
      var line := PrintLine(cellLines, columns, k);
      lines := lines + [line];
    }
  }

  function AllRows(rows: seq<seq<string>>, widths: seq<nat>): (lines: seq<string>) {
    if rows == [] then [] else AllRows(rows[..|rows| - 1], widths) + RowLines(rows[|rows| - 1], widths)
  }

  /** The printed lines of a table with the given column widths. */
  function Rendered(t: Table, widths: seq<nat>): (lines: seq<string>) {
    [Border(TOP, widths)] + RowLines(t.headers, widths) + [Border(MIDDLE, widths)]
    + AllRows(t.rows, widths) + [Border(BOTTOM, widths)]
  }

  /** The whole table, fitted to the terminal. */
  method Render(t: Table, termWidth: nat) returns (lines: seq<string>, widths: seq<nat>)
    ensures |widths| == |t.headers| && Fitted(AllCapped(t), widths, termWidth)
    ensures lines == Rendered(t, widths)
  {
    hide RowLines, Border, Fitted, AllCapped;
    widths := CalculateWidths(t, termWidth);
    var border := PrintBorder(TOP, widths);
    var head := PrintRow(t.headers, widths);
    lines := [border] + head;
    border := PrintBorder(MIDDLE, widths);
    lines := lines + [border];
    ghost var above := lines;
    for r := 0 to |t.rows|
      invariant lines == above + AllRows(t.rows[..r], widths)
    {
      assert t.rows[..r + 1][..r] == t.rows[..r];
      var row := PrintRow(t.rows[r], widths);
      lines := lines + row;
    }
    assert t.rows[..|t.rows|] == t.rows;
    border := PrintBorder(BOTTOM, widths);
    lines := lines + [border];
  }

  // ----- every line of the table is as wide as the table

  lemma {:induction false} BorderCellsWidth(mid: char, widths: seq<nat>)
    ensures |BorderCells(mid, widths)| == if widths == [] then 0 else Sum(widths) - 1
  {
    if widths == [] {
    } else {
      BorderCellsWidth(mid, widths[..|widths| - 1]);
    }
  }

  /** How much line `k` of the cells sticks out of their columns. */
  function Overflow(cellLines: seq<seq<string>>, widths: seq<nat>, k: nat): nat
    requires |cellLines| == |widths|
  {
    if widths == [] then 0
    else
      var last := |widths| - 1;
      var len := VisibleLen(CellAt(cellLines[last], k));
      Overflow(cellLines[..last], widths[..last], k) + if len > widths[last] then len - widths[last] else 0
  }

  predicate ClosedCells(cellLines: seq<seq<string>>) {
    forall i, k | 0 <= i < |cellLines| && 0 <= k < |cellLines[i]| :: Closed(cellLines[i][k])
  }

  lemma BoxedWidth(cell: string, width: nat)
    requires Closed(cell)
    ensures Closed(Boxed(cell, width)) && VisibleLen(Boxed(cell, width)) == 3 + Max(VisibleLen(cell), width)
  {
    hide Stripped, Closed;
    var vis := VisibleLen(cell);
    var pad := Repeat(' ', if width > vis then width - vis else 0);
    PlainIsVisible(" ");
    PlainIsVisible(pad);
    PlainIsVisible([V_RULE]);
    ClosedConcat(" ", cell);
    ClosedConcat(" " + cell, pad);
    ClosedConcat(" " + cell + pad, " ");
    ClosedConcat(" " + cell + pad + " ", [V_RULE]);
  }

  lemma {:induction false} CellsWidth(cellLines: seq<seq<string>>, widths: seq<nat>, k: nat)
    requires |cellLines| == |widths| && ClosedCells(cellLines)
    ensures var line := Cells(cellLines, widths, k);
            Closed(line) && VisibleLen(line) == Sum(widths) + Overflow(cellLines, widths, k)
  {
    hide Boxed, Stripped, Closed;
    PlainIsVisible("");
    if widths == [] {
    } else {
      var last := |widths| - 1;
      var cell := CellAt(cellLines[last], k);
      CellsWidth(cellLines[..last], widths[..last], k);
      BoxedWidth(cell, widths[last]);
      ClosedConcat(Cells(cellLines[..last], widths[..last], k), Boxed(cell, widths[last]));
    }
  }

  lemma {:induction false} NoOverflow(cellLines: seq<seq<string>>, widths: seq<nat>, k: nat)
    requires |cellLines| == |widths|
    ensures Overflow(cellLines, widths, k) == 0 <==> forall i | 0 <= i < |widths| :: VisibleLen(CellAt(cellLines[i], k)) <= widths[i]
  {
    hide Stripped;
    if widths == [] {
    } else {
      NoOverflow(cellLines[..|widths| - 1], widths[..|widths| - 1], k);
    }
  }

  /** The line looks as wide as the table. */
  predicate Fits(line: string, widths: seq<nat>) {
    VisibleLen(line) == TotalWidth(widths)
  }

  predicate AllFit(lines: seq<string>, widths: seq<nat>) {
    forall k | 0 <= k < |lines| :: Fits(lines[k], widths)
  }

  ghost predicate RowWrappable(row: seq<string>, widths: seq<nat>)
    requires |row| == |widths|
  {
    forall i | 0 <= i < |row| :: Wrappable(row[i], widths[i])
  }

  ghost predicate ClosedRow(row: seq<string>) {
    forall i | 0 <= i < |row| :: Closed(row[i])
  }

  lemma LineFits(cellLines: seq<seq<string>>, columns: seq<nat>, widths: seq<nat>, k: nat)
    requires |cellLines| == |columns| && ClosedCells(cellLines)
    ensures Fits([V_RULE] + Cells(cellLines, columns, k), widths)
       <==> Sum(columns) + Overflow(cellLines, columns, k) == Sum(widths)
  {
    hide Stripped, Closed, Cells, Overflow, Sum, ClosedCells;
    CellsWidth(cellLines, columns, k);
    PlainIsVisible([V_RULE]);
    ClosedConcat([V_RULE], Cells(cellLines, columns, k));
  }

  lemma {:induction false} SumColumns(n: nat, widths: seq<nat>)
    ensures var sum := Sum(ColumnsFor(n, widths));
            (n > |widths| ==> sum > Sum(widths)) && (n == |widths| ==> sum == Sum(widths)) && (n < |widths| ==> sum < Sum(widths))
    decreases n + |widths|
  {
    if n > |widths| {
      SumColumns(n - 1, widths);
      assert ColumnsFor(n, widths)[..n - 1] == ColumnsFor(n - 1, widths);
    } else if n < |widths| {
      var front := widths[..|widths| - 1];
      SumColumns(n, front);
      assert ColumnsFor(n, front) == ColumnsFor(n, widths);
    }
  }

  /** A row as long as the header keeps to its columns. A shorter one can make up for the columns it lacks only on a
      single line, with a cell that sticks out just so far; a longer one never fits. */
  ghost predicate RowAligned(row: seq<string>, widths: seq<nat>) {
    var columns := ColumnsFor(|row|, widths);
    var cellLines := WrappedRow(row, columns);
    if |row| == |widths| then RowWrappable(row, widths)
    else |row| < |widths| && row != [] && Height(cellLines) == 1
         && Sum(columns) + Overflow(cellLines, columns, 0) == Sum(widths)
  }

  lemma RowClosed(row: seq<string>, columns: seq<nat>)
    requires |row| == |columns| && ClosedRow(row)
    ensures ClosedCells(WrappedRow(row, columns))
  {
    hide Wrapped, Closed;
    forall i | 0 <= i < |row|
      ensures forall k | 0 <= k < |WrappedRow(row, columns)[i]| :: Closed(WrappedRow(row, columns)[i][k])
    {
      WrappedClosed(row[i], columns[i]);
    }
  }

  lemma NothingVisible()
    ensures VisibleLen("") == 0
  {
  }

  /** A cell of several lines keeps to its column, and beyond its last line it is empty. */
  lemma LaterLinesFit(text: string, width: nat, k: nat)
    requires k >= 1
    ensures VisibleLen(CellAt(Wrapped(text, width), k)) <= width
  {
    hide Wrapped, Stripped, Filled, SplitWhitespace, Ink;
    NothingVisible();
    var lines := Wrapped(text, width);
    WrappedLines(text, width);
    if k < |lines| {
      WrapKeepsAndFits(text, width);
      InkEmpty();
      NoWords(Stripped(text, false), "");
    }
  }

  lemma SecondLineFits(row: seq<string>, columns: seq<nat>, k: nat)
    requires |row| == |columns| && k >= 1
    ensures Overflow(WrappedRow(row, columns), columns, k) == 0
  {
    hide Wrapped, Overflow, VisibleLen;
    forall i | 0 <= i < |row|
      ensures VisibleLen(CellAt(WrappedRow(row, columns)[i], k)) <= columns[i]
    {
      LaterLinesFit(row[i], columns[i], k);
    }
    NoOverflow(WrappedRow(row, columns), columns, k);
  }

  lemma HeightPositive(row: seq<string>, columns: seq<nat>)
    requires |row| == |columns| && row != []
    ensures Height(WrappedRow(row, columns)) >= 1
  {
    hide Wrapped;
    WrapKeepsAndFits(row[0], columns[0]);
    assert |WrappedRow(row, columns)[0]| >= 1;
  }

  lemma NoCells(columns: seq<nat>)
    requires columns == []
    ensures Sum(columns) == 0 && Overflow([], columns, 0) == 0
  {
  }

  lemma RaggedRowFits(row: seq<string>, widths: seq<nat>)
    requires |row| != |widths| && ClosedRow(row)
    ensures AllFit(RowLines(row, widths), widths) <==> RowAligned(row, widths)
  {
    hide Wrapped, Cells, Height, Fits, Overflow, Sum, ClosedRow, ClosedCells;
    var columns := ColumnsFor(|row|, widths);
    var cellLines, lines := WrappedRow(row, columns), RowLines(row, widths);
    SumColumns(|row|, widths);
    RowClosed(row, columns);
    forall k | 0 <= k < |lines|
      ensures Fits(lines[k], widths) <==> Sum(columns) + Overflow(cellLines, columns, k) == Sum(widths)
    {
      LineFits(cellLines, columns, widths, k);
    }
    if row == [] {
      NoCells(columns);
      assert Fits(lines[0], widths) <==> 0 == Sum(widths);
    } else {
      HeightPositive(row, columns);
      if |lines| > 1 {
        SecondLineFits(row, columns, 1);
        assert !Fits(lines[1], widths);
      }
    }
  }

  /** The lines of a row are as wide as the table exactly when every cell keeps to its column. */
  lemma RowFits(row: seq<string>, widths: seq<nat>)
    requires |row| == |widths| && ClosedRow(row)
    ensures AllFit(RowLines(row, widths), widths) <==> RowWrappable(row, widths)
  {
    hide Wrapped, Cells, Wrappable, Height, Fits, VisibleLen, Closed, Sum, Overflow;
    var cellLines, lines := WrappedRow(row, widths), RowLines(row, widths);
    PlainIsVisible("");
    NothingVisible();
    forall i | 0 <= i < |row|
      ensures forall k | 0 <= k < |cellLines[i]| :: Closed(cellLines[i][k])
      ensures (forall k | 0 <= k < |cellLines[i]| :: VisibleLen(cellLines[i][k]) <= widths[i]) <==> Wrappable(row[i], widths[i])
    {
      WrappedClosed(row[i], widths[i]);
      WrapKeepsAndFits(row[i], widths[i]);
    }
    forall k | 0 <= k < |lines|
      ensures Fits(lines[k], widths) <==> forall i | 0 <= i < |row| :: VisibleLen(CellAt(cellLines[i], k)) <= widths[i]
    {
      LineFits(cellLines, widths, widths, k);
      NoOverflow(cellLines, widths, k);
    }
    if AllFit(lines, widths) {
      forall i | 0 <= i < |row|
        ensures Wrappable(row[i], widths[i])
      {
        assert forall k | 0 <= k < |cellLines[i]| :: k < |lines| && CellAt(cellLines[i], k) == cellLines[i][k] && Fits(lines[k], widths);
      }
    } else {
      var k :| 0 <= k < |lines| && !Fits(lines[k], widths);
      var i :| 0 <= i < |row| && VisibleLen(CellAt(cellLines[i], k)) > widths[i];
      assert k < |cellLines[i]| && !Wrappable(row[i], widths[i]);
    }
  }

  lemma AllFitConcat(a: seq<string>, b: seq<string>, widths: seq<nat>)
    ensures AllFit(a + b, widths) <==> AllFit(a, widths) && AllFit(b, widths)
  {
    hide Fits;
    if AllFit(a + b, widths) {
      assert forall k | 0 <= k < |a| :: a[k] == (a + b)[k];
      assert forall k | 0 <= k < |b| :: b[k] == (a + b)[|a| + k];
    }
  }

  lemma AnyRowFits(row: seq<string>, widths: seq<nat>)
    requires ClosedRow(row)
    ensures AllFit(RowLines(row, widths), widths) <==> RowAligned(row, widths)
  {
    if |row| == |widths| {
      RowFits(row, widths);
    } else {
      RaggedRowFits(row, widths);
    }
  }

  lemma {:induction false} RowsFit(rows: seq<seq<string>>, widths: seq<nat>)
    requires forall r | 0 <= r < |rows| :: ClosedRow(rows[r])
    ensures AllFit(AllRows(rows, widths), widths) <==> forall r | 0 <= r < |rows| :: RowAligned(rows[r], widths)
  {
    hide RowLines, Fits, RowAligned, ClosedRow;
    if rows == [] {
    } else {
      var front, last := rows[..|rows| - 1], rows[|rows| - 1];
      RowsFit(front, widths);
      AnyRowFits(last, widths);
      AllFitConcat(AllRows(front, widths), RowLines(last, widths), widths);
      assert (forall r | 0 <= r < |rows| :: RowAligned(rows[r], widths))
        <==> (forall r | 0 <= r < |front| :: RowAligned(front[r], widths)) && RowAligned(last, widths);
    }
  }

  lemma {:induction false} BorderCellsPlain(mid: char, widths: seq<nat>)
    requires mid != ESC
    ensures ESC !in BorderCells(mid, widths)
  {
    if widths == [] {
    } else {
      BorderCellsPlain(mid, widths[..|widths| - 1]);
    }
  }

  lemma BorderPlain(style: (char, char, char), widths: seq<nat>)
    requires style.0 != ESC && style.1 != ESC && style.2 != ESC
    ensures ESC !in Border(style, widths)
  {
    BorderCellsPlain(style.1, widths);
  }

  lemma BorderFits(style: (char, char, char), widths: seq<nat>)
    requires widths != [] && style.0 != ESC && style.1 != ESC && style.2 != ESC
    ensures AllFit([Border(style, widths)], widths)
  {
    hide Stripped;
    BorderCellsWidth(style.1, widths);
    BorderPlain(style, widths);
    PlainIsVisible(Border(style, widths));
  }

  /** For every table with at least one column and cells with complete escape sequences: all printed lines, borders
      included, look as wide as the table, exactly when every header is narrow enough for its column or has a word to
      wrap at, and every row, of whatever length, is aligned. */
  lemma AlignedExactly(t: Table, widths: seq<nat>)
    requires |widths| == |t.headers| > 0 && ClosedRow(t.headers)
    requires forall r | 0 <= r < |t.rows| :: ClosedRow(t.rows[r])
    ensures AllFit(Rendered(t, widths), widths)
       <==> RowWrappable(t.headers, widths) && forall r | 0 <= r < |t.rows| :: RowAligned(t.rows[r], widths)
  {
    hide RowLines, AllRows, AllFit, RowWrappable, RowAligned, ClosedRow, Border;
    var top, mid, end := [Border(TOP, widths)], [Border(MIDDLE, widths)], [Border(BOTTOM, widths)];
    var head, body := RowLines(t.headers, widths), AllRows(t.rows, widths);
    BorderFits(TOP, widths);
    BorderFits(MIDDLE, widths);
    BorderFits(BOTTOM, widths);
    RowFits(t.headers, widths);
    RowsFit(t.rows, widths);
    AllFitConcat(top, head, widths);
    AllFitConcat(top + head, mid, widths);
    AllFitConcat(top + head + mid, body, widths);
    AllFitConcat(top + head + mid + body, end, widths);
  }

  // ----- what a table shows

  /** From column `at` on, `v` has a space, `text`, spaces up to the width of the column, a space and the rule. */
  ghost predicate ShowsAt(v: string, at: nat, text: string, width: nat) {
    && at + width + 3 <= |v| && |text| <= width
    && v[at] == ' ' && v[at + 1..at + 1 + width] == text + Repeat(' ', width - |text|)
    && v[at + 1 + width] == ' ' && v[at + 2 + width] == V_RULE
  }

  lemma StrippedClosed(a: string, b: string)
    requires Closed(a) && Closed(b)
    ensures Closed(a + b) && Stripped(a + b, false) == Stripped(a, false) + Stripped(b, false)
  {
    StrippedConcat(a, b, false);
  }

  lemma BoxedShows(cell: string, width: nat)
    requires Closed(cell) && VisibleLen(cell) <= width
    ensures var v := Stripped(Boxed(cell, width), false);
            |v| == width + 3 && ShowsAt(v, 0, Stripped(cell, false), width) && Closed(Boxed(cell, width))
  {
    hide Stripped, Closed;
    var text := Stripped(cell, false);
    var pad := Repeat(' ', width - |text|);
    PlainIsVisible(" ");
    PlainIsVisible(pad);
    PlainIsVisible([V_RULE]);
    StrippedClosed(" ", cell);
    StrippedClosed(" " + cell, pad);
    StrippedClosed(" " + cell + pad, " ");
    StrippedClosed(" " + cell + pad + " ", [V_RULE]);
    assert width > |text| || pad == "";
    var v := " " + text + pad + " " + [V_RULE];
    assert v[1..1 + width] == text + pad;
  }

  /** What is shown stays where it is when something is put behind it, and moves when something is put in front. */
  lemma ShowsWithin(a: string, v: string, b: string, at: nat, text: string, width: nat)
    requires ShowsAt(v, at, text, width)
    ensures ShowsAt(a + v + b, |a| + at, text, width)
  {
    var all := a + v + b;
    assert all[|a| + at + 1..|a| + at + 1 + width] == v[at + 1..at + 1 + width];
  }

  /** Cells that keep to their columns: no line of any sticks out. */
  ghost predicate KeepIn(cellLines: seq<seq<string>>, widths: seq<nat>, k: nat)
    requires |cellLines| == |widths|
  {
    forall i | 0 <= i < |widths| :: Closed(CellAt(cellLines[i], k)) && VisibleLen(CellAt(cellLines[i], k)) <= widths[i]
  }

  /** `v` shows these texts in their columns. */
  ghost predicate ShowsAll(v: string, texts: seq<string>, widths: seq<nat>)
    requires |texts| == |widths|
  {
    |v| == Sum(widths) && forall i | 0 <= i < |widths| :: ShowsAt(v, Sum(widths[..i]), texts[i], widths[i])
  }

  lemma SumLast(widths: seq<nat>, width: nat)
    ensures Sum(widths + [width]) == Sum(widths) + width + 3
  {
    assert (widths + [width])[..|widths|] == widths;
  }

  lemma ShowsOneMore(a: string, texts: seq<string>, widths: seq<nat>, b: string, text: string, width: nat)
    requires |texts| == |widths| && ShowsAll(a, texts, widths) && ShowsAt(b, 0, text, width) && |b| == width + 3
    ensures ShowsAll(a + b, texts + [text], widths + [width])
  {
    hide ShowsAt, Sum;
    var all := widths + [width];
    SumLast(widths, width);
    forall i | 0 <= i < |all|
      ensures ShowsAt(a + b, Sum(all[..i]), (texts + [text])[i], all[i])
    {
      if i == |widths| {
        assert all[..i] == widths && a + b + "" == a + b;
        ShowsWithin(a, b, "", 0, text, width);
      } else {
        assert all[..i] == widths[..i] && "" + a + b == a + b;
        ShowsWithin("", a, b, Sum(widths[..i]), texts[i], widths[i]);
      }
    }
  }

  function LineTexts(cellLines: seq<seq<string>>, k: nat): (texts: seq<string>)
    ensures |texts| == |cellLines| && forall i | 0 <= i < |texts| :: texts[i] == Stripped(CellAt(cellLines[i], k), false)
  {
    seq(|cellLines|, i requires 0 <= i < |cellLines| => Stripped(CellAt(cellLines[i], k), false))
  }

  lemma ShowsNone()
    ensures ShowsAll("", [], [])
  {
  }

  lemma {:induction false} CellsShow(cellLines: seq<seq<string>>, widths: seq<nat>, k: nat)
    requires |cellLines| == |widths| && KeepIn(cellLines, widths, k)
    ensures var line := Cells(cellLines, widths, k);
            Closed(line) && ShowsAll(Stripped(line, false), LineTexts(cellLines, k), widths)
  {
    hide Stripped, Closed, Boxed, ShowsAt, ShowsAll;
    if widths == [] {
      PlainIsVisible("");
      ShowsNone();
      assert LineTexts(cellLines, k) == [];
    } else {
      var last := |widths| - 1;
      var cell, front := CellAt(cellLines[last], k), Cells(cellLines[..last], widths[..last], k);
      CellsShow(cellLines[..last], widths[..last], k);
      BoxedShows(cell, widths[last]);
      StrippedClosed(front, Boxed(cell, widths[last]));
      ShowsOneMore(Stripped(front, false), LineTexts(cellLines[..last], k), widths[..last],
                   Stripped(Boxed(cell, widths[last]), false), Stripped(cell, false), widths[last]);
      assert LineTexts(cellLines, k) == LineTexts(cellLines[..last], k) + [Stripped(cell, false)];
      assert widths == widths[..last] + [widths[last]];
    }
  }

  /** The visible text of line `k` of a cell wrapped to its column; none beyond its last line. */
  function TextLine(cell: string, width: nat, k: nat): string {
    var lines := Wrapped(cell, width);
    if k < |lines| then Stripped(lines[k], false) else ""
  }

  lemma CellLine(lines: seq<string>, k: nat)
    ensures Stripped(CellAt(lines, k), false) == if k < |lines| then Stripped(lines[k], false) else ""
  {
  }

  lemma RowKeepsIn(row: seq<string>, widths: seq<nat>, k: nat)
    requires |row| == |widths| && ClosedRow(row) && RowWrappable(row, widths)
    ensures KeepIn(WrappedRow(row, widths), widths, k)
  {
    hide Wrapped, Closed, Stripped, Wrappable;
    PlainIsVisible("");
    forall i | 0 <= i < |row|
      ensures Closed(CellAt(WrappedRow(row, widths)[i], k)) && VisibleLen(CellAt(WrappedRow(row, widths)[i], k)) <= widths[i]
    {
      WrappedClosed(row[i], widths[i]);
      WrapKeepsAndFits(row[i], widths[i]);
      CellLine(WrappedRow(row, widths)[i], k);
    }
  }

  lemma LineShows(row: seq<string>, widths: seq<nat>, k: nat, i: nat)
    requires |row| == |widths| && ClosedRow(row) && RowWrappable(row, widths) && k < |RowLines(row, widths)| && i < |row|
    ensures ShowsAt(Stripped(RowLines(row, widths)[k], false), 1 + Sum(widths[..i]), TextLine(row[i], widths[i], k), widths[i])
  {
    hide Wrapped, Closed, Stripped, Wrappable, Cells, ShowsAt, Sum, Height;
    var cellLines := WrappedRow(row, widths);
    var line := Cells(cellLines, widths, k);
    RowKeepsIn(row, widths, k);
    CellsShow(cellLines, widths, k);
    PlainIsVisible([V_RULE]);
    StrippedClosed([V_RULE], line);
    CellLine(cellLines[i], k);
    assert LineTexts(cellLines, k)[i] == TextLine(row[i], widths[i], k);
    var v := Stripped(line, false);
    ShowsWithin([V_RULE], v, "", Sum(widths[..i]), TextLine(row[i], widths[i], k), widths[i]);
    assert [V_RULE] + v + "" == [V_RULE] + v;
  }

  lemma {:induction false} HeightAttained(cellLines: seq<seq<string>>)
    requires cellLines != []
    ensures exists i | 0 <= i < |cellLines| :: |cellLines[i]| == Height(cellLines)
  {
    var last := |cellLines| - 1;
    if last == 0 {
      assert Height(cellLines[..0]) == 0;
      assert |cellLines[0]| == Height(cellLines);
    } else {
      HeightAttained(cellLines[..last]);
      var i :| 0 <= i < last && |cellLines[..last][i]| == Height(cellLines[..last]);
      assert |cellLines[if |cellLines[last]| >= |cellLines[i]| then last else i]| == Height(cellLines);
    }
  }

  /** Every printed line of a row whose cells keep to their columns shows, at the place of each column, the visible text of
      that line of the wrapped cell, and spaces; there are as many lines as the tallest cell has. */
  lemma RowShows(row: seq<string>, widths: seq<nat>)
    requires |row| == |widths| && ClosedRow(row) && RowWrappable(row, widths)
    ensures forall k, i | 0 <= k < |RowLines(row, widths)| && 0 <= i < |row| ::
              ShowsAt(Stripped(RowLines(row, widths)[k], false), 1 + Sum(widths[..i]), TextLine(row[i], widths[i], k), widths[i])
    ensures forall i | 0 <= i < |row| :: |Wrapped(row[i], widths[i])| <= |RowLines(row, widths)|
    ensures row != [] ==> exists i | 0 <= i < |row| :: |Wrapped(row[i], widths[i])| == |RowLines(row, widths)|
  {
    hide Wrapped, Closed, Stripped, Wrappable, Cells, ShowsAt, ClosedRow, Sum;
    var lines, cellLines := RowLines(row, widths), WrappedRow(row, widths);
    forall k, i | 0 <= k < |lines| && 0 <= i < |row|
      ensures ShowsAt(Stripped(lines[k], false), 1 + Sum(widths[..i]), TextLine(row[i], widths[i], k), widths[i])
    {
      LineShows(row, widths, k, i);
    }
    if row != [] {
      HeightAttained(cellLines);
    }
  }

  // ----- the characters of a column

  function Slice(s: string, at: nat, len: nat): string {
    if at + len <= |s| then s[at..at + len] else ""
  }

  /** The visible characters of column `i` of a line, white space left out. */
  function LineInk(line: string, widths: seq<nat>, i: nat): string
    requires i < |widths|
  {
    Ink(Slice(Stripped(line, false), 2 + Sum(widths[..i]), widths[i]))
  }

  /** The visible characters of column `i`, white space left out, over all lines. */
  function ColumnInk(lines: seq<string>, widths: seq<nat>, i: nat): string
    requires i < |widths|
  {
    if lines == [] then "" else LineInk(lines[0], widths, i) + ColumnInk(lines[1..], widths, i)
  }

  lemma {:induction false} ColumnInkConcat(a: seq<string>, b: seq<string>, widths: seq<nat>, i: nat)
    requires i < |widths|
    ensures ColumnInk(a + b, widths, i) == ColumnInk(a, widths, i) + ColumnInk(b, widths, i)
  {
    hide LineInk;
    if a == [] {
      assert a + b == b && "" + ColumnInk(b, widths, i) == ColumnInk(b, widths, i);
    } else {
      ColumnInkConcat(a[1..], b, widths, i);
      assert (a + b)[0] == a[0] && (a + b)[1..] == a[1..] + b;
      var x, y, z := LineInk(a[0], widths, i), ColumnInk(a[1..], widths, i), ColumnInk(b, widths, i);
      assert x + (y + z) == x + y + z;
    }
  }

  lemma {:induction false} InkSpaces(n: nat)
    ensures Ink(Repeat(' ', n)) == ""
  {
    if n == 0 {
    } else {
      InkSpaces(n - 1);
      assert Repeat(' ', n)[1..] == Repeat(' ', n - 1);
    }
  }

  lemma ShownInk(v: string, at: nat, text: string, width: nat)
    requires ShowsAt(v, at, text, width)
    ensures Ink(Slice(v, at + 1, width)) == Ink(text)
  {
    hide Ink;
    InkConcat(text, Repeat(' ', width - |text|));
    InkSpaces(width - |text|);
  }

  /** From line `k` on, a column shows the ink of its cell's lines from `k` on. */
  lemma {:induction false} ColumnFrom(row: seq<string>, widths: seq<nat>, i: nat, k: nat)
    requires |row| == |widths| && ClosedRow(row) && RowWrappable(row, widths) && i < |row| && k <= |RowLines(row, widths)|
    ensures var lines, cell := RowLines(row, widths), VisibleLines(Wrapped(row[i], widths[i]));
            ColumnInk(lines[k..], widths, i) == InkOf(if k <= |cell| then cell[k..] else [])
    decreases |RowLines(row, widths)| - k
  {
    hide Wrapped, Stripped, Ink, RowLines, ShowsAt, ClosedRow, RowWrappable, Sum, InkOf, Slice;
    var lines, cell := RowLines(row, widths), VisibleLines(Wrapped(row[i], widths[i]));
    RowShows(row, widths);
    if k == |lines| {
      assert lines[k..] == [] && (k <= |cell| ==> cell[k..] == []);
      InkEmpty();
    } else {
      var text := TextLine(row[i], widths[i], k);
      ColumnFrom(row, widths, i, k + 1);
      ShownInk(Stripped(lines[k], false), 1 + Sum(widths[..i]), text, widths[i]);
      assert lines[k..][0] == lines[k] && lines[k..][1..] == lines[k + 1..];
      InkEmpty();
      if k < |cell| {
        InkFirst(cell[k..]);
        assert cell[k..][0] == text && cell[k..][1..] == cell[k + 1..];
      } else {
        assert "" + InkOf([]) == "";
      }
    }
  }

  /** Over the lines of a row, each column shows exactly the visible characters of its cell but white space, in order. */
  lemma ColumnShowsCell(row: seq<string>, widths: seq<nat>, i: nat)
    requires |row| == |widths| && ClosedRow(row) && RowWrappable(row, widths) && i < |row|
    ensures ColumnInk(RowLines(row, widths), widths, i) == Ink(Stripped(row[i], false))
  {
    hide Wrapped, Stripped, Ink, RowLines, ClosedRow, RowWrappable, InkOf, ColumnInk;
    var lines, cell := RowLines(row, widths), VisibleLines(Wrapped(row[i], widths[i]));
    ColumnFrom(row, widths, i, 0);
    assert lines[0..] == lines && cell[0..] == cell;
    WrapKeepsAndFits(row[i], widths[i]);
  }

  /** The visible characters of column `i` of some rows, white space left out. */
  function CellsInk(rows: seq<seq<string>>, i: nat): string
    requires forall r | 0 <= r < |rows| :: i < |rows[r]|
  {
    if rows == [] then "" else CellsInk(rows[..|rows| - 1], i) + Ink(Stripped(rows[|rows| - 1][i], false))
  }

  lemma NoInk(widths: seq<nat>, i: nat)
    requires i < |widths|
    ensures ColumnInk([], widths, i) == ""
  {
  }

  lemma {:induction false} ColumnShowsRows(rows: seq<seq<string>>, widths: seq<nat>, i: nat)
    requires i < |widths| && forall r | 0 <= r < |rows| :: |rows[r]| == |widths| && ClosedRow(rows[r]) && RowWrappable(rows[r], widths)
    ensures ColumnInk(AllRows(rows, widths), widths, i) == CellsInk(rows, i)
  {
    hide Stripped, Ink, RowLines, ClosedRow, RowWrappable, ColumnInk;
    if rows == [] {
      NoInk(widths, i);
    } else {
      var front, last := rows[..|rows| - 1], rows[|rows| - 1];
      ColumnShowsRows(front, widths, i);
      ColumnShowsCell(last, widths, i);
      ColumnInkConcat(AllRows(front, widths), RowLines(last, widths), widths, i);
    }
  }

  // ----- borders

  /** From column `at` on, `b` has the rule over the width of a column and its padding, and then `end`. */
  ghost predicate RuledAt(b: string, at: nat, width: nat, end: char) {
    at + width + 3 <= |b| && b[at..at + width + 2] == Repeat(H_RULE, width + 2) && b[at + width + 2] == end
  }

  /** `b` is ruled over every column, with a crossing behind each but the last. */
  ghost predicate RuledAll(b: string, widths: seq<nat>, mid: char, end: char) {
    |b| == Sum(widths)
    && forall i | 0 <= i < |widths| :: RuledAt(b, Sum(widths[..i]), widths[i], if i == |widths| - 1 then end else mid)
  }

  lemma RuledPiece(a: string, width: nat, end: char)
    ensures RuledAt(a + Repeat(H_RULE, width + 2) + [end], |a|, width, end)
  {
  }

  lemma RuledWithin(b: string, more: string, at: nat, width: nat, end: char)
    requires RuledAt(b, at, width, end)
    ensures RuledAt(b + more, at, width, end)
  {
    assert (b + more)[at..at + width + 2] == b[at..at + width + 2];
  }

  lemma RuledOneMore(a: string, widths: seq<nat>, mid: char, width: nat, end: char)
    requires RuledAll(a, widths, mid, mid)
    ensures RuledAll(a + Repeat(H_RULE, width + 2) + [end], widths + [width], mid, end)
  {
    hide RuledAt, Sum;
    var all, b := widths + [width], a + Repeat(H_RULE, width + 2) + [end];
    SumLast(widths, width);
    RuledPiece(a, width, end);
    forall i | 0 <= i < |all|
      ensures RuledAt(b, Sum(all[..i]), all[i], if i == |all| - 1 then end else mid)
    {
      if i == |widths| {
        assert all[..i] == widths;
      } else {
        assert all[..i] == widths[..i];
        RuledWithin(a, Repeat(H_RULE, width + 2) + [end], Sum(widths[..i]), widths[i], mid);
        assert a + (Repeat(H_RULE, width + 2) + [end]) == b;
      }
    }
  }

  lemma RuledNone(mid: char)
    ensures RuledAll("", [], mid, mid)
  {
  }

  lemma {:induction false} BorderCellsRuled(mid: char, widths: seq<nat>, end: char)
    requires widths != []
    ensures RuledAll(BorderCells(mid, widths) + [end], widths, mid, end)
  {
    hide RuledAll, Sum;
    var last := |widths| - 1;
    var front, piece := widths[..last], Repeat(H_RULE, widths[last] + 2);
    var a := if last == 0 then "" else BorderCells(mid, front) + [mid];
    if last == 0 {
      assert front == [];
      RuledNone(mid);
    } else {
      BorderCellsRuled(mid, front, mid);
    }
    RuledOneMore(a, front, mid, widths[last], end);
    assert BorderCells(mid, widths) + [end] == a + piece + [end];
    assert front + [widths[last]] == widths;
  }

  /** A border is its left corner, and over every column the rule and then a crossing, the last one the right corner. */
  lemma BorderRuled(style: (char, char, char), widths: seq<nat>)
    requires widths != []
    ensures var b := Border(style, widths);
            && |b| == 1 + Sum(widths) && b[0] == style.0
            && forall i | 0 <= i < |widths| ::
                 RuledAt(b, 1 + Sum(widths[..i]), widths[i], if i == |widths| - 1 then style.2 else style.1)
  {
    hide BorderCells, Sum;
    BorderCellsRuled(style.1, widths, style.2);
    var inner := BorderCells(style.1, widths) + [style.2];
    assert Border(style, widths) == [style.0] + inner;
    forall i | 0 <= i < |widths|
      ensures RuledAt([style.0] + inner, 1 + Sum(widths[..i]), widths[i], if i == |widths| - 1 then style.2 else style.1)
    {
      var at, b := Sum(widths[..i]), [style.0] + inner;
      assert b[1 + at..1 + at + widths[i] + 2] == inner[at..at + widths[i] + 2];
    }
  }

  /** A table whose cells keep to their columns shows, between its borders, in every column the header and then the cells
      of the rows, from the top down. */
  lemma TableShows(t: Table, widths: seq<nat>, i: nat)
    requires |widths| == |t.headers| && i < |widths| && ClosedRow(t.headers) && RowWrappable(t.headers, widths)
    requires forall r | 0 <= r < |t.rows| :: |t.rows[r]| == |widths| && ClosedRow(t.rows[r]) && RowWrappable(t.rows[r], widths)
    ensures var lines, h := Rendered(t, widths), |RowLines(t.headers, widths)|;
            && |lines| >= h + 3 && lines[0] == Border(TOP, widths) && lines[h + 1] == Border(MIDDLE, widths)
            && lines[|lines| - 1] == Border(BOTTOM, widths)
            && ColumnInk(lines[1..h + 1], widths, i) == Ink(Stripped(t.headers[i], false))
            && ColumnInk(lines[h + 2..|lines| - 1], widths, i) == CellsInk(t.rows, i)
  {
    hide Stripped, Ink, RowLines, AllRows, Border, ClosedRow, RowWrappable, ColumnInk, CellsInk;
    var lines, head, body := Rendered(t, widths), RowLines(t.headers, widths), AllRows(t.rows, widths);
    assert lines[1..|head| + 1] == head && lines[|head| + 2..|lines| - 1] == body;
    ColumnShowsCell(t.headers, widths, i);
    ColumnShowsRows(t.rows, widths, i);
  }

  // ----- escape sequences and wrapping in detail

  lemma {:induction false} StrippedSequence(params: string, letter: char, rest: string)
    requires IsAlphabetic(letter) && letter != ESC && forall i | 0 <= i < |params| :: params[i] != ESC && !IsAlphabetic(params[i])
    ensures Stripped(params + [letter] + rest, true) == Stripped(rest, false)
    decreases |params|
  {
    var s := params + [letter] + rest;
    if params == "" {
      assert s[0] == letter && s[1..] == rest;
    } else {
      StrippedSequence(params[1..], letter, rest);
      assert s[0] == params[0] && s[1..] == params[1..] + [letter] + rest;
    }
  }

  /** An escape sequence, from the escape character to the first letter, is not visible; the text before it is. */
  lemma SequenceInvisible(text: string, params: string, letter: char, rest: string)
    requires ESC !in text && IsAlphabetic(letter) && letter != ESC
    requires forall i | 0 <= i < |params| :: params[i] != ESC && !IsAlphabetic(params[i])
    ensures Stripped(text + ([ESC] + (params + [letter] + rest)), false) == text + Stripped(rest, false)
  {
    var tail := params + [letter] + rest;
    PlainIsVisible(text);
    StrippedConcat(text, [ESC] + tail, false);
    assert ([ESC] + tail)[0] == ESC && ([ESC] + tail)[1..] == tail;
    StrippedSequence(params, letter, rest);
  }

  function Glued(parts: seq<string>): string {
    if parts == [] then "" else parts[0] + Glued(parts[1..])
  }

  /** The pieces of a long word make it up, and all but the last are as wide as the column. */
  lemma {:induction false} ChunksFull(word: string, width: nat)
    requires width > 0
    ensures Glued(Chunks(word, width)) == word
    ensures forall i | 0 <= i < |Chunks(word, width)| ::
              0 < |Chunks(word, width)[i]| <= width && (i < |Chunks(word, width)| - 1 ==> |Chunks(word, width)[i]| == width)
    decreases |word|
  {
    var parts := Chunks(word, width);
    if word == "" {
    } else if |word| <= width {
      assert parts == [word] && parts[1..] == [];
      assert Glued(parts) == word + "";
    } else {
      ChunksFull(word[width..], width);
      assert parts[1..] == Chunks(word[width..], width) && word == word[..width] + word[width..];
    }
  }

  /** A word wider than the column stands apart: what is before and after it is filled by itself. */
  lemma {:induction false} LongWordApart(before: seq<string>, word: string, after: seq<string>, width: nat, current: string)
    requires 0 < width < |word|
    ensures Filled(before + [word] + after, width, current)
         == Filled(before, width, current) + Chunks(word, width) + Filled(after, width, "")
    decreases |before|
  {
    hide Chunks;
    var all, tail := before + [word] + after, Chunks(word, width) + Filled(after, width, "");
    if before == [] {
      assert all[0] == word && all[1..] == after;
      assert Pending(current) + Chunks(word, width) + Filled(after, width, "") == Pending(current) + tail;
    } else {
      var first, rest := before[0], before[1..];
      assert all[0] == first && all[1..] == rest + [word] + after;
      LongWordApart(rest, word, after, width, "");
      LongWordApart(rest, word, after, width, first);
      LongWordApart(rest, word, after, width, current + " " + first);
      var pieces, more := Chunks(word, width), Filled(after, width, "");
      FilledAssoc([current], Filled(rest, width, first), pieces, more);
      FilledAssoc(Pending(current) + Chunks(first, width), Filled(rest, width, ""), pieces, more);
    }
  }

  function Ungrouped(groups: seq<seq<string>>): seq<string> {
    if groups == [] then [] else groups[0] + Ungrouped(groups[1..])
  }

  lemma {:induction false} JoinLast(words: seq<string>, word: string)
    requires words != []
    ensures Join(words + [word], " ") == Join(words, " ") + " " + word
    decreases |words|
  {
    if |words| == 1 {
      assert (words + [word])[1..] == [word];
    } else {
      JoinLast(words[1..], word);
      assert (words + [word])[1..] == words[1..] + [word];
      var a, b := words[0] + " ", Join(words[1..], " ");
      assert a + (b + " " + word) == a + b + " " + word;
    }
  }

  /** Lines filled with groups of words, one space between two, in order; a line ends only where the next word does not
      fit on it. */
  ghost predicate Greedy(lines: seq<string>, groups: seq<seq<string>>, words: seq<string>, width: nat) {
    && |lines| == |groups| && Ungrouped(groups) == words
    && (forall i | 0 <= i < |lines| :: groups[i] != [] && lines[i] == Join(groups[i], " "))
    && (forall i | 0 <= i < |lines| - 1 :: groups[i + 1] != [] ==> |lines[i]| + 1 + |groups[i + 1][0]| > width)
  }

  lemma JoinSingle(word: string)
    ensures Join([word], " ") == word
  {
  }

  lemma JoinEmpty(words: seq<string>)
    requires forall i | 0 <= i < |words| :: words[i] != ""
    ensures Join(words, " ") == "" <==> words == []
  {
  }

  lemma GreedyNone(width: nat)
    ensures Greedy([], [], [], width)
  {
  }

  lemma GreedyOne(begun: seq<string>, width: nat)
    requires begun != []
    ensures Greedy([Join(begun, " ")], [begun], begun, width)
  {
    hide Join;
    var groups := [begun];
    assert groups[1..] == [] && begun + [] == begun;
    assert Ungrouped(groups) == begun;
  }

  lemma GreedyLast(begun: seq<string>, width: nat)
    requires forall i | 0 <= i < |begun| :: begun[i] != ""
    ensures Greedy(Pending(Join(begun, " ")), if begun == [] then [] else [begun], begun, width)
  {
    hide Join, Greedy;
    JoinEmpty(begun);
    if begun == [] {
      GreedyNone(width);
    } else {
      GreedyOne(begun, width);
    }
  }

  lemma GreedyMore(begun: seq<string>, lines: seq<string>, groups: seq<seq<string>>, words: seq<string>, width: nat)
    requires begun != [] && Greedy(lines, groups, words, width) && groups != [] && groups[0] != []
    requires |Join(begun, " ")| + 1 + |groups[0][0]| > width
    ensures Greedy([Join(begun, " ")] + lines, [begun] + groups, begun + words, width)
  {
    hide Join;
    var all, lines' := [begun] + groups, [Join(begun, " ")] + lines;
    assert all[1..] == groups;
    forall i | 0 <= i < |lines'|
      ensures all[i] != [] && lines'[i] == Join(all[i], " ")
      ensures i < |lines'| - 1 ==> |lines'[i]| + 1 + |all[i + 1][0]| > width
    {
      if i > 0 {
        assert groups[i - 1] != [] && lines[i - 1] == Join(groups[i - 1], " ");
      }
      if i < |lines'| - 1 {
        assert groups[i] != [] && all[i + 1] == groups[i];
      }
    }
  }

  /** Words that fit the column are filled greedily, behind the words that the line begins with. */
  lemma {:induction false} FilledGreedily(words: seq<string>, width: nat, begun: seq<string>) returns (groups: seq<seq<string>>)
    requires width > 0 && (forall i | 0 <= i < |words| :: 0 < |words[i]| <= width) && forall i | 0 <= i < |begun| :: begun[i] != ""
    ensures Greedy(Filled(words, width, Join(begun, " ")), groups, begun + words, width)
    ensures begun != [] ==> groups != [] && begun <= groups[0]
    decreases |words|
  {
    hide Greedy, Join;
    var current := Join(begun, " ");
    JoinEmpty(begun);
    if words == [] {
      groups := if begun == [] then [] else [begun];
      assert begun + words == begun;
      GreedyLast(begun, width);
    } else {
      var word, rest := words[0], words[1..];
      JoinSingle(word);
      if begun == [] {
        groups := FilledGreedily(rest, width, [word]);
        assert begun + words == [word] + rest;
      } else if |current| + |word| + 1 > width {
        var more := FilledGreedily(rest, width, [word]);
        groups := [begun] + more;
        assert [word] + rest == words && more[0][0] == word;
        GreedyMore(begun, Filled(rest, width, word), more, words, width);
      } else {
        JoinLast(begun, word);
        groups := FilledGreedily(rest, width, begun + [word]);
        assert begun + [word] + rest == begun + words;
        assert begun <= begun + [word];
      }
    }
  }

  /** A cell whose visible words all fit its column, and that is itself too wide, is wrapped to lines of its words, one
      space between two, in order and as many on a line as fit. */
  lemma WrappedGreedily(text: string, width: nat) returns (groups: seq<seq<string>>)
    requires var words := SplitWhitespace(Stripped(text, false), "");
             0 < width < VisibleLen(text) && words != [] && forall i | 0 <= i < |words| :: 0 < |words[i]| <= width
    ensures Greedy(Wrapped(text, width), groups, SplitWhitespace(Stripped(text, false), ""), width)
  {
    hide Greedy, Filled, Stripped, SplitWhitespace;
    var words := SplitWhitespace(Stripped(text, false), "");
    groups := FilledGreedily(words, width, []);
    assert [] + words == words;
  }
}
