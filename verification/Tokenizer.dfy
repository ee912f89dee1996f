/** The manifest's command tokenizer: whitespace, single quotes, and double quotes with two escapes. */
module Tokenizer {
  import opened Text

  datatype TokenizeError = UnclosedQuote | TrailingBackslash | InvalidEscape(c: char)
  datatype Tokens = Ok(args: seq<string>) | Err(error: TokenizeError)
  datatype Mode = Normal | Single | Double

  predicate IsQuote(c: char) {
    c == '\'' || c == '"'
  }

  function Flush(args: seq<string>, cur: string): seq<string> {
    if cur == "" then args else args + [cur]
  }

  /** Tokens of `s` read in state `mode` with the partial token `cur` after the tokens `args`. */
  function Scan(s: string, mode: Mode, cur: string, args: seq<string>): Tokens
    decreases |s|
  {
    if s == "" then (if mode.Normal? then Ok(Flush(args, cur)) else Err(UnclosedQuote))
    else
      var r, rest := s[0], s[1..];
      match mode
      case Normal =>
        if IsWhitespace(r) then Scan(rest, Normal, "", Flush(args, cur))
        else if r == '\'' then Scan(rest, Single, cur, args)
        else if r == '"' then Scan(rest, Double, cur, args)
        else Scan(rest, Normal, cur + [r], args)
      case Single =>
        if r == '\'' then Scan(rest, Normal, cur, args) else Scan(rest, Single, cur + [r], args)
      case Double =>
        if r == '"' then Scan(rest, Normal, cur, args)
        else if r == '\\' then
          if rest == "" then Err(TrailingBackslash)
          else if rest[0] == '"' || rest[0] == '\\' then Scan(rest[1..], Double, cur + [rest[0]], args)
          else Err(InvalidEscape(rest[0]))
        else Scan(rest, Double, cur + [r], args)
  }

  /** The tokenizer's loop. */
  method Tokenize(input: string) returns (r: Tokens)
    ensures r == Scan(input, Normal, "", [])
  {
    var pos, state, args, cur := 0, Normal, [], "";
    while pos < |input|
      invariant 0 <= pos <= |input|
      invariant Scan(input[pos..], state, cur, args) == Scan(input, Normal, "", [])
      decreases |input| - pos
    {
      var c := input[pos];
      assert input[pos..][1..] == input[pos + 1..];
      match state {
        case Normal =>
          if IsWhitespace(c) {
            if cur != "" {
              args, cur := args + [cur], "";
            }
          } else if c == '\'' {
            state := Single;
          } else if c == '"' {
            state := Double;
          } else {
            cur := cur + [c];
          }
        case Single =>
          if c == '\'' {
            state := Normal;
          } else {
            cur := cur + [c];
          }
        case Double =>
          if c == '"' {
            state := Normal;
          } else if c == '\\' {
            if pos + 1 >= |input| {
              return Err(TrailingBackslash);
            }
            var next := input[pos + 1];
            if next != '"' && next != '\\' {
              return Err(InvalidEscape(next));
            }
            assert input[pos + 1..][1..] == input[pos + 2..];
            cur := cur + [next];
            pos := pos + 1;
          } else {
            cur := cur + [c];
          }
      }
      pos := pos + 1;
    }
    assert input[pos..] == "";
    if !state.Normal? {
      return Err(UnclosedQuote);
    }
    if cur != "" {
      args := args + [cur];
    }
    return Ok(args);
  }

  // ----- the texts that the tokenizer reads

  /** A stretch of a word: as it is, in single quotes, or in double quotes with escapes. */
  datatype Segment = Bare(text: string) | SingleQuoted(text: string) | DoubleQuoted(text: string)

  predicate WellFormed(seg: Segment) {
    match seg
    case Bare(t) => forall i | 0 <= i < |t| :: !IsWhitespace(t[i]) && !IsQuote(t[i])
    case SingleQuoted(t) => '\'' !in t
    case DoubleQuoted(_) => true
  }

  function Escape(c: char): string {
    if c == '"' || c == '\\' then ['\\', c] else [c]
  }

  function Escaped(t: string): string {
    if t == "" then "" else Escape(t[0]) + Escaped(t[1..])
  }

  function Shown(seg: Segment): string {
    match seg
    case Bare(t) => t
    case SingleQuoted(t) => "'" + t + "'"
    case DoubleQuoted(t) => "\"" + Escaped(t) + "\""
  }

  /** A word made of segments, and the white space after it. */
  datatype Item = Item(word: seq<Segment>, gap: string)

  function WordText(word: seq<Segment>): string {
    if word == [] then "" else Shown(word[0]) + WordText(word[1..])
  }

  function WordValue(word: seq<Segment>): string {
    if word == [] then "" else word[0].text + WordValue(word[1..])
  }

  function CommandText(items: seq<Item>): string {
    if items == [] then "" else WordText(items[0].word) + items[0].gap + CommandText(items[1..])
  }

  predicate Blank(gap: string) {
    forall i | 0 <= i < |gap| :: IsWhitespace(gap[i])
  }

  /** Words are separated; only after the last may the gap be empty. */
  predicate WellSpaced(items: seq<Item>) {
    && (forall i | 0 <= i < |items| :: Blank(items[i].gap))
    && (forall i | 0 <= i < |items| - 1 :: items[i].gap != "")
    && (forall i, k | 0 <= i < |items| && 0 <= k < |items[i].word| :: WellFormed(items[i].word[k]))
  }

  /** The words that are not empty; the tokenizer has no token for an empty one, quoted or not. */
  function Values(items: seq<Item>): seq<string> {
    if items == [] then [] else Flush([], WordValue(items[0].word)) + Values(items[1..])
  }

  lemma {:induction false} ScanBare(t: string, rest: string, cur: string, args: seq<string>)
    requires WellFormed(Bare(t))
    ensures Scan(t + rest, Normal, cur, args) == Scan(rest, Normal, cur + t, args)
    decreases |t|
  {
    if t == "" {
      assert t + rest == rest && cur + t == cur;
    } else {
      assert (t + rest)[0] == t[0] && (t + rest)[1..] == t[1..] + rest;
      assert cur + [t[0]] + t[1..] == cur + t;
      ScanBare(t[1..], rest, cur + [t[0]], args);
    }
  }

  lemma {:induction false} ScanSingle(t: string, rest: string, cur: string, args: seq<string>)
    requires '\'' !in t
    ensures Scan(t + "'" + rest, Single, cur, args) == Scan(rest, Normal, cur + t, args)
    decreases |t|
  {
    var s := t + "'" + rest;
    if t == "" {
      assert s[1..] == rest && cur + t == cur;
    } else {
      assert s[0] == t[0] && s[1..] == t[1..] + "'" + rest;
      assert cur + [t[0]] + t[1..] == cur + t;
      ScanSingle(t[1..], rest, cur + [t[0]], args);
    }
  }

  lemma {:induction false} ScanDouble(t: string, rest: string, cur: string, args: seq<string>)
    ensures Scan(Escaped(t) + "\"" + rest, Double, cur, args) == Scan(rest, Normal, cur + t, args)
    decreases |t|
  {
    var s := Escaped(t) + "\"" + rest;
    if t == "" {
      assert s[1..] == rest && cur + t == cur;
    } else {
      var more := Escaped(t[1..]) + "\"" + rest;
      assert cur + [t[0]] + t[1..] == cur + t;
      ScanDouble(t[1..], rest, cur + [t[0]], args);
      if t[0] == '"' || t[0] == '\\' {
        assert s[0] == '\\' && s[1..][0] == t[0] && s[1..][1..] == more;
      } else {
        assert s[0] == t[0] && s[1..] == more;
      }
    }
  }

  lemma ScanOpening(quote: char, s: string, cur: string, args: seq<string>)
    requires IsQuote(quote)
    ensures Scan([quote] + s, Normal, cur, args) == Scan(s, if quote == '"' then Double else Single, cur, args)
  {
    assert ([quote] + s)[1..] == s;
  }

  lemma ScanSegment(seg: Segment, rest: string, cur: string, args: seq<string>)
    requires WellFormed(seg)
    ensures Scan(Shown(seg) + rest, Normal, cur, args) == Scan(rest, Normal, cur + seg.text, args)
  {
    hide Scan, Escaped;
    match seg
    case Bare(t) => ScanBare(t, rest, cur, args);
    case SingleQuoted(t) =>
      assert Shown(seg) + rest == ['\''] + (t + "'" + rest);
      ScanOpening('\'', t + "'" + rest, cur, args);
      ScanSingle(t, rest, cur, args);
    case DoubleQuoted(t) =>
      assert Shown(seg) + rest == ['"'] + (Escaped(t) + "\"" + rest);
      ScanOpening('"', Escaped(t) + "\"" + rest, cur, args);
      ScanDouble(t, rest, cur, args);
  }

  lemma ScanEnd(cur: string, args: seq<string>)
    ensures Scan("", Normal, cur, args) == Ok(Flush(args, cur))
  {
  }

  lemma {:induction false} ScanWord(word: seq<Segment>, rest: string, cur: string, args: seq<string>)
    requires forall k | 0 <= k < |word| :: WellFormed(word[k])
    ensures Scan(WordText(word) + rest, Normal, cur, args) == Scan(rest, Normal, cur + WordValue(word), args)
    decreases |word|
  {
    hide Scan, Shown;
    if word == [] {
      assert WordText(word) + rest == rest && cur + WordValue(word) == cur;
    } else {
      var more := WordText(word[1..]) + rest;
      assert WordText(word) + rest == Shown(word[0]) + more;
      assert cur + word[0].text + WordValue(word[1..]) == cur + WordValue(word);
      ScanSegment(word[0], more, cur, args);
      ScanWord(word[1..], rest, cur + word[0].text, args);
    }
  }

  lemma {:induction false} ScanGap(gap: string, rest: string, cur: string, args: seq<string>)
    requires Blank(gap) && gap != ""
    ensures Scan(gap + rest, Normal, cur, args) == Scan(rest, Normal, "", Flush(args, cur))
    decreases |gap|
  {
    var s := gap + rest;
    assert s[0] == gap[0] && s[1..] == gap[1..] + rest;
    if |gap| == 1 {
      assert s[1..] == rest;
    } else {
      ScanGap(gap[1..], rest, "", Flush(args, cur));
    }
  }

  lemma NoValues()
    ensures Values([]) == []
  {
  }

  lemma FlushFirst(args: seq<string>, value: string, more: seq<string>)
    ensures args + (Flush([], value) + more) == Flush(args, value) + more
  {
    assert args + ([value] + more) == args + [value] + more;
  }

  lemma ValuesFirst(items: seq<Item>, args: seq<string>)
    requires items != []
    ensures args + Values(items) == Flush(args, WordValue(items[0].word)) + Values(items[1..])
    ensures |items| == 1 ==> args + Values(items) == Flush(args, WordValue(items[0].word))
  {
    hide WordValue;
    var value, more := WordValue(items[0].word), Values(items[1..]);
    assert Values(items) == Flush([], value) + more;
    hide Values;
    FlushFirst(args, value, more);
    if |items| == 1 {
      assert items[1..] == [];
      NoValues();
      assert Flush(args, value) + [] == Flush(args, value);
    }
  }

  lemma {:induction false} ScanCommand(items: seq<Item>, args: seq<string>)
    requires WellSpaced(items)
    ensures Scan(CommandText(items), Normal, "", args) == Ok(args + Values(items))
    decreases |items|
  {
    hide Scan, WordText, WordValue;
    if items == [] {
      assert args + [] == args;
      ScanEnd("", args);
    } else {
      var word, gap, more := items[0].word, items[0].gap, CommandText(items[1..]);
      var value := WordValue(word);
      assert CommandText(items) == WordText(word) + (gap + more);
      ScanWord(word, gap + more, "", args);
      assert "" + value == value;
      hide Flush, CommandText, IsWhitespace, WellFormed;
      ValuesFirst(items, args);
      if gap != "" {
        ScanGap(gap, more, value, args);
        ScanCommand(items[1..], Flush(args, value));
      } else {
        assert items[1..] == [] && more == "" && gap + more == "";
        ScanEnd(value, args);
      }
    }
  }

  /** Every list of words, each quoted in any way and separated by any white space, is read back as the
      list of its non-empty words. */
  lemma TokenizeInverts(items: seq<Item>)
    requires WellSpaced(items)
    ensures Scan(CommandText(items), Normal, "", []) == Ok(Values(items))
  {
    ScanCommand(items, []);
    assert [] + Values(items) == Values(items);
  }

  // ----- every input, errors included

  /** Where a text stops being well-formed: in a single quote without end, in a double quote without end, after a
      backslash at the very end of one, or at a backslash before another character than a quote or a backslash. */
  datatype Tail = OpenSingle(t: string) | OpenDouble(t: string) | Backslash(t: string) | BadEscape(t: string, c: char, rest: string)

  predicate GoodTail(tail: Tail) {
    match tail
    case OpenSingle(t) => '\'' !in t
    case OpenDouble(_) => true
    case Backslash(_) => true
    case BadEscape(_, c, _) => c != '"' && c != '\\'
  }

  function TailText(tail: Tail): string {
    match tail
    case OpenSingle(t) => "'" + t
    case OpenDouble(t) => "\"" + (Escaped(t) + "")
    case Backslash(t) => "\"" + (Escaped(t) + "\\")
    case BadEscape(t, c, rest) => "\"" + (Escaped(t) + ("\\" + [c] + rest))
  }

  function TailError(tail: Tail): TokenizeError {
    match tail
    case OpenSingle(_) => UnclosedQuote
    case OpenDouble(_) => UnclosedQuote
    case Backslash(_) => TrailingBackslash
    case BadEscape(_, c, _) => InvalidEscape(c)
  }

  /** A text: words and gaps, or such a beginning, the segments of a word that were read, and where it goes wrong. */
  datatype Input = Whole(items: seq<Item>) | Broken(items: seq<Item>, word: seq<Segment>, tail: Tail)

  ghost predicate GoodInput(p: Input) {
    && WellSpaced(p.items)
    && (p.Broken? ==>
          && (forall i | 0 <= i < |p.items| :: p.items[i].gap != "")
          && (forall k | 0 <= k < |p.word| :: WellFormed(p.word[k])) && GoodTail(p.tail))
  }

  function InputText(p: Input): string {
    match p
    case Whole(items) => CommandText(items)
    case Broken(items, word, tail) => CommandText(items) + (WordText(word) + TailText(tail))
  }

  /** What the tokenizer must answer. */
  function Outcome(p: Input): Tokens {
    match p
    case Whole(items) => Ok(Values(items))
    case Broken(_, _, tail) => Err(TailError(tail))
  }

  lemma {:induction false} ScanOpenSingle(t: string, cur: string, args: seq<string>)
    requires '\'' !in t
    ensures Scan(t, Single, cur, args) == Err(UnclosedQuote)
    decreases |t|
  {
    if t == "" {
    } else {
      ScanOpenSingle(t[1..], cur + [t[0]], args);
    }
  }

  lemma {:induction false} ScanEscaped(t: string, rest: string, cur: string, args: seq<string>)
    ensures Scan(Escaped(t) + rest, Double, cur, args) == Scan(rest, Double, cur + t, args)
    decreases |t|
  {
    var s := Escaped(t) + rest;
    if t == "" {
      assert s == rest && cur + t == cur;
    } else {
      var more := Escaped(t[1..]) + rest;
      assert cur + [t[0]] + t[1..] == cur + t;
      ScanEscaped(t[1..], rest, cur + [t[0]], args);
      if t[0] == '"' || t[0] == '\\' {
        assert s[0] == '\\' && s[1..][0] == t[0] && s[1..][1..] == more;
      } else {
        assert s[0] == t[0] && s[1..] == more;
      }
    }
  }

  lemma ScanBackslash(cur: string, args: seq<string>, c: char, rest: string)
    ensures Scan("", Double, cur, args) == Err(UnclosedQuote) && Scan("\\", Double, cur, args) == Err(TrailingBackslash)
    ensures c != '"' && c != '\\' ==> Scan("\\" + [c] + rest, Double, cur, args) == Err(InvalidEscape(c))
  {
    assert "\\"[1..] == "";
    var s := "\\" + [c] + rest;
    assert s[0] == '\\' && s[1..][0] == c;
  }

  lemma ScanTail(tail: Tail, cur: string, args: seq<string>)
    requires GoodTail(tail)
    ensures Scan(TailText(tail), Normal, cur, args) == Err(TailError(tail))
  {
    hide Scan, Escaped;
    match tail
    case OpenSingle(t) =>
      ScanOpening('\'', t, cur, args);
      ScanOpenSingle(t, cur, args);
    case OpenDouble(t) =>
      ScanOpening('"', Escaped(t) + "", cur, args);
      ScanEscaped(t, "", cur, args);
      ScanBackslash(cur + t, args, ' ', "");
    case Backslash(t) =>
      ScanOpening('"', Escaped(t) + "\\", cur, args);
      ScanEscaped(t, "\\", cur, args);
      ScanBackslash(cur + t, args, ' ', "");
    case BadEscape(t, c, rest) =>
      ScanOpening('"', Escaped(t) + ("\\" + [c] + rest), cur, args);
      ScanEscaped(t, "\\" + [c] + rest, cur, args);
      ScanBackslash(cur + t, args, c, rest);
  }

  /** Words with gaps behind them are read off, whatever follows. */
  lemma {:induction false} ScanItems(items: seq<Item>, rest: string, args: seq<string>)
    requires WellSpaced(items) && forall i | 0 <= i < |items| :: items[i].gap != ""
    ensures Scan(CommandText(items) + rest, Normal, "", args) == Scan(rest, Normal, "", args + Values(items))
    decreases |items|
  {
    hide Scan, WordText, WordValue;
    if items == [] {
      assert CommandText(items) + rest == rest && args + [] == args;
    } else {
      var word, gap, more := items[0].word, items[0].gap, CommandText(items[1..]) + rest;
      var value := WordValue(word);
      assert CommandText(items) + rest == WordText(word) + (gap + more);
      ScanWord(word, gap + more, "", args);
      assert "" + value == value;
      ScanGap(gap, more, value, args);
      ScanItems(items[1..], rest, Flush(args, value));
      ValuesFirst(items, args);
    }
  }

  /** The tokenizer reads off every text of this form what it must. */
  lemma OutcomeRead(p: Input)
    requires GoodInput(p)
    ensures Scan(InputText(p), Normal, "", []) == Outcome(p)
  {
    hide Scan, WordText, TailText, Values, CommandText;
    match p
    case Whole(items) => TokenizeInverts(items);
    case Broken(items, word, tail) =>
      ScanItems(items, WordText(word) + TailText(tail), []);
      ScanWord(word, TailText(tail), "", [] + Values(items));
      ScanTail(tail, "" + WordValue(word), [] + Values(items));
  }

  lemma {:induction false} SplitSingle(s: string) returns (n: nat)
    ensures n <= |s| && '\'' !in s[..n] && (n < |s| ==> s[n] == '\'')
  {
    if s == "" || s[0] == '\'' {
      n := 0;
    } else {
      var m := SplitSingle(s[1..]);
      n := 1 + m;
      assert s[..n] == [s[0]] + s[1..][..m];
    }
  }

  /** What follows an opening double quote: text up to the closing one, or where it goes wrong. */
  datatype Quoted = Closed(t: string, rest: string) | Unclosed(tail: Tail)

  ghost predicate IsQuoted(q: Quoted, s: string) {
    match q
    case Closed(t, rest) => s == Escaped(t) + "\"" + rest
    case Unclosed(tail) => !tail.OpenSingle? && GoodTail(tail) && TailText(tail) == "\"" + s
  }

  function Before(c: char, q: Quoted): Quoted
    requires q.Unclosed? ==> !q.tail.OpenSingle?
  {
    match q
    case Closed(t, rest) => Closed([c] + t, rest)
    case Unclosed(OpenDouble(t)) => Unclosed(OpenDouble([c] + t))
    case Unclosed(Backslash(t)) => Unclosed(Backslash([c] + t))
    case Unclosed(BadEscape(t, d, rest)) => Unclosed(BadEscape([c] + t, d, rest))
  }

  lemma EscapedHead(t: string)
    requires t != ""
    ensures Escaped(t) == Escape(t[0]) + Escaped(t[1..])
  {
    hide Escape;
  }

  lemma Regroup(a: string, b: string, c: string)
    ensures a + b + c == a + (b + c)
  {
  }

  lemma EscapedFirst(c: char, t: string, rest: string)
    ensures Escaped([c] + t) + rest == Escape(c) + (Escaped(t) + rest)
  {
    hide Escaped, Escape;
    var all := [c] + t;
    EscapedHead(all);
    assert all[0] == c && all[1..] == t;
    Regroup(Escape(c), Escaped(t), rest);
  }

  lemma SameBehind(a: string, x: string, y: string)
    requires a + x == a + y
    ensures x == y
  {
    assert x == (a + x)[|a|..] && y == (a + y)[|a|..];
  }

  lemma BeforeQuoted(c: char, q: Quoted, s: string)
    requires IsQuoted(q, s)
    ensures IsQuoted(Before(c, q), Escape(c) + s)
  {
    hide Escaped, Escape;
    match q
    case Closed(t, rest) =>
      EscapedFirst(c, t, "\"" + rest);
      assert Escaped([c] + t) + "\"" + rest == Escaped([c] + t) + ("\"" + rest);
      assert Escaped(t) + "\"" + rest == Escaped(t) + ("\"" + rest);
    case Unclosed(OpenDouble(t)) =>
      EscapedFirst(c, t, "");
      SameBehind("\"", s, Escaped(t) + "");
    case Unclosed(Backslash(t)) =>
      EscapedFirst(c, t, "\\");
      SameBehind("\"", s, Escaped(t) + "\\");
    case Unclosed(BadEscape(t, d, rest)) =>
      EscapedFirst(c, t, "\\" + [d] + rest);
      SameBehind("\"", s, Escaped(t) + ("\\" + [d] + rest));
  }

  lemma NotSingle(q: Quoted, s: string)
    requires IsQuoted(q, s)
    ensures q.Unclosed? ==> !q.tail.OpenSingle?
  {
  }

  lemma QuotedEnds(rest: string, c: char)
    ensures IsQuoted(Unclosed(OpenDouble("")), "") && IsQuoted(Closed("", rest), "\"" + rest)
    ensures IsQuoted(Unclosed(Backslash("")), "\\")
    ensures c != '"' && c != '\\' ==> IsQuoted(Unclosed(BadEscape("", c, rest)), "\\" + [c] + rest)
  {
    assert "" + "\"" + rest == "\"" + rest;
    assert "" + ("\\" + [c] + rest) == "\\" + [c] + rest && "" + "\\" == "\\";
  }

  lemma {:induction false} SplitDouble(s: string) returns (q: Quoted)
    ensures IsQuoted(q, s)
    decreases |s|
  {
    hide IsQuoted;
    if s == "" {
      q := Unclosed(OpenDouble(""));
      QuotedEnds("", ' ');
    } else if s[0] == '"' {
      q := Closed("", s[1..]);
      QuotedEnds(s[1..], ' ');
      assert s == "\"" + s[1..];
    } else if s[0] != '\\' {
      var more := SplitDouble(s[1..]);
      NotSingle(more, s[1..]);
      q := Before(s[0], more);
      BeforeQuoted(s[0], more, s[1..]);
      assert s == [s[0]] + s[1..];
    } else if |s| == 1 {
      q := Unclosed(Backslash(""));
      QuotedEnds("", ' ');
      assert s == "\\";
    } else if s[1] == '"' || s[1] == '\\' {
      var more := SplitDouble(s[2..]);
      NotSingle(more, s[2..]);
      q := Before(s[1], more);
      BeforeQuoted(s[1], more, s[2..]);
      assert s == ['\\', s[1]] + s[2..];
    } else {
      q := Unclosed(BadEscape("", s[1], s[2..]));
      QuotedEnds(s[2..], s[1]);
      assert s == "\\" + [s[1]] + s[2..];
    }
  }

  /** The same text with a segment, or white space, in front. */
  function WithSegment(seg: Segment, p: Input): Input {
    if p.items == [] then (if p.Whole? then Whole([Item([seg], "")]) else p.(word := [seg] + p.word))
    else p.(items := [Item([seg] + p.items[0].word, p.items[0].gap)] + p.items[1..])
  }

  function WithSpace(c: char, p: Input): Input {
    p.(items := [Item([], [c])] + p.items)
  }

  lemma SegmentGood(seg: Segment, p: Input)
    requires GoodInput(p) && WellFormed(seg)
    ensures GoodInput(WithSegment(seg, p))
  {
    hide WellFormed, GoodTail;
    var q := WithSegment(seg, p);
    if p.items != [] {
      var first := q.items[0];
      assert Blank(p.items[0].gap) && first.word == [seg] + p.items[0].word;
      assert forall k | 0 <= k < |p.items[0].word| :: WellFormed(p.items[0].word[k]);
      assert forall i | 0 < i < |p.items| :: q.items[i] == p.items[i];
    }
  }

  lemma WordOne(seg: Segment)
    ensures WordText([seg]) == Shown(seg)
  {
    assert [seg][1..] == [] && Shown(seg) + "" == Shown(seg);
  }

  lemma WordMore(seg: Segment, word: seq<Segment>)
    ensures WordText([seg] + word) == Shown(seg) + WordText(word)
  {
    assert ([seg] + word)[1..] == word;
  }

  lemma SegmentText(seg: Segment, p: Input)
    ensures InputText(WithSegment(seg, p)) == Shown(seg) + InputText(p)
  {
    hide TailText, Shown, WordText;
    var q := WithSegment(seg, p);
    if p.items == [] && p.Whole? {
      assert [Item([seg], "")][1..] == [];
      WordOne(seg);
      assert Shown(seg) + "" + "" == Shown(seg) + "";
    } else if p.items == [] {
      var a, b, c := Shown(seg), WordText(p.word), TailText(p.tail);
      WordMore(seg, p.word);
      assert "" + (a + b + c) == a + ("" + (b + c));
    } else {
      var a, first, more := Shown(seg), p.items[0], CommandText(p.items[1..]);
      WordMore(seg, first.word);
      assert q.items[1..] == p.items[1..];
      assert a + WordText(first.word) + first.gap + more == a + (WordText(first.word) + first.gap + more);
      var text := CommandText(p.items);
      assert CommandText(q.items) == a + text;
      if p.Broken? {
        var rest := WordText(p.word) + TailText(p.tail);
        assert a + text + rest == a + (text + rest);
      }
    }
  }

  lemma SegmentInFront(seg: Segment, p: Input)
    requires GoodInput(p) && WellFormed(seg)
    ensures GoodInput(WithSegment(seg, p)) && InputText(WithSegment(seg, p)) == Shown(seg) + InputText(p)
  {
    hide GoodInput, InputText, WithSegment, Shown;
    SegmentGood(seg, p);
    SegmentText(seg, p);
  }

  lemma WordNone()
    ensures WordText([]) == ""
  {
  }

  lemma SpaceInFront(c: char, p: Input)
    requires GoodInput(p) && IsWhitespace(c)
    ensures GoodInput(WithSpace(c, p)) && InputText(WithSpace(c, p)) == [c] + InputText(p)
  {
    hide TailText, WellFormed, GoodTail, WordText;
    var q := WithSpace(c, p);
    assert q.items[1..] == p.items;
    WordNone();
    assert CommandText(q.items) == [c] + CommandText(p.items) by {
      assert "" + [c] + CommandText(p.items) == [c] + CommandText(p.items);
    }
    if p.Broken? {
      var rest := WordText(p.word) + TailText(p.tail);
      assert [c] + CommandText(p.items) + rest == [c] + (CommandText(p.items) + rest);
    }
  }

  lemma NothingBefore(tail: Tail)
    requires GoodTail(tail)
    ensures GoodInput(Broken([], [], tail)) && InputText(Broken([], [], tail)) == TailText(tail)
  {
    assert "" + ("" + TailText(tail)) == TailText(tail);
  }

  lemma NothingAtAll()
    ensures GoodInput(Whole([])) && InputText(Whole([])) == ""
  {
  }

  lemma SingleParts(s: string, n: nat)
    requires s != "" && s[0] == '\'' && n <= |s| - 1 && (n < |s| - 1 ==> s[1..][n] == '\'')
    ensures var t := s[1..][..n];
            if n == |s| - 1 then TailText(OpenSingle(t)) == s else Shown(SingleQuoted(t)) + s[n + 2..] == s
  {
    var t := s[1..][..n];
    assert s == "'" + s[1..];
    if n < |s| - 1 {
      assert s[n + 1] == '\'';
      assert "'" + t + "'" + s[n + 2..] == s;
    } else {
      assert t == s[1..];
    }
  }

  lemma {:induction false} SingleInFront(s: string) returns (p: Input)
    requires s != "" && s[0] == '\''
    ensures GoodInput(p) && InputText(p) == s
    decreases |s|, 0
  {
    hide GoodInput, InputText, WithSegment, Shown, TailText;
    var n := SplitSingle(s[1..]);
    SingleParts(s, n);
    var t := s[1..][..n];
    if n == |s| - 1 {
      p := Broken([], [], OpenSingle(t));
      NothingBefore(OpenSingle(t));
    } else {
      var rest := s[n + 2..];
      var more := EveryInput(rest);
      p := WithSegment(SingleQuoted(t), more);
      SegmentInFront(SingleQuoted(t), more);
    }
  }

  /** Every text is of this form, so the outcome is known for every input. */
  lemma {:induction false} EveryInput(s: string) returns (p: Input)
    ensures GoodInput(p) && InputText(p) == s
    decreases |s|, 1
  {
    hide GoodInput, InputText, Escaped, IsQuoted, WithSegment, WithSpace;
    if s == "" {
      p := Whole([]);
      NothingAtAll();
    } else if IsWhitespace(s[0]) {
      var more := EveryInput(s[1..]);
      p := WithSpace(s[0], more);
      SpaceInFront(s[0], more);
      assert s == [s[0]] + s[1..];
    } else if s[0] == '\'' {
      p := SingleInFront(s);
    } else if s[0] == '"' {
      var q := SplitDouble(s[1..]);
      p := DoubleInFront(s, q);
    } else {
      var more := EveryInput(s[1..]);
      p := WithSegment(Bare([s[0]]), more);
      SegmentInFront(Bare([s[0]]), more);
      assert s == [s[0]] + s[1..];
    }
  }

  lemma {:induction false} DoubleInFront(s: string, q: Quoted) returns (p: Input)
    requires s != "" && s[0] == '"' && IsQuoted(q, s[1..])
    ensures GoodInput(p) && InputText(p) == s
    decreases |s|, 0
  {
    hide GoodInput, InputText, Escaped, WithSegment;
    assert s == "\"" + s[1..];
    match q
    case Unclosed(tail) =>
      p := Broken([], [], tail);
      NothingBefore(tail);
    case Closed(t, rest) =>
      assert |rest| < |s|;
      var more := EveryInput(rest);
      p := WithSegment(DoubleQuoted(t), more);
      SegmentInFront(DoubleQuoted(t), more);
      assert "\"" + (Escaped(t) + "\"" + rest) == "\"" + Escaped(t) + "\"" + rest;
  }

  // ----- when joining words with spaces is safe

  /** A word that needs no quoting. */
  predicate Plain(word: string) {
    word != "" && WellFormed(Bare(word))
  }

  function PlainItems(words: seq<string>): (items: seq<Item>)
    ensures |items| == |words|
    ensures forall i | 0 <= i < |words| :: items[i] == Item([Bare(words[i])], if i == |words| - 1 then "" else " ")
  {
    seq(|words|, i requires 0 <= i < |words| => Item([Bare(words[i])], if i == |words| - 1 then "" else " "))
  }

  lemma OneSegment(word: string)
    ensures WordText([Bare(word)]) == word && WordValue([Bare(word)]) == word
  {
    assert [Bare(word)][1..] == [];
    assert word + "" == word;
  }

  lemma {:induction false} PlainText(words: seq<string>)
    requires forall i | 0 <= i < |words| :: Plain(words[i])
    ensures CommandText(PlainItems(words)) == Join(words, " ") && Values(PlainItems(words)) == words
  {
    if words == [] {
    } else {
      PlainText(words[1..]);
      var items, word := PlainItems(words), words[0];
      assert items[1..] == PlainItems(words[1..]);
      assert Plain(word);
      OneSegment(word);
      assert Values(items) == [word] + words[1..];
      if |words| == 1 {
        assert CommandText(items) == word + "" + "";
      } else {
        assert CommandText(items) == word + " " + Join(words[1..], " ");
      }
    }
  }

  ghost predicate HasQuote(s: string) {
    exists i | 0 <= i < |s| :: IsQuote(s[i])
  }

  /** Room taken by tokens, each with one separator. */
  function Room(tokens: seq<string>): nat {
    if tokens == [] then 0 else |tokens[0]| + 1 + Room(tokens[1..])
  }

  lemma {:induction false} FlushRoom(args: seq<string>, cur: string)
    ensures Room(Flush(args, cur)) == if cur == "" then Room(args) else Room(args) + |cur| + 1
  {
    if cur == "" {
    } else {
      if args == [] {
        assert [cur][1..] == [];
      } else {
        assert (args + [cur])[1..] == args[1..] + [cur];
        FlushRoom(args[1..], cur);
      }
    }
  }

  /** Every quote is lost: tokens read from a text with quotes take less room than the text. */
  lemma {:induction false} ScanRoom(s: string, mode: Mode, cur: string, args: seq<string>)
    ensures var r := Scan(s, mode, cur, args);
            r.Ok? ==> Room(r.args) <= Room(args) + |cur| + |s|
                                      + (if !mode.Normal? then 0 else if HasQuote(s) then -1 else 1)
    decreases |s|
  {
    FlushRoom(args, cur);
    if s == "" {
    } else {
      var r, rest := s[0], s[1..];
      assert forall i | 0 <= i < |rest| :: rest[i] == s[i + 1];
      match mode
      case Normal =>
        if IsWhitespace(r) {
          ScanRoom(rest, Normal, "", Flush(args, cur));
        } else if r == '\'' {
          ScanRoom(rest, Single, cur, args);
        } else if r == '"' {
          ScanRoom(rest, Double, cur, args);
        } else {
          ScanRoom(rest, Normal, cur + [r], args);
        }
      case Single =>
        if r == '\'' {
          ScanRoom(rest, Normal, cur, args);
        } else {
          ScanRoom(rest, Single, cur + [r], args);
        }
      case Double =>
        if r == '"' {
          ScanRoom(rest, Normal, cur, args);
        } else if r == '\\' {
          if rest != "" && (rest[0] == '"' || rest[0] == '\\') {
            ScanRoom(rest[1..], Double, cur + [rest[0]], args);
          }
        } else {
          ScanRoom(rest, Double, cur + [r], args);
        }
    }
  }

  /** Without quotes, tokens are never empty and hold no white space. */
  lemma {:induction false} ScanPlain(s: string, cur: string, args: seq<string>)
    requires forall i | 0 <= i < |s| :: !IsQuote(s[i])
    requires WellFormed(Bare(cur)) && forall i | 0 <= i < |args| :: Plain(args[i])
    ensures var r := Scan(s, Normal, cur, args); r.Ok? && forall i | 0 <= i < |r.args| :: Plain(r.args[i])
    decreases |s|
  {
    if s == "" {
    } else {
      if IsWhitespace(s[0]) {
        ScanPlain(s[1..], "", Flush(args, cur));
      } else {
        ScanPlain(s[1..], cur + [s[0]], args);
      }
    }
  }

  lemma {:induction false} JoinRoom(words: seq<string>)
    requires words != []
    ensures |Join(words, " ")| + 1 == Room(words)
  {
    if |words| > 1 {
      JoinRoom(words[1..]);
    }
  }

  lemma {:induction false} JoinQuote(words: seq<string>, k: nat)
    requires k < |words| && HasQuote(words[k])
    ensures HasQuote(Join(words, " "))
  {
    var text := Join(words, " ");
    if k == 0 {
      var i :| 0 <= i < |words[0]| && IsQuote(words[0][i]);
      assert text[i] == words[0][i];
    } else {
      JoinQuote(words[1..], k - 1);
      var rest := Join(words[1..], " ");
      var i :| 0 <= i < |rest| && IsQuote(rest[i]);
      assert text[|words[0]| + 1 + i] == rest[i];
    }
  }

  lemma {:induction false} JoinNoQuote(words: seq<string>)
    requires forall k | 0 <= k < |words| :: !HasQuote(words[k])
    ensures !HasQuote(Join(words, " "))
  {
    if words == [] {
    } else {
      var text, rest := Join(words, " "), Join(words[1..], " ");
      JoinNoQuote(words[1..]);
      assert !HasQuote(words[0]);
      forall i | 0 <= i < |text|
        ensures !IsQuote(text[i])
      {
        if i < |words[0]| {
          assert text[i] == words[0][i];
        } else if i > |words[0]| {
          assert text[i] == rest[i - |words[0]| - 1];
        }
      }
    }
  }

  lemma PlainSpaced(words: seq<string>)
    requires forall i | 0 <= i < |words| :: Plain(words[i])
    ensures WellSpaced(PlainItems(words))
  {
    var items := PlainItems(words);
    forall i, k | 0 <= i < |words| && 0 <= k < |items[i].word|
      ensures WellFormed(items[i].word[k])
    {
      assert Plain(words[i]);
    }
  }

  lemma JoinSafe(words: seq<string>)
    requires forall i | 0 <= i < |words| :: Plain(words[i])
    ensures Scan(Join(words, " "), Normal, "", []) == Ok(words)
  {
    hide Scan, Join;
    hide PlainItems, CommandText, Values, WellSpaced, Plain;
    PlainText(words);
    PlainSpaced(words);
    TokenizeInverts(PlainItems(words));
  }

  lemma QuoteLost(words: seq<string>, k: nat)
    requires k < |words| && HasQuote(words[k])
    ensures Scan(Join(words, " "), Normal, "", []) != Ok(words)
  {
    hide Scan, Join, HasQuote;
    JoinQuote(words, k);
    ScanRoom(Join(words, " "), Normal, "", []);
    JoinRoom(words);
  }

  /** Words joined with single spaces are read back as they were exactly when every word is non-empty and
      free of white space and quotes. */
  lemma JoinSafeExactly(words: seq<string>)
    ensures Scan(Join(words, " "), Normal, "", []) == Ok(words) <==> forall i | 0 <= i < |words| :: Plain(words[i])
  {
    hide Scan, Join;
    var text := Join(words, " ");
    if forall i | 0 <= i < |words| :: Plain(words[i]) {
      JoinSafe(words);
    } else if k :| 0 <= k < |words| && HasQuote(words[k]) {
      QuoteLost(words, k);
    } else {
      JoinNoQuote(words);
      ScanPlain(text, "", []);
    }
  }

  /** The manifest's wrapper: a command without tokens is split at white space as it stands. */
  function TokenizeCommand(cmd: string): Tokens {
    match Scan(cmd, Normal, "", [])
    case Err(e) => Err(e)
    case Ok(parts) => if parts == [] then Ok(SplitWhitespace(cmd, "")) else Ok(parts)
  }

  /** A text of white space and empty quotes only. */
  predicate Hollow(s: string)
    decreases |s|
  {
    || s == ""
    || (IsWhitespace(s[0]) && Hollow(s[1..]))
    || (IsQuote(s[0]) && |s| >= 2 && s[1] == s[0] && Hollow(s[2..]))
  }

  /** A token once begun is never lost. */
  lemma {:induction false} ScanKeeps(s: string, mode: Mode, cur: string, args: seq<string>)
    requires cur != "" || args != []
    ensures var r := Scan(s, mode, cur, args); r.Ok? ==> r.args != []
    decreases |s|
  {
    if s == "" {
    } else {
      var rest := s[1..];
      ScanKeeps(rest, Normal, "", Flush(args, cur));
      ScanKeeps(rest, Normal, cur, args);
      ScanKeeps(rest, Single, cur, args);
      ScanKeeps(rest, Double, cur, args);
      ScanKeeps(rest, mode, cur + [s[0]], args);
      if rest != "" {
        ScanKeeps(rest[1..], Double, cur + [rest[0]], args);
      }
    }
  }

  /** There is no token exactly in a hollow text. */
  lemma {:induction false} NoTokens(s: string)
    ensures Scan(s, Normal, "", []) == Ok([]) <==> Hollow(s)
    decreases |s|
  {
    if s == "" {
    } else {
      var rest := s[1..];
      if IsWhitespace(s[0]) {
        NoTokens(rest);
      } else if IsQuote(s[0]) {
        if rest != "" {
          if rest[0] == s[0] {
            assert rest[1..] == s[2..];
            NoTokens(rest[1..]);
          } else {
            ScanKeeps(rest[1..], if s[0] == '"' then Double else Single, "" + [rest[0]], []);
            if |rest| >= 2 {
              ScanKeeps(rest[1..][1..], Double, "" + [rest[1..][0]], []);
            }
          }
        }
      } else {
        ScanKeeps(rest, Normal, "" + [s[0]], []);
      }
    }
  }

  lemma {:induction false} SplitThrough(word: string, rest: string, cur: string)
    requires forall i | 0 <= i < |word| :: !IsWhitespace(word[i])
    ensures SplitWhitespace(word + rest, cur) == SplitWhitespace(rest, cur + word)
    decreases |word|
  {
    if word == "" {
      assert word + rest == rest && cur + word == cur;
    } else {
      assert (word + rest)[1..] == word[1..] + rest && cur + [word[0]] + word[1..] == cur + word;
      SplitThrough(word[1..], rest, cur + [word[0]]);
    }
  }

  lemma {:induction false} SplitJoined(words: seq<string>)
    requires forall k | 0 <= k < |words| :: Unbroken(words[k])
    ensures SplitWhitespace(Join(words, " "), "") == words
  {
    if words == [] {
    } else {
      var word := words[0];
      assert Unbroken(word);
      if |words| == 1 {
        assert word + "" == word && "" + word == word;
        SplitThrough(word, "", "");
      } else {
        var rest := Join(words[1..], " ");
        SplitJoined(words[1..]);
        assert Join(words, " ") == word + (" " + rest) && "" + word == word;
        SplitThrough(word, " " + rest, "");
        assert (" " + rest)[1..] == rest && IsWhitespace(' ');
        assert [word] + words[1..] == words;
      }
    }
  }

  /** The command text that export writes is read back as the same words exactly when none needs quoting,
      or when the words are nothing but empty quotes and so are taken as they stand. */
  lemma CommandSafeExactly(words: seq<string>)
    ensures TokenizeCommand(Join(words, " ")) == Ok(words)
       <==> (forall i | 0 <= i < |words| :: Plain(words[i]))
            || (Hollow(Join(words, " ")) && forall i | 0 <= i < |words| :: Unbroken(words[i]))
  {
    hide Scan, Hollow, SplitWhitespace, Join;
    var text := Join(words, " ");
    JoinSafeExactly(words);
    NoTokens(text);
    if forall i | 0 <= i < |words| :: Unbroken(words[i]) {
      SplitJoined(words);
    } else {
      SplitUnbroken(text, "");
    }
  }
}
