/** Strings as the source uses them: splitting, trimming and joining. */
module Text {

  datatype Option<+T> = None | Some(value: T)

  /** Characters with the Unicode White_Space property. */
  predicate IsWhitespace(c: char) {
    var n := c as int;
    || 0x09 <= n <= 0x0D || n == 0x20 || n == 0x85 || n == 0xA0 || n == 0x1680
    || 0x2000 <= n <= 0x200A || n == 0x2028 || n == 0x2029 || n == 0x202F || n == 0x205F || n == 0x3000
  }

  function TrimStart(s: string): (r: string) {
    if s != "" && IsWhitespace(s[0]) then TrimStart(s[1..]) else s
  }

  /** Trimming takes off leading white space and nothing else; a text that begins with none is left as it is. */
  lemma {:induction false} TrimStartExactly(s: string) returns (k: nat)
    ensures k <= |s| && TrimStart(s) == s[k..] && forall i | 0 <= i < k :: IsWhitespace(s[i])
    ensures TrimStart(s) == s <==> s == "" || !IsWhitespace(s[0])
  {
    if s == "" || !IsWhitespace(s[0]) {
      k := 0;
    } else {
      var rest := TrimStartExactly(s[1..]);
      k := 1 + rest;
      assert |TrimStart(s)| < |s|;
    }
  }

  /** Pieces of `s` between occurrences of `sep`; always at least one piece. */
  function Split(s: string, sep: char): (pieces: seq<string>)
    ensures |pieces| >= 1
  {
    if s == "" then [""]
    else
      var rest := Split(s[1..], sep);
      if s[0] == sep then [""] + rest else [[s[0]] + rest[0]] + rest[1..]
  }

  /** The text before and after the first `sep`, if there is one. */
  function SplitOnce(s: string, sep: char): Option<(string, string)> {
    if s == "" then None
    else if s[0] == sep then Some(("", s[1..]))
    else match SplitOnce(s[1..], sep)
      case None => None
      case Some((a, b)) => Some(([s[0]] + a, b))
  }

  function Pending(cur: string): seq<string> {
    if cur == "" then [] else [cur]
  }

  /** The words of `s` between white space, where `cur` has been read of the first. */
  function SplitWhitespace(s: string, cur: string): (words: seq<string>)
    decreases |s|
  {
    if s == "" then Pending(cur)
    else if IsWhitespace(s[0]) then Pending(cur) + SplitWhitespace(s[1..], "")
    else SplitWhitespace(s[1..], cur + [s[0]])
  }

  predicate Unbroken(word: string) {
    word != "" && forall i | 0 <= i < |word| :: !IsWhitespace(word[i])
  }

  lemma {:induction false} SplitUnbroken(s: string, cur: string)
    requires forall i | 0 <= i < |cur| :: !IsWhitespace(cur[i])
    ensures forall k | 0 <= k < |SplitWhitespace(s, cur)| :: Unbroken(SplitWhitespace(s, cur)[k])
    decreases |s|
  {
    if s == "" {
    } else {
      if IsWhitespace(s[0]) {
        SplitUnbroken(s[1..], "");
      } else {
        SplitUnbroken(s[1..], cur + [s[0]]);
      }
    }
  }

  /** `lines` joined by `sep`. */
  function Join(lines: seq<string>, sep: string): (r: string) {
    if |lines| == 0 then ""
    else if |lines| == 1 then lines[0]
    else lines[0] + sep + Join(lines[1..], sep)
  }

  /** Every line followed by a newline: the text of a file made of whole lines. */
  function Terminated(lines: seq<string>): (r: string) {
    if lines == [] then "" else lines[0] + "\n" + Terminated(lines[1..])
  }

  /** Splitting at a separator that does not occur in the first piece. */
  lemma {:induction false} SplitFirst(head: string, sep: char, rest: string)
    requires sep !in head
    ensures Split(head + [sep] + rest, sep) == [head] + Split(rest, sep)
  {
    var s := head + [sep] + rest;
    if head == "" {
      assert s[1..] == rest;
    } else {
      SplitFirst(head[1..], sep, rest);
      assert s[1..] == head[1..] + [sep] + rest;
      assert [head[0]] + head[1..] == head;
    }
  }

  /** A string without the separator is its own only piece. */
  lemma {:induction false} SplitWhole(s: string, sep: char)
    requires sep !in s
    ensures Split(s, sep) == [s]
  {
    if s == "" {
    } else {
      SplitWhole(s[1..], sep);
      assert [s[0]] + s[1..] == s;
    }
  }

  /** Splitting the text of a file gives back its lines and one empty piece. */
  lemma {:induction false} SplitTerminated(lines: seq<string>)
    requires forall i | 0 <= i < |lines| :: '\n' !in lines[i]
    ensures Split(Terminated(lines), '\n') == lines + [""]
  {
    if lines == [] {
    } else {
      SplitTerminated(lines[1..]);
      SplitFirst(lines[0], '\n', Terminated(lines[1..]));
      assert lines[0] + "\n" + Terminated(lines[1..]) == lines[0] + ['\n'] + Terminated(lines[1..]);
      assert [lines[0]] + (lines[1..] + [""]) == lines + [""];
    }
  }

  lemma {:induction false} SplitOnceAt(a: string, sep: char, b: string)
    requires sep !in a
    ensures SplitOnce(a + [sep] + b, sep) == Some((a, b))
  {
    var s := a + [sep] + b;
    if a == "" {
      assert s[1..] == b;
    } else {
      assert s[1..] == a[1..] + [sep] + b;
      SplitOnceAt(a[1..], sep, b);
      assert [a[0]] + a[1..] == a;
    }
  }

  lemma {:induction false} SplitOnceNone(s: string, sep: char)
    requires sep !in s
    ensures SplitOnce(s, sep) == None
  {
    if s == "" {
    } else {
      SplitOnceNone(s[1..], sep);
    }
  }

  // ----- the first newline

  /** Number of bytes before the first newline; the whole length if there is none. */
  function BeforeNewline(s: string): (n: nat)
    ensures n <= |s| && (n < |s| ==> s[n] == '\n') && '\n' !in s[..n]
  {
    if s == "" || s[0] == '\n' then 0
    else
      var n := 1 + BeforeNewline(s[1..]);
      assert s[..n] == [s[0]] + s[1..][..n - 1];
      n
  }

  lemma NewlineFrom(a: string, b: string)
    requires '\n' !in a
    ensures BeforeNewline(a + b) == |a| + BeforeNewline(b)
  {
    if a == "" {
      assert a + b == b;
    } else {
      assert (a + b)[1..] == a[1..] + b;
      NewlineFrom(a[1..], b);
    }
  }

  lemma NewlineInFirst(a: string, b: string)
    requires BeforeNewline(a) < |a|
    ensures BeforeNewline(a + b) == BeforeNewline(a)
  {
    if a[0] != '\n' {
      assert (a + b)[1..] == a[1..] + b;
      NewlineInFirst(a[1..], b);
    }
  }
}
