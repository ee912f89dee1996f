/** The IPC server: a bounded line reader over a chunked stream, and the request loop built on it. */
module IpcServer {
  import opened Text

  const MAX_MSG_SIZE := 1024 * 1024
  const PROTOCOL_VERSION := 1

  /** How the stream ends once all its bytes are read. */
  datatype Ending = HungUp | Broken
  datatype ReadResult = Line(bytes: string) | End | TooLong | IoError

  /** The next message of a stream, and what remains after it. */
  function NextLine(bytes: string, ending: Ending): (ReadResult, string) {
    var n := BeforeNewline(bytes);
    var take := if n < |bytes| then n + 1 else n;
    if take > MAX_MSG_SIZE + 1 then (TooLong, bytes)
    else if n < |bytes| then (Line(bytes[..take]), bytes[take..])
    else if ending.Broken? then (IoError, "")
    else if bytes == "" then (End, "")
    else (Line(bytes), "")
  }

  function Flat(chunks: seq<string>): (bytes: string) {
    if chunks == [] then "" else chunks[0] + Flat(chunks[1..])
  }

  ghost predicate NonEmpty(chunks: seq<string>) {
    forall i | 0 <= i < |chunks| :: chunks[i] != ""
  }

  lemma SplitAt(a: string, b: string, k: nat, c: string)
    requires k <= |b|
    ensures (a + (b + c))[..|a| + k] == a + b[..k] && (a + (b + c))[|a| + k..] == b[k..] + c
  {
  }

  lemma NextLineAt(bytes: string, take: nat, ending: Ending)
    requires take == BeforeNewline(bytes) + 1 <= |bytes|
    ensures var (r, rest) := NextLine(bytes, ending);
            if take > MAX_MSG_SIZE + 1 then r == TooLong else r == Line(bytes[..take]) && rest == bytes[take..]
  {
  }

  /** The next message is complete once a chunk with a newline arrives. */
  lemma LineCompletes(buf: string, chunk: string, later: string, ending: Ending)
    requires '\n' !in buf && BeforeNewline(chunk) < |chunk|
    ensures var take := BeforeNewline(chunk) + 1;
            var (r, rest) := NextLine(buf + (chunk + later), ending);
            if |buf| + take > MAX_MSG_SIZE + 1 then r == TooLong
            else r == Line(buf + chunk[..take]) && rest == chunk[take..] + later
  {
    hide BeforeNewline, NextLine;
    var all, take := buf + (chunk + later), BeforeNewline(chunk) + 1;
    NewlineFrom(buf, chunk + later);
    NewlineInFirst(chunk, later);
    SplitAt(buf, chunk, take, later);
    NextLineAt(all, |buf| + take, ending);
  }

  /** Too many bytes without a newline are too long, whatever comes later. */
  lemma LineTooLong(buf: string, chunk: string, later: string, ending: Ending)
    requires '\n' !in buf && '\n' !in chunk && |buf| + |chunk| > MAX_MSG_SIZE + 1
    ensures NextLine(buf + (chunk + later), ending).0 == TooLong
  {
    hide BeforeNewline;
    NewlineFrom(buf, chunk + later);
    NewlineFrom(chunk, later);
  }

  lemma LineEnds(buf: string, ending: Ending)
    requires '\n' !in buf && |buf| <= MAX_MSG_SIZE + 1
    ensures NextLine(buf, ending).0 == if ending.Broken? then IoError else if buf == "" then End else Line(buf)
    ensures NextLine(buf, ending).0.Line? ==> NextLine(buf, ending).1 == ""
  {
    NewlineFrom(buf, "");
    assert buf + "" == buf;
  }

  class BoundedLineReader {
    /** The chunks the stream will still deliver; the first is what the buffered reader holds. */
    var chunks: seq<string>
    const ending: Ending

    constructor (chunks: seq<string>, ending: Ending)
      ensures this.chunks == chunks && this.ending == ending
    {
      this.chunks, this.ending := chunks, ending;
    }

    /** However the stream is cut into chunks, the result is the next message of its bytes. */
    method ReadLine() returns (r: ReadResult)
      requires NonEmpty(chunks)
      modifies this
      ensures NonEmpty(chunks)
      ensures r == NextLine(old(Flat(chunks)), ending).0
      ensures r.Line? ==> Flat(chunks) == NextLine(old(Flat(chunks)), ending).1
    {
      hide NextLine, BeforeNewline;
      ghost var all := Flat(chunks);
      var buf := "";
      assert buf + all == all;
      while true
        invariant NonEmpty(chunks) && all == buf + Flat(chunks)
        invariant '\n' !in buf && |buf| <= MAX_MSG_SIZE + 1
        decreases |chunks|
      {
        if chunks == [] {
          assert all == buf;
          LineEnds(buf, ending);
          if ending.Broken? {
            return IoError;
          }
          return if buf == "" then End else Line(buf);
        }
        var available := chunks[0];
        ghost var later := Flat(chunks[1..]);
        var idx := BeforeNewline(available);
        if idx < |available| {
          LineCompletes(buf, available, later, ending);
          var take := idx + 1;
          if |buf| + take > MAX_MSG_SIZE + 1 {
            return TooLong;
          }
          buf := buf + available[..take];
          if take == |available| {
            chunks := chunks[1..];
            assert available[take..] + later == later;
          } else {
            chunks := [available[take..]] + chunks[1..];
          }
          return Line(buf);
        }
        assert available[..idx] == available;
        if |buf| + |available| > MAX_MSG_SIZE + 1 {
          LineTooLong(buf, available, later, ending);
          return TooLong;
        }
        assert all == buf + available + later;
        buf := buf + available;
        chunks := chunks[1..];
      }
    }
  }

  // ----- requests and replies

  datatype Request = Request(kind: string, version: int, id: string, command: string, params: Option<string>,
                             protocolVersion: int, requestId: string, spec: Option<string>)

  datatype Outcome = Returned(raw: string) | Failed(message: string) | Panicked

  /** The error codes of the protocol. */
  datatype Code = NoError | Limits | BadRequest | RateLimited | ProtocolMismatch | UnknownCommand | InternalError
  datatype Reply =
    | Response(id: string, ok: bool, result: Option<string>, code: Code)
    | StartResponse(requestId: string, ok: bool, data: Option<string>, code: Code)

  /** What the server is given: the JSON decoders, the registered commands, and for the i-th request
      the rate limiter's answer and what a handler would do. */
  datatype Env = Env(unmarshal: string -> Option<Request>, isSpec: string -> bool, isStartData: string -> bool,
                     commands: set<string>, allow: nat -> bool, handle: (nat, string, string) -> Outcome)

  function ErrorReply(id: string, code: Code): Reply {
    Response(id, false, None, code)
  }

  function Or(s: Option<string>): string {
    if s.Some? then s.value else ""
  }

  function Dispatch(env: Env, req: Request, i: nat): Reply {
    if req.version != PROTOCOL_VERSION then ErrorReply(req.id, ProtocolMismatch)
    else if req.command !in env.commands then ErrorReply(req.id, UnknownCommand)
    else match env.handle(i, req.command, Or(req.params))
      case Returned(raw) => Response(req.id, true, Some(raw), NoError)
      case Failed(_) => ErrorReply(req.id, InternalError)
      case Panicked => ErrorReply(req.id, InternalError)
  }

  function DispatchStart(env: Env, req: Request, i: nat): Reply {
    if req.protocolVersion != PROTOCOL_VERSION then StartResponse(req.requestId, false, None, ProtocolMismatch)
    else if "start" !in env.commands then StartResponse(req.requestId, false, None, UnknownCommand)
    else match env.handle(i, "start", Or(req.spec))
      case Returned(raw) =>
        if env.isSpec(Or(req.spec)) && env.isStartData(raw) then StartResponse(req.requestId, true, Some(raw), NoError)
        else StartResponse(req.requestId, false, None, InternalError)
      case Failed(_) => StartResponse(req.requestId, false, None, InternalError)
      case Panicked => StartResponse(req.requestId, false, None, InternalError)
  }

  /** The reply to the i-th request. */
  function ReplyTo(env: Env, req: Request, i: nat): Reply {
    if !env.allow(i) then ErrorReply(req.id, RateLimited)
    else if req.kind == "start" then DispatchStart(env, req, i)
    else Dispatch(env, req, i)
  }

  /** Everything the server writes on a connection that delivers `bytes`, from request `i` on. */
  function Transcript(env: Env, bytes: string, ending: Ending, i: nat): seq<Reply>
    decreases |bytes|
  {
    var (r, rest) := NextLine(bytes, ending);
    match r
    case End => []
    case IoError => []
    case TooLong => [ErrorReply("", Limits)]
    case Line(line) =>
      match env.unmarshal(line)
      case None => [ErrorReply("", BadRequest)]
      case Some(req) => [ReplyTo(env, req, i)] + Transcript(env, rest, ending, i + 1)
  }

  /** One pass of the request loop. */
  lemma TranscriptStep(env: Env, bytes: string, ending: Ending, i: nat)
    ensures var (r, rest) := NextLine(bytes, ending);
            && (r.Line? ==> |rest| < |bytes|)
            && Transcript(env, bytes, ending, i)
               == if r.End? || r.IoError? then []
                  else if r.TooLong? then [ErrorReply("", Limits)]
                  else if env.unmarshal(r.bytes).None? then [ErrorReply("", BadRequest)]
                  else [ReplyTo(env, env.unmarshal(r.bytes).value, i)] + Transcript(env, rest, ending, i + 1)
  {
    hide ReplyTo;
  }

  /** The body of the request loop, for a request that parsed. */
  method Respond(env: Env, req: Request, i: nat) returns (reply: Reply)
    ensures reply == ReplyTo(env, req, i)
  {
    if !env.allow(i) {
      return ErrorReply(req.id, RateLimited);
    }
    if req.kind == "start" {
      return DispatchStart(env, req, i);
    }
    return Dispatch(env, req, i);
  }

  /** The request loop of one connection. */
  method HandleConnection(env: Env, chunks: seq<string>, ending: Ending) returns (written: seq<Reply>)
    requires NonEmpty(chunks)
    ensures written == Transcript(env, Flat(chunks), ending, 0)
  {
    hide NextLine, ReplyTo, Flat, Transcript;
    var reader := new BoundedLineReader(chunks, ending);
    written := [];
    var i := 0;
    while true
      invariant reader.ending == ending && NonEmpty(reader.chunks) && i >= 0
      invariant written + Transcript(env, Flat(reader.chunks), ending, i) == Transcript(env, Flat(chunks), ending, 0)
      decreases |Flat(reader.chunks)|
    {
      ghost var before := Flat(reader.chunks);
      TranscriptStep(env, before, ending, i);
      var r := reader.ReadLine();
      if r.End? || r.IoError? {
        return;
      }
      if r.TooLong? {
        return written + [ErrorReply("", Limits)];
      }
      var req := env.unmarshal(r.bytes);
      if req.None? {
        return written + [ErrorReply("", BadRequest)];
      }
      var reply := Respond(env, req.value, i);
      ghost var later := Transcript(env, Flat(reader.chunks), ending, i + 1);
      assert Transcript(env, before, ending, i) == [reply] + later;
      assert written + ([reply] + later) == written + [reply] + later;
      written := written + [reply];
      i := i + 1;
    }
  }

  // ----- what a client can rely on

  /** A message a client sends: one line, within the limit. */
  predicate Message(m: string) {
    0 < |m| <= MAX_MSG_SIZE + 1 && m[|m| - 1] == '\n' && '\n' !in m[..|m| - 1]
  }

  lemma NextIsMessage(m: string, rest: string, ending: Ending)
    requires Message(m)
    ensures NextLine(m + rest, ending) == (Line(m), rest)
  {
    var body := m[..|m| - 1];
    assert m + rest == body + ("\n" + rest);
    NewlineFrom(body, "\n" + rest);
    assert (m + rest)[..|m|] == m && (m + rest)[|m|..] == rest;
  }

  function RepliesTo(env: Env, reqs: seq<Request>, i: nat): (rs: seq<Reply>)
    ensures |rs| == |reqs| && forall k | 0 <= k < |reqs| :: rs[k] == ReplyTo(env, reqs[k], i + k)
  {
    seq(|reqs|, k requires 0 <= k < |reqs| => ReplyTo(env, reqs[k], i + k))
  }

  lemma RequestAnswered(env: Env, m: string, req: Request, rest: string, ending: Ending, i: nat)
    requires Message(m) && env.unmarshal(m) == Some(req)
    ensures Transcript(env, m + rest, ending, i) == [ReplyTo(env, req, i)] + Transcript(env, rest, ending, i + 1)
  {
    hide ReplyTo, NextLine;
    NextIsMessage(m, rest, ending);
  }

  lemma FlatFirst(messages: seq<string>, rest: string)
    ensures Flat(messages) + rest == if messages == [] then rest else messages[0] + (Flat(messages[1..]) + rest)
  {
  }

  lemma RepliesFirst(env: Env, reqs: seq<Request>, i: nat)
    ensures RepliesTo(env, reqs, i)
         == if reqs == [] then [] else [ReplyTo(env, reqs[0], i)] + RepliesTo(env, reqs[1..], i + 1)
  {
    hide ReplyTo;
  }

  /** Well-formed messages are answered one by one, in order, whatever follows them. */
  lemma {:induction false} RequestsAnswered(env: Env, messages: seq<string>, reqs: seq<Request>, rest: string,
                                            ending: Ending, i: nat)
    requires |messages| == |reqs|
    requires forall k | 0 <= k < |messages| :: Message(messages[k]) && env.unmarshal(messages[k]) == Some(reqs[k])
    ensures Transcript(env, Flat(messages) + rest, ending, i)
         == RepliesTo(env, reqs, i) + Transcript(env, rest, ending, i + |messages|)
    decreases |messages|
  {
    hide ReplyTo, Transcript, Message, RepliesTo, Flat;
    FlatFirst(messages, rest);
    RepliesFirst(env, reqs, i);
    var after := Transcript(env, rest, ending, i + |messages|);
    if messages == [] {
      assert [] + after == after;
    } else {
      var first, replies := [ReplyTo(env, reqs[0], i)], RepliesTo(env, reqs[1..], i + 1);
      RequestAnswered(env, messages[0], reqs[0], Flat(messages[1..]) + rest, ending, i);
      RequestsAnswered(env, messages[1..], reqs[1..], rest, ending, i + 1);
      assert first + (replies + after) == first + replies + after;
    }
  }

  // ----- every stream

  /** How a stream ends after its good messages: with nothing that is answered, a last request without newline, more
      bytes than the limit without a newline, or a line that does not parse, whatever follows. */
  datatype Last = Quiet(bytes: string) | Final(bytes: string, req: Request) | Oversized(bytes: string)
                | Malformed(line: string, rest: string)

  /** What is read as a message although the stream ends before its newline. */
  predicate Unterminated(m: string) {
    0 < |m| <= MAX_MSG_SIZE + 1 && '\n' !in m
  }

  ghost predicate IsLast(env: Env, last: Last, ending: Ending) {
    match last
    case Quiet(bytes) => bytes == "" || (ending.Broken? && Unterminated(bytes))
    case Final(bytes, req) => ending.HungUp? && Unterminated(bytes) && env.unmarshal(bytes) == Some(req)
    case Oversized(bytes) => |bytes| > MAX_MSG_SIZE + 1 && '\n' !in bytes[..MAX_MSG_SIZE + 1]
    case Malformed(line, rest) =>
      env.unmarshal(line).None? && (Message(line) || (ending.HungUp? && rest == "" && Unterminated(line)))
  }

  function LastBytes(last: Last): string {
    match last
    case Quiet(bytes) => bytes
    case Final(bytes, _) => bytes
    case Oversized(bytes) => bytes
    case Malformed(line, rest) => line + rest
  }

  function LastReplies(env: Env, last: Last, i: nat): seq<Reply> {
    match last
    case Quiet(_) => []
    case Final(_, req) => [ReplyTo(env, req, i)]
    case Oversized(_) => [ErrorReply("", Limits)]
    case Malformed(_, _) => [ErrorReply("", BadRequest)]
  }

  lemma NextUnterminated(m: string, ending: Ending)
    requires Unterminated(m)
    ensures NextLine(m, ending) == if ending.Broken? then (IoError, "") else (Line(m), "")
  {
    LineEnds(m, ending);
    NewlineFrom(m, "");
    assert m + "" == m;
  }

  lemma NextOversized(bytes: string, ending: Ending)
    ensures NextLine(bytes, ending).0.TooLong? <==> |bytes| > MAX_MSG_SIZE + 1 && '\n' !in bytes[..MAX_MSG_SIZE + 1]
  {
    var n := BeforeNewline(bytes);
    if |bytes| > MAX_MSG_SIZE + 1 {
      if n >= MAX_MSG_SIZE + 1 {
        assert forall i | 0 <= i < MAX_MSG_SIZE + 1 :: bytes[..MAX_MSG_SIZE + 1][i] == bytes[..n][i];
      } else {
        assert bytes[..MAX_MSG_SIZE + 1][n] == '\n';
      }
    }
  }

  lemma NothingLeft(env: Env, ending: Ending, i: nat)
    ensures Transcript(env, "", ending, i) == []
  {
  }

  lemma LastAnswered(env: Env, last: Last, ending: Ending, i: nat)
    requires IsLast(env, last, ending)
    ensures Transcript(env, LastBytes(last), ending, i) == LastReplies(env, last, i)
  {
    hide NextLine, ReplyTo, Message, Unterminated, Transcript;
    TranscriptStep(env, LastBytes(last), ending, i);
    match last
    case Quiet(bytes) =>
      if bytes == "" {
        NothingLeft(env, ending, i);
      } else {
        NextUnterminated(bytes, ending);
      }
    case Final(bytes, req) =>
      NextUnterminated(bytes, ending);
      NothingLeft(env, ending, i + 1);
    case Oversized(bytes) => NextOversized(bytes, ending);
    case Malformed(line, rest) =>
      if Message(line) {
        NextIsMessage(line, rest, ending);
      } else {
        assert line + rest == line;
        NextUnterminated(line, ending);
      }
  }

  /** The good messages that a stream begins with, what they ask for, and how it ends. */
  datatype Stream = Stream(messages: seq<string>, reqs: seq<Request>, last: Last)

  ghost predicate Good(env: Env, s: Stream, ending: Ending) {
    && |s.messages| == |s.reqs| && IsLast(env, s.last, ending)
    && forall k | 0 <= k < |s.messages| :: Message(s.messages[k]) && env.unmarshal(s.messages[k]) == Some(s.reqs[k])
  }

  function StreamBytes(s: Stream): string {
    Flat(s.messages) + LastBytes(s.last)
  }

  /** What the stream ends with, if it has no good message. */
  lemma OnlyLast(env: Env, bytes: string, ending: Ending) returns (last: Option<Last>)
    ensures last.Some? ==> IsLast(env, last.value, ending) && LastBytes(last.value) == bytes
    ensures last.None? ==> BeforeNewline(bytes) < |bytes| && BeforeNewline(bytes) <= MAX_MSG_SIZE
                           && env.unmarshal(bytes[..BeforeNewline(bytes) + 1]).Some?
  {
    var n := BeforeNewline(bytes);
    if bytes == "" {
      return Some(Quiet(""));
    }
    if n == |bytes| {
      assert bytes[..n] == bytes;
      if n > MAX_MSG_SIZE + 1 {
        return Some(Oversized(bytes));
      }
      var req := env.unmarshal(bytes);
      assert bytes + "" == bytes;
      return Some(if ending.Broken? then Quiet(bytes) else if req.Some? then Final(bytes, req.value) else Malformed(bytes, ""));
    }
    if n > MAX_MSG_SIZE {
      NextOversized(bytes, ending);
      return Some(Oversized(bytes));
    }
    var line := bytes[..n + 1];
    assert line[..n] == bytes[..n] && line + bytes[n + 1..] == bytes;
    return if env.unmarshal(line).None? then Some(Malformed(line, bytes[n + 1..])) else None;
  }

  lemma FirstMessage(env: Env, bytes: string, ending: Ending) returns (m: string, req: Request, rest: string)
    requires BeforeNewline(bytes) < |bytes| && BeforeNewline(bytes) <= MAX_MSG_SIZE
    requires env.unmarshal(bytes[..BeforeNewline(bytes) + 1]).Some?
    ensures Message(m) && env.unmarshal(m) == Some(req) && bytes == m + rest && |rest| < |bytes|
  {
    var n := BeforeNewline(bytes);
    m, rest := bytes[..n + 1], bytes[n + 1..];
    req := env.unmarshal(m).value;
    assert m[..n] == bytes[..n];
  }

  /** Every stream of bytes is of this form. */
  lemma {:induction false} EveryStream(env: Env, bytes: string, ending: Ending) returns (s: Stream)
    ensures Good(env, s, ending) && StreamBytes(s) == bytes
    decreases |bytes|
  {
    var last := OnlyLast(env, bytes, ending);
    if last.Some? {
      s := Stream([], [], last.value);
      assert "" + bytes == bytes;
    } else {
      var m, req, rest := FirstMessage(env, bytes, ending);
      var more := EveryStream(env, rest, ending);
      s := Stream([m] + more.messages, [req] + more.reqs, more.last);
      assert s.messages[1..] == more.messages;
      assert Flat(s.messages) + LastBytes(s.last) == m + (Flat(more.messages) + LastBytes(more.last));
    }
  }

  /** However the stream is cut into chunks: one reply per good message, in order; then a last request without
      newline is answered too, or an oversized or unparsable line gets exactly one error with an empty id, or
      nothing is said; and whatever bytes come after that are not answered. */
  lemma StreamAnswered(env: Env, s: Stream, ending: Ending)
    requires Good(env, s, ending)
    ensures Transcript(env, StreamBytes(s), ending, 0)
         == RepliesTo(env, s.reqs, 0) + LastReplies(env, s.last, |s.reqs|)
  {
    hide Transcript, Message, Flat, LastBytes, IsLast, ReplyTo, LastReplies;
    RequestsAnswered(env, s.messages, s.reqs, LastBytes(s.last), ending, 0);
    LastAnswered(env, s.last, ending, |s.messages|);
  }

  /** Which fields of a request its version, command and parameters are in. */
  function VersionOf(req: Request): int {
    if req.kind == "start" then req.protocolVersion else req.version
  }

  function CommandOf(req: Request): string {
    if req.kind == "start" then "start" else req.command
  }

  function ParamsOf(req: Request): string {
    if req.kind == "start" then Or(req.spec) else Or(req.params)
  }

  /** The handler of a request that passes all checks returns, and for a start request the specification and the
      returned data parse. */
  predicate Handled(env: Env, req: Request, i: nat) {
    var o := env.handle(i, CommandOf(req), ParamsOf(req));
    o.Returned? && (req.kind == "start" ==> env.isSpec(ParamsOf(req)) && env.isStartData(o.raw))
  }

  function Payload(r: Reply): Option<string> {
    if r.Response? then r.result else r.data
  }

  /** `r` answers the i-th request `req`: by its id, an admitted start request in its own form; with exactly what the
      handler returned if all checks pass and it returns, and otherwise with the code of the first check that fails. */
  predicate Answers(env: Env, req: Request, i: nat, r: Reply) {
    var admitted, current, known :=
      env.allow(i), VersionOf(req) == PROTOCOL_VERSION, CommandOf(req) in env.commands;
    && (if admitted && req.kind == "start" then r.StartResponse? && r.requestId == req.requestId
        else r.Response? && r.id == req.id)
    && (r.code == RateLimited <==> !admitted)
    && (r.code == ProtocolMismatch <==> admitted && !current)
    && (r.code == UnknownCommand <==> admitted && current && !known)
    && (r.code == InternalError <==> admitted && current && known && !Handled(env, req, i))
    && (r.code == NoError <==> admitted && current && known && Handled(env, req, i))
    && (r.ok <==> r.code == NoError)
    && Payload(r) == if r.ok then Some(env.handle(i, CommandOf(req), ParamsOf(req)).raw) else None
  }

  lemma ReplyAnswers(env: Env, req: Request, i: nat)
    ensures Answers(env, req, i, ReplyTo(env, req, i))
  {
    match env.handle(i, CommandOf(req), ParamsOf(req))
    case Returned(_) =>
    case Failed(_) =>
    case Panicked =>
  }

  /** All requests of a stream that are answered, the one without newline included. */
  function Requests(s: Stream): seq<Request> {
    s.reqs + if s.last.Final? then [s.last.req] else []
  }

  /** Every stream of bytes, however it is cut into chunks: the requests that it begins with are answered one by
      one, in order, each by its id; then comes exactly one error with an empty id if the stream goes on with an
      oversized or unparsable line, and nothing otherwise. */
  lemma RepliesEchoIds(env: Env, s: Stream, ending: Ending)
    requires Good(env, s, ending)
    ensures var replies, reqs := Transcript(env, StreamBytes(s), ending, 0), Requests(s);
            && |replies| == |reqs| + (if s.last.Oversized? || s.last.Malformed? then 1 else 0)
            && (forall k | 0 <= k < |reqs| :: Answers(env, reqs[k], k, replies[k]))
            && (|replies| > |reqs| ==>
                  replies[|reqs|] == ErrorReply("", if s.last.Oversized? then Limits else BadRequest))
  {
    hide IsLast, Transcript, ReplyTo, Answers, StreamBytes;
    StreamAnswered(env, s, ending);
    var reqs := Requests(s);
    forall k | 0 <= k < |reqs|
      ensures Answers(env, reqs[k], k, ReplyTo(env, reqs[k], k))
    {
      ReplyAnswers(env, reqs[k], k);
    }
  }
}
