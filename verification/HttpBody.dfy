/**
 * The body-framing half of http_parser_execute: everything from the blank line that
 * ends the headers to the end of the message (identity bodies, bodies that run until
 * end of file, and chunked bodies whose trailer is empty).
 *
 * Step and Run describe the parser one byte at a time. HttpParserExec.Parser is the
 * resumable implementation, with its jumps over body data and its data marks.
 */
module HttpBody {
  import opened Bytes

  datatype MessageType = Request | Response

  datatype Flags = Flags(chunked: bool, keepAlive: bool, close: bool, connectionUpgrade: bool,
                         trailing: bool, upgrade: bool, skipBody: bool, contentLength: bool)

  datatype State =
    | Dead
    | StartReq
    | StartRes
    | HeaderFieldStart
    | HeadersAlmostDone
    | HeadersDone
    | ChunkSizeStart
    | ChunkSize
    | ChunkParameters
    | ChunkSizeAlmostDone
    | ChunkData
    | ChunkDataAlmostDone
    | ChunkDataDone
    | BodyIdentity
    | BodyIdentityEof
    | MessageDone

  datatype Errno =
    | Ok
    | HeaderOverflow
    | ClosedConnection
    | InvalidHeaderToken
    | InvalidContentLength
    | UnexpectedContentLength
    | InvalidChunkSize
    | Strict
    | InvalidEofState
    | CbHeadersComplete

  /** The settings a run depends on: the header-size limit and what on_headers_complete returns. */
  datatype Config = Config(maxHeaderSize: u32, headersCompleteResult: int)

  /** The fields of struct http_parser that the body states read or write. */
  datatype Core = Core(kind: MessageType, flags: Flags, state: State, nread: u32, contentLength: u64,
                       httpMajor: nat, httpMinor: nat, statusCode: nat, isConnect: bool,
                       upgrade: bool, errno: Errno)

  datatype Notification =
    | HeadersComplete
    | ChunkHeader(size: nat)  // the callback finds the chunk length in content_length
    | ChunkComplete
    | MessageComplete

  /** What the application observes, body data byte by byte. */
  datatype Item = Data(b: byte) | Notify(n: Notification)

  /**
   * Why a run over some bytes ended: bytes used up, an error, an upgrade exit, or a byte
   * that starts a header field or a new message, which is not part of this model.
   */
  datatype Stop = Next | Error | Exit | Beyond

  datatype Outcome = Outcome(core: Core, items: seq<Item>, stop: Stop, used: nat)

  // ----- Pure helpers of the source -----

  predicate NeedsEof(c: Core) {
    && c.kind.Response?
    && !(c.statusCode / 100 == 1 || c.statusCode == 204 || c.statusCode == 304 || c.flags.skipBody)
    && !c.flags.chunked
    && c.contentLength == ABSENT
  }

  predicate ShouldKeepAlive(c: Core) {
    && (if c.httpMajor > 0 && c.httpMinor > 0 then !c.flags.close else c.flags.keepAlive)
    && !NeedsEof(c)
  }

  /** The message is over: an orderly next message, or a connection that must not be used again. */
  predicate AtStart(s: State) { s.Dead? || s.StartReq? || s.StartRes? }

  function NewMessage(c: Core): (s: State)
    ensures AtStart(s)
  {
    if !ShouldKeepAlive(c) then Dead else if c.kind.Request? then StartReq else StartRes
  }

  /** PARSING_HEADER: the states in which bytes count towards the header-size limit. */
  predicate CountsAsHeader(s: State) {
    && !s.ChunkData? && !s.ChunkDataAlmostDone? && !s.ChunkDataDone?
    && !s.BodyIdentity? && !s.BodyIdentityEof? && !s.MessageDone?
  }

  predicate IsToken(c: byte) {
    || IsAlphaNum(c)
    || c == 33 || 35 <= c <= 39 || c == 42 || c == 43 || c == 45 || c == 46
    || 94 <= c <= 96 || c == 124 || c == 126
  }

  // ----- One byte at a time -----

  function Advance(c: Core): Outcome { Outcome(c, [], Next, 1) }

  function Fail(c: Core, e: Errno): Outcome { Outcome(c.(errno := e), [], Error, 0) }

  /** An outcome after something else has been observed. */
  function After(items: seq<Item>, o: Outcome): Outcome { o.(items := items + o.items) }

  function FinishMessage(c: Core): (o: Outcome)
    ensures AtStart(o.core.state)
  {
    Outcome(c.(state := NewMessage(c)), [Notify(MessageComplete)], if c.upgrade then Exit else Next, 1)
  }

  function EnterBody(c0: Core): (o: Outcome)
    ensures AtStart(o.core.state) || o.core.state in {ChunkSizeStart, BodyIdentity, BodyIdentityEof}
  {
    var c := c0.(nread := 0);
    var hasBody := c.flags.chunked || (c.contentLength > 0 && c.contentLength != ABSENT);
    var done := c.(state := NewMessage(c));
    if c.upgrade && (c.isConnect || c.flags.skipBody || !hasBody) then
      Outcome(done, [Notify(MessageComplete)], Exit, 1)
    else if c.flags.skipBody then
      Outcome(done, [Notify(MessageComplete)], Next, 1)
    else if c.flags.chunked then
      Outcome(c.(state := ChunkSizeStart), [], Next, 1)
    else if c.contentLength == 0 then
      Outcome(done, [Notify(MessageComplete)], Next, 1)
    else if c.contentLength != ABSENT then
      Outcome(c.(state := BodyIdentity), [], Next, 1)
    else if !NeedsEof(c) then
      Outcome(done, [Notify(MessageComplete)], Next, 1)
    else
      Outcome(c.(state := BodyIdentityEof), [], Next, 1)
  }

  function UpgradeSeen(c: Core): bool {
    if c.flags.upgrade && c.flags.connectionUpgrade then c.kind.Request? || c.statusCode == 101 else c.isConnect
  }

  /** The core once on_headers_complete has returned 0, 1 or 2. */
  function AfterHeadersComplete(cfg: Config, c: Core): Core {
    var c1 := c.(state := HeadersDone, upgrade := UpgradeSeen(c));
    if cfg.headersCompleteResult == 0 then c1
    else if cfg.headersCompleteResult == 1 then c1.(flags := c1.flags.(skipBody := true))
    else if cfg.headersCompleteResult == 2 then c1.(upgrade := true, flags := c1.flags.(skipBody := true))
    else c1.(errno := CbHeadersComplete)
  }

  function EndHeaders(cfg: Config, c: Core, ch: byte): (o: Outcome)
    ensures o.core.state == c.state || o.core.state in {HeadersDone, ChunkSizeStart, BodyIdentity, BodyIdentityEof}
            || AtStart(o.core.state)
  {
    if ch != LF then Fail(c, Strict)
    else if c.flags.trailing then After([Notify(ChunkComplete)], FinishMessage(c.(state := MessageDone)))
    else if c.flags.chunked && c.flags.contentLength then Fail(c, UnexpectedContentLength)
    else
      var c1 := AfterHeadersComplete(cfg, c);
      if c1.errno != Ok then Outcome(c1, [Notify(HeadersComplete)], Error, 0)
      else After([Notify(HeadersComplete)], EnterBody(c1))
  }

  function StepChunkSize(c: Core, ch: byte): Outcome {
    if ch == CR then Advance(c.(state := ChunkSizeAlmostDone))
    else if IsHex(ch) then
      if (ABSENT - 16) / 16 < c.contentLength then Fail(c, InvalidContentLength)
      else Advance(c.(contentLength := (c.contentLength * 16 + Unhex(ch)) % TWO64))
    else if ch == 59 || ch == SP then Advance(c.(state := ChunkParameters))
    else Fail(c, InvalidChunkSize)
  }

  function StepChunkLineEnd(c: Core, ch: byte): Outcome {
    if ch != LF then Fail(c, Strict)
    else if c.contentLength == 0 then
      Outcome(c.(nread := 0, flags := c.flags.(trailing := true), state := HeaderFieldStart),
              [Notify(ChunkHeader(0))], Next, 1)
    else
      Outcome(c.(nread := 0, state := ChunkData), [Notify(ChunkHeader(c.contentLength))], Next, 1)
  }

  function Dispatch(cfg: Config, c: Core, ch: byte): Outcome {
    match c.state
    case Dead => if ch == CR || ch == LF then Advance(c) else Fail(c, ClosedConnection)
    case StartReq => if ch == CR || ch == LF then Advance(c) else Outcome(c, [], Beyond, 0)
    case StartRes => if ch == CR || ch == LF then Advance(c) else Outcome(c, [], Beyond, 0)
    case HeaderFieldStart =>
      if ch == CR then Advance(c.(state := HeadersAlmostDone))
      else if ch == LF then EndHeaders(cfg, c.(state := HeadersAlmostDone), ch)
      else if !IsToken(ch) then Fail(c, InvalidHeaderToken)
      else Outcome(c, [], Beyond, 0)
    case HeadersAlmostDone => EndHeaders(cfg, c, ch)
    case HeadersDone => if ch != LF then Fail(c, Strict) else EnterBody(c)
    case ChunkSizeStart =>
      if IsHex(ch) then Advance(c.(contentLength := Unhex(ch), state := ChunkSize)) else Fail(c, InvalidChunkSize)
    case ChunkSize => StepChunkSize(c, ch)
    case ChunkParameters => if ch == CR then Advance(c.(state := ChunkSizeAlmostDone)) else Advance(c)
    case ChunkSizeAlmostDone => StepChunkLineEnd(c, ch)
    case ChunkData =>
      if c.contentLength == 0 then Fail(c, InvalidChunkSize)  // excluded by Inv
      else
        var left := c.contentLength - 1;
        Outcome(c.(contentLength := left, state := if left == 0 then ChunkDataAlmostDone else ChunkData),
                [Data(ch)], Next, 1)
    case ChunkDataAlmostDone => if ch != CR then Fail(c, Strict) else Advance(c.(state := ChunkDataDone))
    case ChunkDataDone =>
      if ch != LF then Fail(c, Strict)
      else Outcome(c.(nread := 0, state := ChunkSizeStart), [Notify(ChunkComplete)], Next, 1)
    case BodyIdentity =>
      if c.contentLength == 0 then Fail(c, InvalidContentLength)  // excluded by Inv
      else
        var left := c.contentLength - 1;
        if left == 0 then After([Data(ch)], FinishMessage(c.(contentLength := 0, state := MessageDone)))
        else Outcome(c.(contentLength := left), [Data(ch)], Next, 1)
    case BodyIdentityEof => Outcome(c, [Data(ch)], Next, 1)
    case MessageDone => FinishMessage(c)
  }

  function Count(c: Core): Core { c.(nread := (c.nread + 1) % TWO32) }

  /** How the 32-bit count shows k header bytes. */
  function Counted(k: nat): u32 { k % TWO32 }

  /** At its largest value the limit is never exceeded, because the 32-bit count wraps first. */
  predicate Unlimited(cfg: Config) { cfg.maxHeaderSize == TWO32 - 1 }

  /** The limit lets k header bytes pass. */
  predicate Within(cfg: Config, k: nat) { Unlimited(cfg) || k <= cfg.maxHeaderSize }

  /** One more byte is counted, and let pass exactly if the limit lets all of them pass. */
  lemma CountUp(cfg: Config, k: nat)
    requires Within(cfg, k)
    ensures (Counted(k) + 1) % TWO32 == Counted(k + 1)
    ensures Counted(k + 1) <= cfg.maxHeaderSize <==> Within(cfg, k + 1)
  {
  }

  function Step(cfg: Config, c: Core, ch: byte): Outcome {
    if CountsAsHeader(c.state) then
      if Count(c).nread > cfg.maxHeaderSize then Fail(Count(c), HeaderOverflow) else Dispatch(cfg, Count(c), ch)
    else Dispatch(cfg, c, ch)
  }

  function Run(cfg: Config, c: Core, data: seq<byte>): Outcome
    decreases |data|
  {
    if data == [] then Outcome(c, [], Next, 0)
    else
      var o := Step(cfg, c, data[0]);
      if o.stop != Next then o
      else
        var r := Run(cfg, o.core, data[1..]);
        Outcome(r.core, o.items + r.items, r.stop, 1 + r.used)
  }

  // ----- What every step keeps -----

  /** The assertions of the source, as an invariant of the core between two bytes. */
  predicate Inv(c: Core) {
    && c.errno == Ok
    && !c.state.HeadersDone? && !c.state.MessageDone?
    && (c.state.ChunkSizeStart? ==> c.flags.chunked && c.nread == 0)
    && (c.state.ChunkSize? || c.state.ChunkParameters? || c.state.ChunkSizeAlmostDone? ==>
          c.flags.chunked && c.contentLength <= TWO64 - 17)
    && (c.state.ChunkData? ==> c.flags.chunked && 0 < c.contentLength <= TWO64 - 17)
    && (c.state.ChunkDataAlmostDone? || c.state.ChunkDataDone? ==> c.flags.chunked && c.contentLength == 0)
    && (c.state.BodyIdentity? ==> 0 < c.contentLength < ABSENT)
  }

  /** What the result of one byte looks like when the invariant held before it. */
  predicate Sound(o: Outcome) {
    && (o.stop == Next || o.stop == Exit ==> Inv(o.core) && o.used == 1)
    && (o.stop == Error <==> o.core.errno != Ok)
    && (o.stop == Error || o.stop == Beyond ==> o.used == 0)
  }

  lemma FinishIsSound(c: Core)
    requires c.errno == Ok
    ensures Sound(FinishMessage(c))
  {
  }

  lemma EnterBodyIsSound(c: Core)
    requires c.errno == Ok
    ensures Sound(EnterBody(c))
  {
    hide NewMessage, NeedsEof, ShouldKeepAlive;
  }

  lemma EndHeadersIsSound(cfg: Config, c: Core, ch: byte)
    requires c.errno == Ok
    ensures Sound(EndHeaders(cfg, c, ch))
  {
    hide EnterBody, FinishMessage;
    FinishIsSound(c.(state := MessageDone));
    var c1 := AfterHeadersComplete(cfg, c);
    if c1.errno == Ok {
      EnterBodyIsSound(c1);
    }
  }

  lemma SmallEnoughToShift(n: nat, v: nat)
    requires n <= (ABSENT - 16) / 16 && v < 16
    ensures (n * 16 + v) % TWO64 == n * 16 + v <= TWO64 - 17
  {
  }

  lemma ChunkSizeIsSound(c: Core, ch: byte)
    requires Inv(c.(nread := 0)) && c.state.ChunkSize?
    ensures Sound(StepChunkSize(c, ch))
  {
    if ch != CR && IsHex(ch) && !((ABSENT - 16) / 16 < c.contentLength) {
      SmallEnoughToShift(c.contentLength, Unhex(ch));
    }
  }

  lemma DispatchIsSound(cfg: Config, c: Core, ch: byte)
    requires Inv(c.(nread := 0)) && (c.state.ChunkSizeStart? ==> c.nread == 1)
    ensures Sound(Dispatch(cfg, c, ch))
  {
    hide EndHeaders, FinishMessage, StepChunkSize;
    match c.state
    case HeaderFieldStart => EndHeadersIsSound(cfg, c.(state := HeadersAlmostDone), ch);
    case HeadersAlmostDone => EndHeadersIsSound(cfg, c, ch);
    case BodyIdentity => FinishIsSound(c.(contentLength := 0, state := MessageDone));
    case ChunkSize => ChunkSizeIsSound(c, ch);
    case _ =>
  }

  lemma StepKeepsInv(cfg: Config, c: Core, ch: byte)
    requires Inv(c)
    ensures Sound(Step(cfg, c, ch))
  {
    hide Dispatch;
    DispatchIsSound(cfg, if CountsAsHeader(c.state) then Count(c) else c, ch);
  }

  lemma {:induction false} RunKeepsInv(cfg: Config, c: Core, data: seq<byte>)
    requires Inv(c)
    ensures var o := Run(cfg, c, data);
            && (o.stop == Next || o.stop == Exit ==> Inv(o.core))
            && (o.stop == Error <==> o.core.errno != Ok)
            && (o.stop == Next ==> o.used == |data|)
            && (o.stop == Error || o.stop == Beyond ==> o.used < |data|)
            && o.used <= |data|
    decreases |data|
  {
    hide Step;
    if data != [] {
      StepKeepsInv(cfg, c, data[0]);
      var o := Step(cfg, c, data[0]);
      if o.stop == Next {
        RunKeepsInv(cfg, o.core, data[1..]);
      }
    }
  }

  /** How a run over one piece continues into the next piece. */
  function Then(cfg: Config, first: Outcome, rest: seq<byte>): Outcome {
    if first.stop != Next then first
    else
      var r := Run(cfg, first.core, rest);
      Outcome(r.core, first.items + r.items, r.stop, first.used + r.used)
  }

  /** Split independence of the byte-wise parser: a cut anywhere changes nothing. */
  lemma {:induction false} RunSplit(cfg: Config, c: Core, a: seq<byte>, b: seq<byte>)
    ensures Run(cfg, c, a + b) == Then(cfg, Run(cfg, c, a), b)
    decreases |a|
  {
    hide Step;
    if a == [] {
      assert a + b == b;
      var r := Run(cfg, c, b);
      assert [] + r.items == r.items;
    } else {
      var o := Step(cfg, c, a[0]);
      assert (a + b)[1..] == a[1..] + b;
      if o.stop == Next {
        RunSplit(cfg, o.core, a[1..], b);
        var r1 := Run(cfg, o.core, a[1..]);
        if r1.stop == Next {
          var r2 := Run(cfg, r1.core, b);
          assert o.items + (r1.items + r2.items) == (o.items + r1.items) + r2.items;
        }
      }
    }
  }

  function Concat(pieces: seq<seq<byte>>): seq<byte> {
    if pieces == [] then [] else pieces[0] + Concat(pieces[1..])
  }

  /** Feeding the pieces one after the other, as separate calls do. */
  function RunPieces(cfg: Config, c: Core, pieces: seq<seq<byte>>): Outcome
    decreases |pieces|
  {
    if pieces == [] then Outcome(c, [], Next, 0)
    else
      var o := Run(cfg, c, pieces[0]);
      if o.stop != Next then o
      else
        var r := RunPieces(cfg, o.core, pieces[1..]);
        Outcome(r.core, o.items + r.items, r.stop, o.used + r.used)
  }

  /** Any cutting of a byte stream into pieces gives the run over the whole stream. */
  lemma {:induction false} PiecesAreTheWhole(cfg: Config, c: Core, pieces: seq<seq<byte>>)
    ensures RunPieces(cfg, c, pieces) == Run(cfg, c, Concat(pieces))
    decreases |pieces|
  {
    hide Step;
    if pieces != [] {
      RunSplit(cfg, c, pieces[0], Concat(pieces[1..]));
      var o := Run(cfg, c, pieces[0]);
      if o.stop == Next {
        PiecesAreTheWhole(cfg, o.core, pieces[1..]);
      }
    }
  }
}
