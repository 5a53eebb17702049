/**
 * Why the parser fails, error by error, in the bytes it has seen; and what a message of a given length, or one
 * that lasts until the connection closes, shows to the application.
 */
module HttpErrors {
  import opened Bytes
  import opened HttpBody
  import opened HttpPersistence

  // ----- Errors -----

  /** The bytes of a token, section 3.2.6 of RFC 7230: letters, digits and any of "!#$%&'*+-.^_`|~". */
  predicate TokenByte(c: byte) {
    || 48 <= c <= 57 || 65 <= c <= 90 || 97 <= c <= 122
    || c in {33, 35, 36, 37, 38, 39, 42, 43, 45, 46, 94, 95, 96, 124, 126}
  }

  predicate HexByte(c: byte) { 48 <= c <= 57 || 65 <= c <= 70 || 97 <= c <= 102 }

  /** The byte counts towards the limit on header bytes, and exceeds it. */
  predicate OverLimit(cfg: Config, c: Core) {
    && c.state !in {ChunkData, ChunkDataAlmostDone, ChunkDataDone, BodyIdentity, BodyIdentityEof}
    && (c.nread + 1) % 0x1_0000_0000 > cfg.maxHeaderSize
  }

  /** The byte ends the header section. */
  predicate EndsHeaders(c: Core, ch: byte) {
    ch == 10 && !c.flags.trailing && (c.state == HeadersAlmostDone || c.state == HeaderFieldStart)
  }

  /** The parser is at the end of a header section that announces chunks and a length besides. */
  predicate Contradicts(c: Core) { c.flags.chunked && c.flags.contentLength }

  /** The errors, for a byte that has been counted. */
  function ErrorOf(cfg: Config, c: Core, ch: byte): Errno {
    if c.state == Dead && ch != 13 && ch != 10 then ClosedConnection
    else if c.state == HeaderFieldStart && ch != 13 && ch != 10 && !TokenByte(ch) then InvalidHeaderToken
    else if c.state in {HeadersAlmostDone, ChunkSizeAlmostDone, ChunkDataDone} && ch != 10 then Strict
    else if c.state == ChunkDataAlmostDone && ch != 13 then Strict
    else if c.state == ChunkSizeStart && !HexByte(ch) then InvalidChunkSize
    else if c.state == ChunkSize && !HexByte(ch) && ch !in {13, 32, 59} then InvalidChunkSize
    else if c.state == ChunkSize && HexByte(ch) && c.contentLength > (0xffff_ffff_ffff_ffff - 16) / 16 then
      InvalidContentLength
    else if EndsHeaders(c, ch) && Contradicts(c) then UnexpectedContentLength
    else if EndsHeaders(c, ch) && !(0 <= cfg.headersCompleteResult <= 2) then CbHeadersComplete
    else Ok
  }

  lemma HeadersErrors(cfg: Config, c: Core, ch: byte)
    requires c.errno == Ok && c.state == HeadersAlmostDone
    ensures EndHeaders(cfg, c, ch).core.errno == ErrorOf(cfg, c, ch)
  {
    hide EnterBody, FinishMessage;
    EntersWithoutError(AfterHeadersComplete(cfg, c));
    EntersWithoutError(c.(state := MessageDone));
  }

  lemma EntersWithoutError(c: Core)
    ensures EnterBody(c).core.errno == c.errno && FinishMessage(c).core.errno == c.errno
  {
    hide NewMessage;
  }

  lemma SizeErrors(cfg: Config, c: Core, ch: byte)
    requires c.errno == Ok && c.state == ChunkSize
    ensures StepChunkSize(c, ch).core.errno == ErrorOf(cfg, c, ch)
  {
  }

  lemma CountedErrors(cfg: Config, c: Core, ch: byte)
    requires Inv(c.(nread := 0))
    ensures Dispatch(cfg, c, ch).core.errno == ErrorOf(cfg, c, ch)
  {
    hide EndHeaders, EnterBody, FinishMessage, StepChunkSize;
    match c.state
    case HeaderFieldStart => HeadersErrors(cfg, c.(state := HeadersAlmostDone), ch);
    case HeadersAlmostDone => HeadersErrors(cfg, c, ch);
    case BodyIdentity => EntersWithoutError(c.(contentLength := 0, state := MessageDone));
    case ChunkSize => SizeErrors(cfg, c, ch);
    case _ =>
  }

  /** Every error, exactly when a byte raises it. */
  lemma ErrorIsExact(cfg: Config, c: Core, ch: byte)
    requires Inv(c)
    ensures Step(cfg, c, ch).core.errno == if OverLimit(cfg, c) then HeaderOverflow else ErrorOf(cfg, c, ch)
  {
    hide Dispatch, ErrorOf;
    CountIsNoMatter(cfg, c, ch);
    CountedErrors(cfg, if CountsAsHeader(c.state) then Count(c) else c, ch);
  }

  lemma CountIsNoMatter(cfg: Config, c: Core, ch: byte)
    ensures ErrorOf(cfg, Count(c), ch) == ErrorOf(cfg, c, ch)
  {
  }

  // ----- What the application sees -----

  function Shown(data: seq<byte>): (r: seq<Item>)
    ensures |r| == |data|
  {
    seq(|data|, i requires 0 <= i < |data| => Data(data[i]))
  }

  /** The message goes on in its own protocol, and the application wants its body. */
  predicate Plain(cfg: Config, c: Core) {
    && cfg.headersCompleteResult == 0 && !c.flags.skipBody && !c.isConnect
    && !(c.flags.upgrade && c.flags.connectionUpgrade)
    && Within(cfg, c.nread + 1) && c.nread < 0xffff_ffff
  }

  /** The line feed at the end of the header section of a message without chunks. */
  lemma HeadersEndRuns(cfg: Config, c: Core)
    requires AtHeadersEnd(c) && Plain(cfg, c) && !c.flags.chunked
    ensures var o := Run(cfg, c, [LF]);
            && o.stop == Next && o.used == 1
            && (c.contentLength == 0 ==> o.items == [Notify(HeadersComplete), Notify(MessageComplete)])
            && (0 < c.contentLength < ABSENT ==>
                  && o.items == [Notify(HeadersComplete)]
                  && o.core.state == BodyIdentity && o.core.contentLength == c.contentLength && Inv(o.core))
            && (Unmarked(cfg, c) ==> o.items == [Notify(HeadersComplete)] && o.core.state == BodyIdentityEof)
            && (c.contentLength == ABSENT && !Unmarked(cfg, c) ==>
                  o.items == [Notify(HeadersComplete), Notify(MessageComplete)])
  {
    hide NewMessage;
    StepKeepsInv(cfg, c, LF);
    assert [LF][1..] == [];
  }

  /** Body bytes of a given length, up to the last one. */
  lemma {:induction false} SizedRuns(cfg: Config, c: Core, data: seq<byte>)
    requires Inv(c) && c.state == BodyIdentity && |data| <= c.contentLength
    ensures var o := Run(cfg, c, data);
            && o.used == |data|
            && if |data| < c.contentLength then
                 o.stop == Next && o.items == Shown(data) && o.core == c.(contentLength := c.contentLength - |data|)
               else o.items == Shown(data) + [Notify(MessageComplete)]
    decreases |data|
  {
    hide NewMessage;
    if data != [] {
      var o := Step(cfg, c, data[0]);
      StepKeepsInv(cfg, c, data[0]);
      if c.contentLength > 1 {
        SizedRuns(cfg, o.core, data[1..]);
        assert Shown(data) == [Data(data[0])] + Shown(data[1..]);
      } else {
        assert data[1..] == [] && data == [data[0]];
      }
    }
  }

  lemma {:induction false} EofRuns(cfg: Config, c: Core, data: seq<byte>)
    requires c.state == BodyIdentityEof
    ensures Run(cfg, c, data) == Outcome(c, Shown(data), Next, |data|)
    decreases |data|
  {
    if data != [] {
      EofRuns(cfg, c, data[1..]);
      assert Shown(data) == [Data(data[0])] + Shown(data[1..]);
    }
  }

  /**
   * A message of a given length: the application sees its bytes, and the message is complete with the last one
   * and no earlier. One that lasts until the connection closes is never complete.
   */
  lemma MessageShows(cfg: Config, c: Core, data: seq<byte>)
    requires AtHeadersEnd(c) && Plain(cfg, c) && !c.flags.chunked
    ensures 0 < c.contentLength < ABSENT && |data| == c.contentLength ==>
              Run(cfg, c, [LF] + data).items
              == [Notify(HeadersComplete)] + Shown(data) + [Notify(MessageComplete)]
    ensures (0 < c.contentLength < ABSENT && |data| < c.contentLength) || Unmarked(cfg, c) ==>
              Run(cfg, c, [LF] + data).items == [Notify(HeadersComplete)] + Shown(data)
  {
    hide Run, AtHeadersEnd, Plain;
    HeadersEndRuns(cfg, c);
    RunSplit(cfg, c, [LF], data);
    var d := Run(cfg, c, [LF]).core;
    if 0 < c.contentLength < ABSENT && |data| <= c.contentLength { SizedRuns(cfg, d, data); }
    if Unmarked(cfg, c) { EofRuns(cfg, d, data); }
    assert [Notify(HeadersComplete)] + (Shown(data) + [Notify(MessageComplete)])
        == [Notify(HeadersComplete)] + Shown(data) + [Notify(MessageComplete)];
  }
}
