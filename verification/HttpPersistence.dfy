/**
 * What the end of a message leaves behind: a parser that waits for the next message, or one that refuses
 * it, against the rules of section 6.3 of RFC 7230.
 */
module HttpPersistence {
  import opened Bytes
  import opened HttpBody

  // ----- The rules -----

  /** The connection stays open: from HTTP/1.1 on unless "close" was sent, before that only if "keep-alive" was. */
  predicate Persists(c: Core) {
    if c.httpMajor >= 1 && c.httpMinor >= 1 then !c.flags.close else c.flags.keepAlive
  }

  /** Section 6.3: never with "close"; else with HTTP/1.1 or later, or with HTTP/1.0 and "keep-alive". */
  predicate PersistsByRules(c: Core) {
    && !c.flags.close
    && (|| c.httpMajor > 1 || (c.httpMajor == 1 && c.httpMinor >= 1)
        || (c.httpMajor == 1 && c.httpMinor == 0 && c.flags.keepAlive))
  }

  /** They differ on HTTP/1.0 with both tokens, on later versions that end in .0, and on HTTP/0.x with keep-alive. */
  lemma PersistenceIsExact(c: Core)
    ensures (Persists(c) <==> PersistsByRules(c)) <==>
            || (c.httpMajor >= 1 && c.httpMinor >= 1)
            || (c.httpMajor > 1 && c.flags.keepAlive != c.flags.close)
            || (c.httpMajor == 1 && !(c.flags.keepAlive && c.flags.close))
            || (c.httpMajor == 0 && !c.flags.keepAlive)
  {
  }

  /** Nothing marks the message's end: a response that may have a body, without chunks, length or order to skip it. */
  predicate Unmarked(cfg: Config, c: Core) {
    && c.kind == Response && c.statusCode / 100 != 1 && c.statusCode != 204 && c.statusCode != 304
    && !c.flags.chunked && c.contentLength == ABSENT && !c.flags.skipBody && cfg.headersCompleteResult == 0
  }

  /**
   * The message goes over to another protocol: a request with both the Upgrade field and the upgrade token, a 101
   * response with both, a CONNECT request with not both, or any that the callback says so of.
   */
  predicate Upgrades(cfg: Config, c: Core) {
    || cfg.headersCompleteResult == 2
    || (c.flags.upgrade && c.flags.connectionUpgrade && (c.kind == Request || c.statusCode == 101))
    || (!(c.flags.upgrade && c.flags.connectionUpgrade) && c.isConnect)
  }

  // ----- Within a message -----

  /** The end of a header section. */
  predicate AtHeadersEnd(c: Core) { Inv(c) && c.state == HeadersAlmostDone && !c.flags.trailing }

  /** What the parser does not change within a message. */
  predicate SameHead(c: Core, d: Core) {
    && d.kind == c.kind && d.httpMajor == c.httpMajor && d.httpMinor == c.httpMinor && d.statusCode == c.statusCode
    && d.flags.close == c.flags.close && d.flags.keepAlive == c.flags.keepAlive && d.flags.chunked == c.flags.chunked
  }

  /** The parser is in the body, or in the trailer, of the message with the header section of c. */
  predicate Follows(cfg: Config, c: Core, d: Core) {
    && SameHead(c, d) && d.upgrade == Upgrades(cfg, c)
    && (|| (d.state.BodyIdentity? && c.contentLength != ABSENT) || d.state.BodyIdentityEof?
        || (d.flags.chunked && !AtStart(d.state)
            && (d.state.HeadersAlmostDone? || d.state.HeaderFieldStart? ==> d.flags.trailing)))
  }

  predicate InBody(cfg: Config, c: Core, d: Core) { Inv(d) && Follows(cfg, c, d) }

  predicate Completes(o: Outcome) { Notify(MessageComplete) in o.items }

  /** Where the end of a message with that header section leaves the parser. */
  function NextState(cfg: Config, c: Core): State {
    if !Persists(c) || Unmarked(cfg, c) then Dead else if c.kind == Request then StartReq else StartRes
  }

  /** The outcome of the last byte leaves the parser in that state, and hands over to another protocol if it must. */
  predicate Ended(cfg: Config, c: Core, o: Outcome) {
    o.core.state == NextState(cfg, c) && o.stop == if Upgrades(cfg, c) then Exit else Next
  }

  lemma NewMessageIs(c: Core)
    ensures NewMessage(c) ==
            if !Persists(c) || NeedsEof(c) then Dead else if c.kind == Request then StartReq else StartRes
  {
  }

  /** The byte after the header section is a line feed, or the message has failed. */
  lemma HeadersEndStep(cfg: Config, c: Core, ch: byte)
    requires AtHeadersEnd(c)
    ensures var o, d := Step(cfg, c, ch), AfterHeadersComplete(cfg, Count(c));
            || (o.stop == Error && !Completes(o))
            || (ch == LF && d.errno == Ok && o == After([Notify(HeadersComplete)], EnterBody(d)))
  {
    hide EnterBody, AfterHeadersComplete;
  }

  lemma EntersBody(cfg: Config, c: Core)
    requires AtHeadersEnd(c) && AfterHeadersComplete(cfg, Count(c)).errno == Ok
    ensures var o := EnterBody(AfterHeadersComplete(cfg, Count(c)));
            && (Completes(o) ==> Ended(cfg, c, o))
            && (!Completes(o) ==> o.stop == Next && SameHead(c, o.core) && o.core.upgrade == Upgrades(cfg, c))
            && (Unmarked(cfg, c) ==> if Completes(o) then o.stop == Exit else o.core.state.BodyIdentityEof?)
            && (!Completes(o) ==>
                  || o.core.state.BodyIdentityEof? || (o.core.state.BodyIdentity? && c.contentLength != ABSENT)
                  || (o.core.state.ChunkSizeStart? && c.flags.chunked))
  {
    hide NewMessage;
    var d := AfterHeadersComplete(cfg, Count(c));
    NewMessageIs(d.(nread := 0));
  }

  lemma HeadersEndByte(cfg: Config, c: Core, ch: byte)
    requires AtHeadersEnd(c)
    ensures var o := Step(cfg, c, ch);
            && (Completes(o) ==> Ended(cfg, c, o) && ch == LF)
            && (!Completes(o) && o.stop == Next ==> InBody(cfg, c, o.core))
            && (Unmarked(cfg, c) && Completes(o) ==> o.stop == Exit)
            && (Unmarked(cfg, c) && !Completes(o) && o.stop == Next ==> o.core.state.BodyIdentityEof?)
  {
    hide Step, EnterBody, AfterHeadersComplete, Inv, NextState, Unmarked, Upgrades;
    StepKeepsInv(cfg, c, ch);
    HeadersEndStep(cfg, c, ch);
    if AfterHeadersComplete(cfg, Count(c)).errno == Ok { EntersBody(cfg, c); }
  }

  lemma BodyByte(cfg: Config, c: Core, d: Core, ch: byte)
    requires InBody(cfg, c, d)
    ensures var o := Step(cfg, d, ch);
            && (Completes(o) ==> Ended(cfg, c, o))
            && (!Completes(o) && o.stop == Next ==> InBody(cfg, c, o.core))
  {
    hide NewMessage, EnterBody, StepChunkSize, NextState, Upgrades;
    StepKeepsInv(cfg, d, ch);
    hide Inv;
    BodyDispatch(cfg, c, if CountsAsHeader(d.state) then Count(d) else d, ch);
  }

  /** The end of a message whose end was marked. */
  lemma Finishes(cfg: Config, c: Core, d: Core)
    requires SameHead(c, d) && d.upgrade == Upgrades(cfg, c)
    requires !Unmarked(cfg, c) && (d.flags.chunked || d.contentLength != ABSENT)
    ensures Ended(cfg, c, FinishMessage(d)) && FinishMessage(d).items == [Notify(MessageComplete)]
  {
    NewMessageIs(d);
  }

  lemma TrailerEnds(cfg: Config, c: Core, d: Core, ch: byte)
    requires SameHead(c, d) && d.upgrade == Upgrades(cfg, c) && d.flags.chunked && d.flags.trailing
    ensures var o := EndHeaders(cfg, d, ch);
            (Completes(o) ==> Ended(cfg, c, o)) && (!Completes(o) ==> o.stop != Next)
  {
    hide FinishMessage;
    Finishes(cfg, c, d.(state := MessageDone));
  }

  /** The lines between chunks change nothing that the end of the message depends on. */
  lemma SizeByte(cfg: Config, c: Core, d: Core, ch: byte)
    requires Follows(cfg, c, d) && d.state.ChunkSize?
    ensures var o := StepChunkSize(d, ch);
            !Completes(o) && (o.stop == Next ==> Follows(cfg, c, o.core))
  {
    hide IsHex, Unhex;
  }

  lemma LineEndByte(cfg: Config, c: Core, d: Core, ch: byte)
    requires Follows(cfg, c, d) && d.state.ChunkSizeAlmostDone?
    ensures var o := StepChunkLineEnd(d, ch);
            !Completes(o) && (o.stop == Next ==> Follows(cfg, c, o.core))
  {
  }

  lemma BodyDispatch(cfg: Config, c: Core, d: Core, ch: byte)
    requires Follows(cfg, c, d) && !d.state.HeadersDone? && !d.state.MessageDone?
    ensures var o := Dispatch(cfg, d, ch);
            && (Completes(o) ==> Ended(cfg, c, o))
            && (!Completes(o) && o.stop == Next ==> Follows(cfg, c, o.core))
  {
    hide EndHeaders, EnterBody, FinishMessage, NextState, StepChunkSize, StepChunkLineEnd, Upgrades;
    match d.state
    case HeaderFieldStart => TrailerEnds(cfg, c, d.(state := HeadersAlmostDone), ch);
    case HeadersAlmostDone => TrailerEnds(cfg, c, d, ch);
    case BodyIdentity => Finishes(cfg, c, d.(contentLength := 0, state := MessageDone));
    case ChunkSize => SizeByte(cfg, c, d, ch);
    case ChunkSizeAlmostDone => LineEndByte(cfg, c, d, ch);
    case _ =>
  }

  // ----- Whole messages -----

  /** The last byte completes the message, and no earlier one does. */
  predicate Ends(cfg: Config, c: Core, data: seq<byte>) {
    data != [] && Completes(Run(cfg, c, data)) && !Completes(Run(cfg, c, data[..|data| - 1]))
  }

  lemma {:induction false} BodyEnds(cfg: Config, c: Core, d: Core, data: seq<byte>)
    requires InBody(cfg, c, d) && Ends(cfg, d, data)
    ensures Ended(cfg, c, Run(cfg, d, data))
    decreases |data|
  {
    hide Step, InBody, NextState, Upgrades;
    var o := Step(cfg, d, data[0]);
    BodyByte(cfg, c, d, data[0]);
    EndsLater(cfg, d, data);
    if |data| > 1 { BodyEnds(cfg, c, o.core, data[1..]); }
  }

  /** A byte that is not the last one goes on, and the rest ends the message. */
  lemma EndsLater(cfg: Config, c: Core, data: seq<byte>)
    requires Ends(cfg, c, data)
    ensures var o := Step(cfg, c, data[0]);
            if |data| == 1 then Completes(o) && Run(cfg, c, data).core == o.core && Run(cfg, c, data).stop == o.stop
            else && !Completes(o) && o.stop == Next && Ends(cfg, o.core, data[1..])
                 && Run(cfg, c, data).core == Run(cfg, o.core, data[1..]).core
                 && Run(cfg, c, data).stop == Run(cfg, o.core, data[1..]).stop
  {
    hide Step;
    var o, init := Step(cfg, c, data[0]), data[..|data| - 1];
    if |data| == 1 {
      assert data[1..] == [];
      assert Run(cfg, o.core, []) == Outcome(o.core, [], Next, 0);
    } else {
      assert init[0] == data[0] && init[1..] == data[1..][..|data[1..]| - 1];
      assert o.stop == Next;
    }
  }

  /**
   * Whatever its body is, empty, skipped, of a given length or in chunks, the end of a message leaves the parser
   * waiting for the next one if and only if the connection persists and the message's end was marked; it hands
   * over to another protocol if the header section says so.
   */
  lemma MessageEnds(cfg: Config, c: Core, data: seq<byte>)
    requires AtHeadersEnd(c) && Ends(cfg, c, data)
    ensures Run(cfg, c, data).core.state ==
            if !Persists(c) || Unmarked(cfg, c) then Dead else if c.kind == Request then StartReq else StartRes
    ensures Run(cfg, c, data).stop == if Upgrades(cfg, c) then Exit else Next
  {
    hide Step, InBody, AtHeadersEnd, Upgrades;
    HeadersEndByte(cfg, c, data[0]);
    EndsLater(cfg, c, data);
    if |data| > 1 { BodyEnds(cfg, c, Step(cfg, c, data[0]).core, data[1..]); }
  }

  lemma {:induction false} EofNeverEnds(cfg: Config, c: Core, data: seq<byte>)
    requires c.state.BodyIdentityEof?
    ensures !Completes(Run(cfg, c, data))
    decreases |data|
  {
    if data != [] { EofNeverEnds(cfg, c, data[1..]); }
  }

  /** An unmarked message never ends by itself, unless it goes over to another protocol. */
  lemma UnmarkedEndsByUpgrade(cfg: Config, c: Core, data: seq<byte>)
    requires AtHeadersEnd(c) && Unmarked(cfg, c) && Ends(cfg, c, data)
    ensures data == [LF] && Step(cfg, c, LF).stop == Exit
  {
    hide Step, InBody, AtHeadersEnd, Unmarked, Run;
    HeadersEndByte(cfg, c, data[0]);
    EndsLater(cfg, c, data);
    if |data| > 1 { EofNeverEnds(cfg, Step(cfg, c, data[0]).core, data[1..]); }
  }

  // ----- The next message -----

  /** The first byte after a message: line breaks are skipped, another byte starts a message or is refused. */
  lemma FirstByte(cfg: Config, c: Core, ch: byte)
    requires Inv(c) && AtStart(c.state)
    ensures var o := Run(cfg, c, [ch]);
            if (c.nread + 1) % TWO32 > cfg.maxHeaderSize then o.stop == Error && o.core.errno == HeaderOverflow
            else if ch == CR || ch == LF then o.stop == Next && o.core.state == c.state && o.items == []
            else if c.state == Dead then o.stop == Error && o.core.errno == ClosedConnection
            else o.stop == Beyond && o.core.errno == Ok
  {
    assert [ch][1..] == [];
  }

  /** So a second message on the same connection is taken up in the one case, and refused in the other. */
  lemma SecondMessage(cfg: Config, c: Core, data: seq<byte>, ch: byte)
    requires AtHeadersEnd(c) && Ends(cfg, c, data) && Run(cfg, c, data).stop == Next && ch != CR && ch != LF
    requires (Run(cfg, c, data).core.nread + 1) % TWO32 <= cfg.maxHeaderSize
    ensures var o := Run(cfg, c, data + [ch]);
            && o.used == |data|
            && if Persists(c) && !Unmarked(cfg, c) then o.stop == Beyond && o.core.errno == Ok
               else o.stop == Error && o.core.errno == ClosedConnection
  {
    hide Run, Step;
    RunKeepsInv(cfg, c, data);
    MessageEnds(cfg, c, data);
    RunSplit(cfg, c, data, [ch]);
    FirstByte(cfg, Run(cfg, c, data).core, ch);
    RunKeepsInv(cfg, Run(cfg, c, data).core, [ch]);
  }
}
