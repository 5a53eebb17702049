/**
 * How the end of a body is found: what the parser decides after the header section, against the rules
 * of section 3.3.3 of RFC 7230, and the scan of Transfer-Encoding that the decision depends on.
 */
module HttpFraming {
  import opened Bytes
  import opened HttpBody
  import opened HttpLength
  import opened HttpPersistence

  const COMMA: byte := 44
  const TAB: byte := 9

  /** "chunked". */
  const CHUNKED: seq<byte> := [99, 104, 117, 110, 107, 101, 100]

  predicate IsBlank(c: byte) { c == SP || c == TAB }

  // ----- The list of transfer codings, section 3.3.1 and section 7 of RFC 7230 -----

  function SkipBlank(s: seq<byte>): seq<byte> { if s != [] && IsBlank(s[0]) then SkipBlank(s[1..]) else s }

  function DropBlank(s: seq<byte>): seq<byte> {
    if s != [] && IsBlank(s[|s| - 1]) then DropBlank(s[..|s| - 1]) else s
  }

  /** An element of a list, without the blanks around it; an empty one does not count. */
  function Element(s: seq<byte>): seq<seq<byte>> {
    var t := DropBlank(SkipBlank(s));
    if t == [] then [] else [t]
  }

  function Elements(value: seq<byte>): seq<seq<byte>>
    decreases |value|
  {
    var k := Find(COMMA, value);
    if k == |value| then Element(value) else Element(value[..k]) + Elements(value[k + 1..])
  }

  /** The codings of all the header's fields, in order. */
  function Codings(values: seq<seq<byte>>): seq<seq<byte>> {
    if values == [] then [] else Elements(values[0]) + Codings(values[1..])
  }

  predicate IsChunked(coding: seq<byte>) {
    |coding| == 7 && forall i | 0 <= i < 7 :: Lower(coding[i]) == CHUNKED[i]
  }

  predicate EndsInChunked(values: seq<seq<byte>>) {
    var codings := Codings(values);
    codings != [] && IsChunked(codings[|codings| - 1])
  }

  // ----- What the parser sees of a field -----

  /** The value is the one word "chunked", possibly with spaces after it. */
  predicate SeenAsChunked(value: seq<byte>) {
    |value| >= 7 && IsChunked(value[..7]) && forall i | 7 <= i < |value| :: value[i] == SP
  }

  datatype Match = Matching | Matched | General

  datatype ScanResult = Illegal | Scanned(chunked: bool)

  /**
   * The scan of a Transfer-Encoding value on one line, from its first byte that is not blank: the
   * chunked flag is set if and only if the value is that one word.
   */
  method ScanTransferEncoding(value: seq<byte>, lenient: bool) returns (r: ScanResult)
    requires value != [] && !IsBlank(value[0]) && CR !in value && LF !in value
    ensures r == Illegal <==> !lenient && exists i | 0 < i < |value| :: !IsHeaderChar(value[i])
    ensures r.Scanned? ==> (r.chunked <==> SeenAsChunked(value))
  {
    var state := if Lower(value[0]) == CHUNKED[0] then Matching else General;
    var index := 0;
    var p := 1;
    while p < |value|
      invariant 1 <= p <= |value|
      invariant !lenient ==> forall i | 0 < i < p :: IsHeaderChar(value[i])
      invariant state == Matching ==> p <= 6 && index == p - 1
      invariant state != General ==> forall i | 0 <= i < p && i < 7 :: Lower(value[i]) == CHUNKED[i]
      invariant state == Matched ==> 7 <= p && forall i | 7 <= i < p :: value[i] == SP
      invariant state == General ==> !SeenAsChunked(value)
    {
      var ch := value[p];
      if !lenient && !IsHeaderChar(ch) {
        return Illegal;
      }
      if state == Matching {
        index := index + 1;
        if index > 7 || Lower(ch) != CHUNKED[index] {
          NotTheWord(value, p);
          state := General;
        } else if index == 6 {
          state := Matched;
        }
      } else if state == Matched && ch != SP {
        state := General;
      }
      p := p + 1;
    }
    assert value[..p] == value;
    r := Scanned(state == Matched);
  }

  lemma ChunkedIs()
    ensures CHUNKED == Ascii("chunked")
  {
  }

  lemma NotTheWord(value: seq<byte>, p: nat)
    requires p < 7 && p < |value| && Lower(value[p]) != CHUNKED[p]
    ensures !SeenAsChunked(value)
  {
    if |value| >= 7 { assert value[..7][p] == value[p]; }
  }

  // ----- The rules and the decision -----

  datatype Framing = NoBody | ChunkedBody | Sized(length: u64) | UntilClose | Reject

  /** Responses that never have a body. */
  predicate NeverHasBody(c: Core) {
    c.kind.Response? && (c.statusCode / 100 == 1 || c.statusCode == 204 || c.statusCode == 304)
  }

  /**
   * What section 3.3.3 of RFC 7230 allows, rule by rule: no body for a response to a HEAD request and
   * for certain codes; chunked if that is the last transfer coding, or an error if there is a length
   * besides; with another last coding an error for a request and the end of the connection for a
   * response; else the length; else nothing for a request and the end of the connection for a response.
   */
  function Rules(c: Core, toHead: bool, values: seq<seq<byte>>): set<Framing> {
    if (toHead && c.kind.Response?) || NeverHasBody(c) then {NoBody}
    else if EndsInChunked(values) then {ChunkedBody} + if c.contentLength != ABSENT then {Reject} else {}
    else if Codings(values) != [] then (if c.kind.Request? then {Reject} else {UntilClose})
    else if c.contentLength != ABSENT then {if c.contentLength == 0 then NoBody else Sized(c.contentLength)}
    else if c.kind.Request? then {NoBody}
    else {UntilClose}
  }

  /** The flags and the length at the end of a header section whose Transfer-Encoding fields have these values. */
  predicate HeadersRead(c: Core, values: seq<seq<byte>>) {
    && !c.flags.trailing && c.errno == Ok
    && (c.flags.chunked <==> exists i | 0 <= i < |values| :: SeenAsChunked(values[i]))
    && (c.flags.contentLength <==> c.contentLength != ABSENT)
  }

  /** The message does not go over to another protocol. */
  predicate KeepsProtocol(cfg: Config, c: Core) {
    !UpgradeSeen(c) && (cfg.headersCompleteResult == 0 || cfg.headersCompleteResult == 1)
  }

  /** on_headers_complete tells the parser to skip the body, as it should for a response to a HEAD request. */
  predicate SkipsBody(cfg: Config, c: Core) { cfg.headersCompleteResult == 1 || c.flags.skipBody }

  /** What the parser goes on with after the line feed that ends the header section. */
  function Chosen(o: Outcome): Framing {
    if o.stop == Error then Reject
    else
      match o.core.state
      case ChunkSizeStart => ChunkedBody
      case BodyIdentity => Sized(o.core.contentLength)
      case BodyIdentityEof => UntilClose
      case _ => NoBody
  }

  /**
   * The header sections on which parser and rules agree. For a response without a body: it is skipped, or
   * nothing announces one. With the word "chunked" and a length: chunked is last, or it is a request. With the
   * body skipped otherwise: there is none. Else: there is no transfer coding; or chunked is the last one and
   * stands in a field of its own; or another one is last, in a response that announces nothing the parser sees.
   */
  predicate Agrees(cfg: Config, c: Core, toHead: bool, values: seq<seq<byte>>) {
    var hasLength := c.contentLength != ABSENT;
    var conflict := c.flags.chunked && hasLength;
    if NeverHasBody(c) || (toHead && c.kind.Response?) then
      && !conflict
      && (SkipsBody(cfg, c)
          || (!c.flags.chunked && if hasLength then c.contentLength == 0 else NeverHasBody(c)))
    else if conflict then EndsInChunked(values) || c.kind.Request?
    else if SkipsBody(cfg, c) then
      Codings(values) == [] && if hasLength then c.contentLength == 0 else c.kind.Request?
    else if Codings(values) == [] then true
    else if EndsInChunked(values) then c.flags.chunked
    else c.kind.Response? && !c.flags.chunked && !hasLength
  }

  /**
   * Whether the message is a response to a HEAD request or not, and whatever on_headers_complete says of it:
   * the parser frames the body as the rules allow if and only if the header section is one of those.
   */
  lemma FramingIsExact(cfg: Config, c: Core, toHead: bool, values: seq<seq<byte>>)
    requires HeadersRead(c, values) && KeepsProtocol(cfg, c)
    ensures Chosen(EndHeaders(cfg, c, LF)) in Rules(c, toHead, values) <==> Agrees(cfg, c, toHead, values)
  {
    hide Codings, SeenAsChunked, EndHeaders, Chosen, IsChunked;
    if c.flags.chunked { SeenIsListed(values); }
    DecisionIs(cfg, c);
  }

  /** The parser's decision, by what it has seen. */
  lemma DecisionIs(cfg: Config, c: Core)
    requires !c.flags.trailing && c.errno == Ok && KeepsProtocol(cfg, c)
    requires c.flags.contentLength <==> c.contentLength != ABSENT
    ensures Chosen(EndHeaders(cfg, c, LF)) ==
            if c.flags.chunked && c.contentLength != ABSENT then Reject
            else if SkipsBody(cfg, c) then NoBody
            else if c.flags.chunked then ChunkedBody
            else if c.contentLength != ABSENT then (if c.contentLength == 0 then NoBody else Sized(c.contentLength))
            else if c.kind.Request? || NeverHasBody(c) then NoBody
            else UntilClose
  {
    hide NewMessage;
  }

  /** The parser hands over to it after the header section, unless a body comes first that the callback wants. */
  lemma UpgradeIsExact(cfg: Config, c: Core)
    requires !c.flags.trailing && c.errno == Ok
    requires !(c.flags.chunked && c.flags.contentLength) && 0 <= cfg.headersCompleteResult <= 2
    ensures var o := EndHeaders(cfg, c, LF);
            && o.core.upgrade == Upgrades(cfg, c)
            && (o.stop == Exit <==>
                  && Upgrades(cfg, c)
                  && (c.isConnect || cfg.headersCompleteResult != 0 || c.flags.skipBody
                      || (!c.flags.chunked && (c.contentLength == 0 || c.contentLength == ABSENT))))
            && (o.stop == Exit ==> o.items == [Notify(HeadersComplete), Notify(MessageComplete)])
  {
    hide NewMessage;
  }

  /** A body that lasts until the connection closes is never followed by another message. */
  lemma NothingAfterClose(cfg: Config, c: Core)
    ensures Chosen(EndHeaders(cfg, c, LF)) == UntilClose ==> !ShouldKeepAlive(EndHeaders(cfg, c, LF).core)
  {
    hide NewMessage;
  }

  /** A field that sets the flag lists a coding. */
  lemma {:induction false} SeenIsListed(values: seq<seq<byte>>)
    requires exists i | 0 <= i < |values| :: SeenAsChunked(values[i])
    ensures Codings(values) != []
  {
    hide SeenAsChunked;
    if SeenAsChunked(values[0]) {
      WordIsElement(values[0]);
    } else {
      SeenIsListed(values[1..]);
    }
  }

  lemma WordIsElement(value: seq<byte>)
    requires SeenAsChunked(value)
    ensures Elements(value) != []
  {
    assert value[0] == value[..7][0] && !IsBlank(value[0]);
    forall i | 0 <= i < |value|
      ensures value[i] != COMMA
    {
      if i < 7 { assert value[i] == value[..7][i]; }
    }
    KeepsFirst(value);
  }

  lemma {:induction false} KeepsFirst(s: seq<byte>)
    requires s != [] && !IsBlank(s[0])
    ensures DropBlank(s) != []
  {
    if IsBlank(s[|s| - 1]) { KeepsFirst(s[..|s| - 1]); }
  }

  // ----- Header sections on which they differ -----

  /** A message with these flags and this length at the end of its header section. */
  function Read(kind: MessageType, statusCode: nat, chunked: bool, length: u64): Core {
    var flags := Flags(chunked, false, false, false, false, false, false, length != ABSENT);
    Core(kind, flags, HeadersAlmostDone, 1, length, 1, 1, statusCode, false, false, Ok)
  }

  const CONFIG := Config(0x10000, 0)

  /** A 304 response with Content-Length 5, which has no body, makes the parser wait for five bytes. */
  lemma NotModifiedWaitsForBody()
    ensures var c := Read(Response, 304, false, 5);
            && HeadersRead(c, []) && KeepsProtocol(CONFIG, c)
            && Rules(c, false, []) == {NoBody} && Chosen(EndHeaders(CONFIG, c, LF)) == Sized(5)
  {
  }

  /** A request with Content-Length 5 whose body is skipped: what follows is taken for the next message. */
  lemma SkippedRequestHasBody()
    ensures var c, cfg := Read(Request, 0, false, 5), CONFIG.(headersCompleteResult := 1);
            && HeadersRead(c, []) && KeepsProtocol(cfg, c)
            && Rules(c, false, []) == {Sized(5)} && Chosen(EndHeaders(cfg, c, LF)) == NoBody
  {
  }

  /** "gzip, chunked". */
  const GZIP_CHUNKED: seq<byte> := [103, 122, 105, 112, COMMA, SP] + CHUNKED

  lemma GzipChunkedEndsInChunked()
    ensures !SeenAsChunked(GZIP_CHUNKED) && EndsInChunked([GZIP_CHUNKED])
  {
    var v := GZIP_CHUNKED;
    assert v[..7][0] == 103;
    var gzip: seq<byte> := [103, 122, 105, 112];
    FindAt(COMMA, v, 4);
    assert v[5..] == [SP] + CHUNKED;
    FindAt(COMMA, [SP] + CHUNKED, 8);
    assert ([SP] + CHUNKED)[1..] == CHUNKED;
    assert SkipBlank([SP] + CHUNKED) == SkipBlank(CHUNKED) == CHUNKED;
    assert DropBlank(CHUNKED) == CHUNKED;
    assert Elements([SP] + CHUNKED) == [CHUNKED];
    var all := Codings([v]);
    OneField(v);
    assert Elements(v) == Element(v[..4]) + [CHUNKED];
    assert all[|all| - 1] == CHUNKED;
    ChunkedIsChunked();
  }

  lemma OneField(v: seq<byte>)
    ensures Codings([v]) == Elements(v)
  {
    assert [v][1..] == [] && Codings([]) == [];
  }

  lemma ChunkedIsChunked()
    ensures IsChunked(CHUNKED)
  {
  }

  lemma FindAt(ch: byte, s: seq<byte>, k: nat)
    requires k <= |s| && (forall i | 0 <= i < k :: s[i] != ch) && (k < |s| ==> s[k] == ch)
    ensures Find(ch, s) == k
  {
  }

  /** "Transfer-Encoding: gzip, chunked" with Content-Length 5: the parser reads five bytes of what is chunked. */
  lemma GzipChunkedIsReadByLength(kind: MessageType)
    ensures var c := Read(kind, 200, false, 5);
            && HeadersRead(c, [GZIP_CHUNKED]) && KeepsProtocol(CONFIG, c)
            && Rules(c, false, [GZIP_CHUNKED]) == {ChunkedBody, Reject}
            && Chosen(EndHeaders(CONFIG, c, LF)) == Sized(5)
  {
    hide EndsInChunked, SeenAsChunked;
    GzipChunkedEndsInChunked();
  }

  /** "gzip". */
  const GZIP: seq<byte> := [103, 122, 105, 112]

  /** A response with "Transfer-Encoding: gzip" and Content-Length 5 lasts until close, and is read by its length. */
  lemma GzipIsReadByLength()
    ensures var c := Read(Response, 200, false, 5);
            && HeadersRead(c, [GZIP]) && KeepsProtocol(CONFIG, c)
            && Rules(c, false, [GZIP]) == {UntilClose} && Chosen(EndHeaders(CONFIG, c, LF)) == Sized(5)
  {
    FindAt(COMMA, GZIP, 4);
    OneField(GZIP);
    assert Element(GZIP) == [GZIP];
  }
}
