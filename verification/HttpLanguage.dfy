/**
 * The converse of HttpChunked: whatever bytes the parser takes as a complete chunked message
 * are the encoding of one, so the accepted language is exactly the grammar.
 */
module HttpLanguage {
  import opened Bytes
  import opened HttpBody
  import opened HttpParserExec
  import opened HttpChunked

  /** What the bytes after the last complete chunk amount to. */
  datatype Part =
    | Between
    | InSize(size: seq<byte>)
    | InExt(line: SizeLine)
    | LineCr(line: SizeLine)
    | InData(line: SizeLine, total: u64, data: seq<byte>)
    | DataEnd(line: SizeLine, total: u64, data: seq<byte>)
    | DataCr(line: SizeLine, total: u64, data: seq<byte>)
    | Trailer(line: SizeLine)
    | TrailerCr(line: SizeLine)

  /** Digits, and possibly an extension, that fill k bytes of the current size line. */
  predicate PartLine(cfg: Config, c: Core, l: SizeLine, k: nat) {
    && l.size != [] && AllHex(l.size) && ExtOk(l.ext)
    && HexValue(l.size) == c.contentLength <= TWO64 - 17
    && c.nread == Counted(k) && Within(cfg, k)
  }

  predicate DataLine(cfg: Config, l: SizeLine, total: nat) {
    LineOk(cfg, l) && HexValue(l.size) == total && 0 < total <= TWO64 - 17
  }

  /** The bytes of a part. */
  function PartBytes(p: Part): seq<byte> {
    match p
    case Between => []
    case InSize(size) => size
    case InExt(l) => l.size + l.ext
    case LineCr(l) => l.size + l.ext + [CR]
    case InData(l, _, d) => EncodeLine(l) + d
    case DataEnd(l, _, d) => EncodeLine(l) + d
    case DataCr(l, _, d) => EncodeLine(l) + d + [CR]
    case Trailer(l) => EncodeLine(l)
    case TrailerCr(l) => EncodeLine(l) + [CR]
  }

  /** What the application has observed of a part. */
  function PartItems(p: Part): seq<Item> {
    match p
    case InData(_, n, d) => [Notify(ChunkHeader(n))] + DataItems(d)
    case DataEnd(_, n, d) => [Notify(ChunkHeader(n))] + DataItems(d)
    case DataCr(_, n, d) => [Notify(ChunkHeader(n))] + DataItems(d)
    case Trailer(l) => [Notify(ChunkHeader(0))]
    case TrailerCr(l) => [Notify(ChunkHeader(0))]
    case _ => []
  }

  /** The core agrees with the part that has been read. */
  predicate Fits(cfg: Config, c: Core, p: Part) {
    && Inv(c) && c.flags.chunked && !c.upgrade
    && match p
       case Between => c.state.ChunkSizeStart?
       case InSize(size) => c.state.ChunkSize? && PartLine(cfg, c, SizeLine(size, []), |size|)
       case InExt(l) => c.state.ChunkParameters? && l.ext != [] && PartLine(cfg, c, l, |l.size| + |l.ext|)
       case LineCr(l) => c.state.ChunkSizeAlmostDone? && PartLine(cfg, c, l, |l.size| + |l.ext| + 1)
       case InData(l, n, d) => c.state.ChunkData? && DataLine(cfg, l, n) && n == |d| + c.contentLength
       case DataEnd(l, n, d) => c.state.ChunkDataAlmostDone? && DataLine(cfg, l, n) && n == |d|
       case DataCr(l, n, d) => c.state.ChunkDataDone? && DataLine(cfg, l, n) && n == |d|
       case Trailer(l) => c.state.HeaderFieldStart? && c.flags.trailing && LineOk(cfg, l) && HexValue(l.size) == 0
       case TrailerCr(l) => c.state.HeadersAlmostDone? && c.flags.trailing && LineOk(cfg, l) && HexValue(l.size) == 0
  }

  /**
   * The next byte extends the part to p' with new items, completes a chunk
   * (then p is DataCr and p' is Between), or completes the message.
   */
  predicate Extends(cfg: Config, p: Part, ch: byte, o: Outcome, p': Part) {
    if p.DataCr? then ch == LF && p' == Between && Fits(cfg, o.core, p') && o.items == [Notify(ChunkComplete)]
    else if (p.Trailer? && ch == LF) || p.TrailerCr? then
      ch == LF && o.items == [Notify(ChunkComplete), Notify(MessageComplete)]
    else
      && Fits(cfg, o.core, p')
      && PartBytes(p') == PartBytes(p) + [ch]
      && PartItems(p') == PartItems(p) + o.items
  }

  lemma FirstStep(cfg: Config, c: Core, p: Part, ch: byte) returns (p': Part)
    requires p.Between? && Fits(cfg, c, p) && Step(cfg, c, ch).stop == Next
    ensures Extends(cfg, p, ch, Step(cfg, c, ch), p')
  {
    hide EndHeaders, FinishMessage, StepChunkLineEnd, StepChunkSize, ExtOk;
    StepKeepsInv(cfg, c, ch);
    CountUp(cfg, 0);
    NoExt();
    HexValuePush([], ch);
    assert [] + [ch] == [ch];
    return InSize([ch]);
  }

  lemma SizeStep(cfg: Config, c: Core, p: Part, ch: byte) returns (p': Part)
    requires p.InSize? && Fits(cfg, c, p) && Step(cfg, c, ch).stop == Next
    ensures Extends(cfg, p, ch, Step(cfg, c, ch), p')
  {
    hide Step, Fits, Extends;
    if ch == CR {
      p' := SizeEnds(cfg, c, p, ch);
    } else if IsHex(ch) {
      p' := SizeGrows(cfg, c, p, ch);
    } else {
      p' := ExtBegins(cfg, c, p, ch);
    }
  }

  lemma SizeCounted(cfg: Config, c: Core, p: Part, ch: byte)
    requires p.InSize? && Fits(cfg, c, p) && Step(cfg, c, ch).stop == Next
    ensures Step(cfg, c, ch) == StepChunkSize(Count(c), ch) && Inv(Step(cfg, c, ch).core)
    ensures Count(c).nread == Counted(|p.size| + 1) && Within(cfg, |p.size| + 1)
  {
    hide EndHeaders, FinishMessage, StepChunkLineEnd, StepChunkSize, ExtOk, Counted, Within, HexValue;
    StepKeepsInv(cfg, c, ch);
    CountUp(cfg, |p.size|);
  }

  lemma SizeEnds(cfg: Config, c: Core, p: Part, ch: byte) returns (p': Part)
    requires p.InSize? && Fits(cfg, c, p) && Step(cfg, c, ch).stop == Next && ch == CR
    ensures Extends(cfg, p, ch, Step(cfg, c, ch), p')
  {
    hide Step, ExtOk, Counted, Within, HexValue;
    SizeCounted(cfg, c, p, ch);
    NoExt();
    assert p.size + [] + [CR] == p.size + [CR];
    p' := LineCr(SizeLine(p.size, []));
  }

  lemma SizeGrows(cfg: Config, c: Core, p: Part, ch: byte) returns (p': Part)
    requires p.InSize? && Fits(cfg, c, p) && Step(cfg, c, ch).stop == Next && IsHex(ch)
    ensures Extends(cfg, p, ch, Step(cfg, c, ch), p')
  {
    hide Step, ExtOk, Counted, Within, HexValue;
    SizeCounted(cfg, c, p, ch);
    HexValuePush(p.size, ch);
    if c.contentLength <= (ABSENT - 16) / 16 { SmallEnoughToShift(c.contentLength, Unhex(ch)); }
    p' := InSize(p.size + [ch]);
  }

  lemma ExtBegins(cfg: Config, c: Core, p: Part, ch: byte) returns (p': Part)
    requires p.InSize? && Fits(cfg, c, p) && Step(cfg, c, ch).stop == Next && ch != CR && !IsHex(ch)
    ensures Extends(cfg, p, ch, Step(cfg, c, ch), p')
  {
    hide Step, ExtOk, Counted, Within, HexValue;
    SizeCounted(cfg, c, p, ch);
    OneExt(ch);
    p' := InExt(SizeLine(p.size, [ch]));
  }

  lemma NoExt()
    ensures ExtOk([])
  {
  }

  lemma OneExt(ch: byte)
    requires ch == 59 || ch == SP
    ensures ExtOk([ch])
  {
  }

  lemma MoreExt(ext: seq<byte>, ch: byte)
    requires ext != [] && ExtOk(ext) && ch != CR
    ensures ExtOk(ext + [ch])
  {
  }

  lemma ExtStep(cfg: Config, c: Core, p: Part, ch: byte) returns (p': Part)
    requires p.InExt? && Fits(cfg, c, p) && Step(cfg, c, ch).stop == Next
    ensures Extends(cfg, p, ch, Step(cfg, c, ch), p')
  {
    hide EndHeaders, FinishMessage, StepChunkLineEnd, StepChunkSize, ExtOk, HexValue, Counted, Within;
    StepKeepsInv(cfg, c, ch);
    CountUp(cfg, |p.line.size| + |p.line.ext|);
    if ch == CR {
      return LineCr(p.line);
    }
    MoreExt(p.line.ext, ch);
    assert p.line.size + (p.line.ext + [ch]) == p.line.size + p.line.ext + [ch];
    return InExt(SizeLine(p.line.size, p.line.ext + [ch]));
  }

  lemma LineCrStep(cfg: Config, c: Core, p: Part, ch: byte) returns (p': Part)
    requires p.LineCr? && Fits(cfg, c, p) && Step(cfg, c, ch).stop == Next
    ensures Extends(cfg, p, ch, Step(cfg, c, ch), p')
  {
    hide EndHeaders, FinishMessage, StepChunkSize, ExtOk, HexValue, Counted, Within;
    StepKeepsInv(cfg, c, ch);
    var l := p.line;
    CountUp(cfg, |l.size| + |l.ext| + 1);
    assert l.size + l.ext + [CR] + [LF] == EncodeLine(l);
    if c.contentLength == 0 {
      return Trailer(l);
    }
    assert EncodeLine(l) + [] == EncodeLine(l);
    assert DataItems([]) == [];
    return InData(l, c.contentLength, []);
  }

  lemma DataStep(cfg: Config, c: Core, p: Part, ch: byte) returns (p': Part)
    requires p.InData? || p.DataEnd? || p.DataCr?
    requires Fits(cfg, c, p) && Step(cfg, c, ch).stop == Next
    ensures Extends(cfg, p, ch, Step(cfg, c, ch), p')
  {
    hide EndHeaders, FinishMessage, StepChunkSize, StepChunkLineEnd, ExtOk, HexValue;
    StepKeepsInv(cfg, c, ch);
    if p.DataEnd? {
      return DataCr(p.line, p.total, p.data);
    }
    if p.DataCr? {
      return Between;
    }
    var d := p.data + [ch];
    assert EncodeLine(p.line) + d == EncodeLine(p.line) + p.data + [ch];
    assert DataItems(d) == DataItems(p.data) + [Data(ch)];
    return if c.contentLength == 1 then DataEnd(p.line, p.total, d) else InData(p.line, p.total, d);
  }

  lemma TrailerStep(cfg: Config, c: Core, p: Part, ch: byte) returns (p': Part)
    requires p.Trailer? || p.TrailerCr?
    requires Fits(cfg, c, p) && Step(cfg, c, ch).stop == Next
    ensures Extends(cfg, p, ch, Step(cfg, c, ch), p')
  {
    hide StepChunkSize, StepChunkLineEnd, ExtOk, HexValue, NewMessage;
    StepKeepsInv(cfg, c, ch);
    p' := TrailerCr(p.line);
  }

  lemma PartStep(cfg: Config, c: Core, p: Part, ch: byte) returns (p': Part)
    requires Fits(cfg, c, p) && Step(cfg, c, ch).stop == Next
    ensures Extends(cfg, p, ch, Step(cfg, c, ch), p')
  {
    hide Step, Extends, Inv, PartLine, DataLine;
    match p
    case Between => p' := FirstStep(cfg, c, p, ch);
    case InSize(_) => p' := SizeStep(cfg, c, p, ch);
    case InExt(_) => p' := ExtStep(cfg, c, p, ch);
    case LineCr(_) => p' := LineCrStep(cfg, c, p, ch);
    case InData(_, _, _) => p' := DataStep(cfg, c, p, ch);
    case DataEnd(_, _, _) => p' := DataStep(cfg, c, p, ch);
    case DataCr(_, _, _) => p' := DataStep(cfg, c, p, ch);
    case Trailer(_) => p' := TrailerStep(cfg, c, p, ch);
    case TrailerCr(_) => p' := TrailerStep(cfg, c, p, ch);
  }

  // ----- Whole inputs -----

  /** The run over data has read these chunks and this part of what follows them, and nothing else. */
  predicate Reads(cfg: Config, c0: Core, data: seq<byte>, chunks: seq<Chunk>, p: Part) {
    var r := Run(cfg, c0, data);
    && ChunksOk(cfg, chunks) && Fits(cfg, r.core, p)
    && data == EncodeChunks(chunks) + PartBytes(p)
    && r.items == ChunksItems(chunks) + PartItems(p)
  }

  predicate Ready(cfg: Config, c: Core) {
    Inv(c) && c.state.ChunkSizeStart? && !c.upgrade
  }

  lemma ChunksPush(chunks: seq<Chunk>, k: Chunk)
    ensures EncodeChunks(chunks + [k]) == EncodeChunks(chunks) + EncodeChunk(k)
    ensures ChunksItems(chunks + [k]) == ChunksItems(chunks) + ChunkItems(k)
  {
    assert (chunks + [k])[..|chunks|] == chunks;
  }

  /** As long as the message is not complete, the input is some chunks and a part of the next line or chunk. */
  lemma {:induction false} Recognize(cfg: Config, c: Core, data: seq<byte>) returns (chunks: seq<Chunk>, p: Part)
    requires Ready(cfg, c)
    requires Run(cfg, c, data).stop == Next && Notify(MessageComplete) !in Run(cfg, c, data).items
    ensures Reads(cfg, c, data, chunks, p)
    decreases |data|
  {
    hide Run, Step, Fits, ChunkOk;
    if data == [] {
      var r := RunNothing(cfg, c);
      StartsBetween(cfg, c);
      return [], Between;
    }
    var n := |data| - 1;
    var init, ch := data[..n], data[n];
    assert data == init + [ch];
    RunOneMore(cfg, c, init, ch);
    chunks, p := Recognize(cfg, c, init);
    chunks, p := ReadOneMore(cfg, c, init, chunks, p, ch);
  }

  lemma StartsBetween(cfg: Config, c: Core)
    requires Ready(cfg, c)
    ensures Fits(cfg, c, Between)
  {
  }

  /** A run over one more byte, in terms of the step it ends with. */
  lemma RunOneMore(cfg: Config, c: Core, init: seq<byte>, ch: byte)
    requires Inv(c) && Run(cfg, c, init + [ch]).stop == Next
    ensures var r, r' := Run(cfg, c, init), Run(cfg, c, init + [ch]);
            && r.stop == Next && Inv(r.core)
            && r'.core == Step(cfg, r.core, ch).core && r'.items == r.items + Step(cfg, r.core, ch).items
            && Step(cfg, r.core, ch).stop == Next
  {
    hide Run, Step;
    RunSplit(cfg, c, init, [ch]);
    RunKeepsInv(cfg, c, init);
    RunOne(cfg, Run(cfg, c, init).core, ch);
  }

  lemma FitsData(cfg: Config, c: Core, p: Part)
    requires Fits(cfg, c, p) && p.DataCr?
    ensures ChunkOk(cfg, Chunk(p.line, p.data)) && p.total == |p.data|
  {
  }

  lemma ReadOneMore(cfg: Config, c: Core, init: seq<byte>, chunks: seq<Chunk>, p: Part, ch: byte)
    returns (chunks': seq<Chunk>, p': Part)
    requires Ready(cfg, c) && Run(cfg, c, init + [ch]).stop == Next
    requires Notify(MessageComplete) !in Run(cfg, c, init + [ch]).items
    requires Reads(cfg, c, init, chunks, p)
    ensures Reads(cfg, c, init + [ch], chunks', p')
  {
    hide Run, Step, Fits, ChunkOk, PartBytes, PartItems, EncodeChunks, ChunksItems, EncodeChunk, ChunkItems;
    RunOneMore(cfg, c, init, ch);
    var r := Run(cfg, c, init);
    var o := Step(cfg, r.core, ch);
    p' := PartStep(cfg, r.core, p, ch);
    Associative(ChunksItems(chunks), PartItems(p), o.items);
    AssociativeBytes(EncodeChunks(chunks), PartBytes(p), [ch]);
    NothingBetween();
    if p.DataCr? {
      FitsData(cfg, r.core, p);
      var k := Chunk(p.line, p.data);
      chunks' := chunks + [k];
      ChunksPush(chunks, k);
      PartBecomesChunk(p);
      Associative(ChunksItems(chunks'), [], []);
    } else {
      chunks' := chunks;
    }
  }

  lemma AssociativeBytes(a: seq<byte>, b: seq<byte>, c: seq<byte>)
    ensures (a + b) + c == a + (b + c)
  {
  }

  lemma NothingBetween()
    ensures PartBytes(Between) == [] && PartItems(Between) == []
  {
  }

  lemma PartBecomesChunk(p: Part)
    requires p.DataCr? && p.total == |p.data|
    ensures PartBytes(p) + [LF] == EncodeChunk(Chunk(p.line, p.data))
    ensures PartItems(p) + [Notify(ChunkComplete)] == ChunkItems(Chunk(p.line, p.data))
  {
  }

  /** The parser reports the end of the message on the last byte of data, and not before. */
  predicate CompletesAtEnd(cfg: Config, c: Core, data: seq<byte>) {
    && data != []
    && Run(cfg, c, data).stop == Next
    && Notify(MessageComplete) in Run(cfg, c, data).items
    && Notify(MessageComplete) !in Run(cfg, c, data[..|data| - 1]).items
  }

  lemma FitsTrailer(cfg: Config, c: Core, p: Part, ch: byte)
    requires Fits(cfg, c, p) && Step(cfg, c, ch).stop == Next
    requires Notify(MessageComplete) in Step(cfg, c, ch).items
    ensures (p.Trailer? || p.TrailerCr?) && LineOk(cfg, p.line) && HexValue(p.line.size) == 0
    ensures ch == LF
  {
    hide NewMessage, ExtOk;
    var p' := PartStep(cfg, c, p, ch);
    PartNeverCompletes(p');
    InTail(PartItems(p), Step(cfg, c, ch).items, Notify(MessageComplete));
  }

  lemma InTail(a: seq<Item>, b: seq<Item>, x: Item)
    requires x in b
    ensures x in a + b
  {
  }

  lemma PartNeverCompletes(p: Part)
    ensures Notify(MessageComplete) !in PartItems(p)
  {
  }

  lemma AcceptedIsEncoded(cfg: Config, c: Core, data: seq<byte>) returns (m: Message)
    requires Ready(cfg, c) && CompletesAtEnd(cfg, c, data)
    ensures MessageOk(cfg, m) && data == Encode(m)
  {
    hide Run, Step, Fits, LineOk, ChunkOk;
    var n := |data| - 1;
    var init, ch := data[..n], data[n];
    assert data == init + [ch];
    RunOneMore(cfg, c, init, ch);
    var chunks, p := Recognize(cfg, c, init);
    FitsTrailer(cfg, Run(cfg, c, init).core, p, ch);
    m := Message(chunks, p.line, p.Trailer?);
    assert EncodeChunks(chunks) + (EncodeLine(p.line) + [CR]) + [LF]
        == EncodeChunks(chunks) + EncodeLine(p.line) + [CR, LF];
  }

  lemma {:induction false} ChunksNeverComplete(cfg: Config, chunks: seq<Chunk>)
    requires ChunksOk(cfg, chunks)
    ensures Notify(MessageComplete) !in ChunksItems(chunks)
  {
    if chunks != [] {
      ChunksNeverComplete(cfg, chunks[..|chunks| - 1]);
    }
  }

  /** Before its last byte an encoded message is not complete. */
  lemma NotBeforeTheEnd(cfg: Config, c: Core, m: Message)
    requires Ready(cfg, c) && MessageOk(cfg, m)
    ensures Notify(MessageComplete) !in Run(cfg, c, Encode(m)[..|Encode(m)| - 1]).items
  {
    hide Run, Step;
    ChunksRun(cfg, c, m.chunks);
    var body, line := EncodeChunks(m.chunks), EncodeLine(m.last);
    var n: u64 :| Runs(cfg, c, body, c.(contentLength := n), ChunksItems(m.chunks));
    var c1 := c.(contentLength := n);
    LineRuns(cfg, c1, m.last);
    var c2 := AfterLine(c1, 0);
    RunsThen(cfg, c, body, c1, ChunksItems(m.chunks), line, c2, [Notify(ChunkHeader(0))]);
    ChunksNeverComplete(cfg, m.chunks);
    if m.bareLf {
      assert Encode(m)[..|Encode(m)| - 1] == body + line;
    } else {
      assert Encode(m)[..|Encode(m)| - 1] == body + line + [CR];
      TrailerCrRuns(cfg, c2);
      RunsThen(cfg, c, body + line, c2, ChunksItems(m.chunks) + [Notify(ChunkHeader(0))],
               [CR], c2.(state := HeadersAlmostDone, nread := 1), []);
    }
  }

  lemma TrailerCrRuns(cfg: Config, c: Core)
    requires c.state.HeaderFieldStart? && c.nread == 0 && 1 <= cfg.maxHeaderSize
    ensures Runs(cfg, c, [CR], c.(state := HeadersAlmostDone, nread := 1), [])
  {
    RunsByte(cfg, c, CR, c.(state := HeadersAlmostDone, nread := 1), []);
  }

  /**
   * The accepted language is exactly the grammar: the parser completes a message on the last
   * byte of the input if and only if the input is the encoding of a well-formed message.
   */
  lemma LanguageIsTheGrammar(cfg: Config, c: Core, data: seq<byte>)
    requires Ready(cfg, c)
    ensures CompletesAtEnd(cfg, c, data) <==> exists m :: MessageOk(cfg, m) && data == Encode(m)
  {
    hide Run, Step, MessageOk, Encode, MessageItems;
    if CompletesAtEnd(cfg, c, data) {
      var m := AcceptedIsEncoded(cfg, c, data);
    }
    forall m | MessageOk(cfg, m) && data == Encode(m)
      ensures CompletesAtEnd(cfg, c, data)
    {
      EncodedMessageParses(cfg, c, m);
      NotBeforeTheEnd(cfg, c, m);
      EncodedIsComplete(m);
    }
  }

  lemma EncodedIsComplete(m: Message)
    ensures Encode(m) != [] && Notify(MessageComplete) in MessageItems(m)
  {
    assert ENDING[2] in MessageItems(m);
  }

  /** At a limit of 2^32 - 1 a message with a size line of more bytes than that is accepted all the same. */
  lemma LongLineIsAccepted(cfg: Config, c: Core)
    requires Ready(cfg, c) && cfg.maxHeaderSize == TWO32 - 1
    ensures var m := Message([], SizeLine(Zeros(TWO32), []), false);
            |m.last.size| > cfg.maxHeaderSize && CompletesAtEnd(cfg, c, Encode(m))
  {
    hide Run, Encode, HexValue, CompletesAtEnd, AllHex;
    ZerosAreZero(TWO32);
    var m := Message([], SizeLine(Zeros(TWO32), []), false);
    assert MessageOk(cfg, m);
    LanguageIsTheGrammar(cfg, c, Encode(m));
  }
}
