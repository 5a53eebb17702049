/**
 * The language of chunked bodies that the parser accepts (section 4.1 of RFC 7230, with an
 * empty trailer): encoding and parsing are inverse to each other.
 */
module HttpChunked {
  import opened Bytes
  import opened HttpBody
  import opened HttpParserExec

  /** A chunk-size line without its CRLF: hexadecimal digits, and what the parser skips after them. */
  datatype SizeLine = SizeLine(size: seq<byte>, ext: seq<byte>)

  datatype Chunk = Chunk(line: SizeLine, data: seq<byte>)

  /** The trailer is one empty line, which the parser also accepts as a lone line feed. */
  datatype Message = Message(chunks: seq<Chunk>, last: SizeLine, bareLf: bool)

  function HexValue(digits: seq<byte>): nat
    requires AllHex(digits)
  {
    if digits == [] then 0 else HexValue(digits[..|digits| - 1]) * 16 + Unhex(digits[|digits| - 1])
  }

  predicate AllHex(digits: seq<byte>) { forall i :: 0 <= i < |digits| ==> IsHex(digits[i]) }

  predicate ExtOk(ext: seq<byte>) {
    && (ext != [] ==> ext[0] == 59 || ext[0] == SP)
    && CR !in ext
  }

  predicate LineOk(cfg: Config, l: SizeLine) {
    && l.size != [] && AllHex(l.size) && ExtOk(l.ext)
    && Within(cfg, |l.size| + |l.ext| + 2)
  }

  predicate ChunkOk(cfg: Config, k: Chunk) {
    && LineOk(cfg, k.line) && HexValue(k.line.size) == |k.data|
    && 0 < |k.data| <= TWO64 - 17
  }

  predicate ChunksOk(cfg: Config, chunks: seq<Chunk>) {
    forall i :: 0 <= i < |chunks| ==> ChunkOk(cfg, chunks[i])
  }

  predicate MessageOk(cfg: Config, m: Message) {
    ChunksOk(cfg, m.chunks) && LineOk(cfg, m.last) && HexValue(m.last.size) == 0
  }

  function EncodeLine(l: SizeLine): seq<byte> { l.size + l.ext + [CR, LF] }

  function EncodeChunk(k: Chunk): seq<byte> { EncodeLine(k.line) + k.data + [CR, LF] }

  function EncodeChunks(chunks: seq<Chunk>): seq<byte> {
    if chunks == [] then [] else EncodeChunks(chunks[..|chunks| - 1]) + EncodeChunk(chunks[|chunks| - 1])
  }

  function Encode(m: Message): seq<byte> {
    EncodeChunks(m.chunks) + EncodeLine(m.last) + if m.bareLf then [LF] else [CR, LF]
  }

  function ChunkItems(k: Chunk): seq<Item> {
    [Notify(ChunkHeader(|k.data|))] + DataItems(k.data) + [Notify(ChunkComplete)]
  }

  function ChunksItems(chunks: seq<Chunk>): seq<Item> {
    if chunks == [] then [] else ChunksItems(chunks[..|chunks| - 1]) + ChunkItems(chunks[|chunks| - 1])
  }

  const ENDING: seq<Item> := [Notify(ChunkHeader(0)), Notify(ChunkComplete), Notify(MessageComplete)]

  function MessageItems(m: Message): seq<Item> {
    ChunksItems(m.chunks) + ENDING
  }

  // ----- Chunk-size digits -----

  /** A run that consumes all its bytes, as a relation. */
  predicate Runs(cfg: Config, c: Core, data: seq<byte>, c': Core, items: seq<Item>) {
    Run(cfg, c, data) == Outcome(c', items, Next, |data|)
  }

  lemma RunsThen(cfg: Config, c: Core, a: seq<byte>, c1: Core, i1: seq<Item>, b: seq<byte>, c2: Core, i2: seq<Item>)
    requires Runs(cfg, c, a, c1, i1) && Runs(cfg, c1, b, c2, i2)
    ensures Runs(cfg, c, a + b, c2, i1 + i2)
  {
    hide Run;
    RunSplit(cfg, c, a, b);
  }

  lemma RunsByte(cfg: Config, c: Core, ch: byte, c': Core, items: seq<Item>)
    requires Step(cfg, c, ch) == Outcome(c', items, Next, 1)
    ensures Runs(cfg, c, [ch], c', items)
  {
    hide Step;
    assert [ch][1..] == [];
    assert Run(cfg, c', []) == Outcome(c', [], Next, 0);
    assert items + [] == items;
  }

  lemma HexValuePush(digits: seq<byte>, ch: byte)
    requires AllHex(digits) && IsHex(ch)
    ensures AllHex(digits + [ch]) && HexValue(digits + [ch]) == HexValue(digits) * 16 + Unhex(ch)
  {
    assert (digits + [ch])[..|digits|] == digits;
  }

  /**
   * Any string of hexadecimal digits within the header-size limit is accepted exactly when
   * its value is at most 2^64 - 17, and then content_length is that value: no wrap-around,
   * and never the "absent" value 2^64 - 1.
   */
  lemma {:induction false} SizeDigitsAreExact(cfg: Config, c: Core, digits: seq<byte>)
    requires Inv(c) && c.state.ChunkSizeStart?
    requires digits != [] && AllHex(digits) && Within(cfg, |digits|)
    ensures var o := Run(cfg, c, digits);
            if HexValue(digits) <= TWO64 - 17 then o == AfterDigits(c, digits)
            else o.stop == Error && o.core.errno == InvalidContentLength
    decreases |digits|
  {
    hide Run, Step, Inv, Counted, Within, HexValue, AllHex;
    var n := |digits| - 1;
    var ch := digits[n];
    if n == 0 {
      assert digits == [] + [ch] == [ch];
      AllHexInit([], ch);
      HexValuePush([], ch);
      NoDigits();
      FirstDigit(cfg, c, ch);
    } else {
      var init := digits[..n];
      assert digits == init + [ch];
      AllHexInit(init, ch);
      HexValuePush(init, ch);
      WithinLess(cfg, n, |digits|);
      SizeDigitsAreExact(cfg, c, init);
      RunSplit(cfg, c, init, [ch]);
      CountUp(cfg, n);
      if HexValue(init) <= TWO64 - 17 { OneMoreDigit(cfg, AfterDigits(c, init).core, ch); }
    }
  }

  lemma AllHexInit(init: seq<byte>, ch: byte)
    requires AllHex(init + [ch])
    ensures AllHex(init) && IsHex(ch)
  {
    assert (init + [ch])[|init|] == ch;
    assert forall i | 0 <= i < |init| :: (init + [ch])[i] == init[i];
  }

  lemma NoDigits()
    ensures AllHex([]) && HexValue([]) == 0
  {
  }

  /** The outcome of reading digits with an acceptable value. */
  function AfterDigits(c: Core, digits: seq<byte>): Outcome
    requires AllHex(digits) && HexValue(digits) <= TWO64 - 17
  {
    var core := c.(state := ChunkSize, nread := Counted(|digits|), contentLength := HexValue(digits));
    Outcome(core, [], Next, |digits|)
  }

  lemma WithinLess(cfg: Config, k: nat, n: nat)
    requires k <= n && Within(cfg, n)
    ensures Within(cfg, k)
  {
  }

  lemma FirstDigit(cfg: Config, c: Core, ch: byte)
    requires Inv(c) && c.state.ChunkSizeStart? && IsHex(ch) && Within(cfg, 1)
    ensures Runs(cfg, c, [ch], c.(state := ChunkSize, nread := Counted(1), contentLength := Unhex(ch)), [])
  {
    CountUp(cfg, 0);
    RunsByte(cfg, c, ch, c.(state := ChunkSize, nread := 1, contentLength := Unhex(ch)), []);
  }

  lemma OneMoreDigit(cfg: Config, c: Core, ch: byte)
    requires c.state.ChunkSize? && IsHex(ch) && Count(c).nread <= cfg.maxHeaderSize && c.contentLength <= TWO64 - 17
    ensures var o := Run(cfg, c, [ch]);
            var v := c.contentLength * 16 + Unhex(ch);
            if v <= TWO64 - 17 then o == Outcome(Count(c).(contentLength := v), [], Next, 1)
            else o.stop == Error && o.core.errno == InvalidContentLength
  {
    if (ABSENT - 16) / 16 < c.contentLength {
      DigitTooMany(cfg, c, ch);
    } else {
      hide Run, Step;
      DigitCounts(cfg, c, ch);
    }
  }

  lemma DigitTooMany(cfg: Config, c: Core, ch: byte)
    requires c.state.ChunkSize? && IsHex(ch) && Count(c).nread <= cfg.maxHeaderSize
    requires (ABSENT - 16) / 16 < c.contentLength
    ensures var o := Run(cfg, c, [ch]);
            && o.stop == Error && o.core.errno == InvalidContentLength
            && c.contentLength * 16 + Unhex(ch) > TWO64 - 17
  {
    assert Step(cfg, c, ch) == Fail(Count(c), InvalidContentLength);
  }

  lemma DigitCounts(cfg: Config, c: Core, ch: byte)
    requires c.state.ChunkSize? && IsHex(ch) && Count(c).nread <= cfg.maxHeaderSize
    requires c.contentLength <= (ABSENT - 16) / 16
    ensures var v := c.contentLength * 16 + Unhex(ch);
            v <= TWO64 - 17 && Runs(cfg, c, [ch], Count(c).(contentLength := v), [])
  {
    hide Run;
    SmallEnoughToShift(c.contentLength, Unhex(ch));
    RunsByte(cfg, c, ch, Count(c).(contentLength := c.contentLength * 16 + Unhex(ch)), []);
  }

  // ----- The header-size limit -----

  lemma EndHeadersErrors(cfg: Config, c: Core, ch: byte)
    requires c.errno != HeaderOverflow
    ensures EndHeaders(cfg, c, ch).core.errno != HeaderOverflow
  {
    hide NewMessage;
  }

  lemma BodyErrors(c: Core)
    requires c.errno != HeaderOverflow
    ensures EnterBody(c).core.errno != HeaderOverflow && FinishMessage(c).core.errno != HeaderOverflow
  {
    hide NewMessage;
  }

  lemma ChunkErrors(c: Core, ch: byte)
    requires c.errno != HeaderOverflow
    ensures StepChunkSize(c, ch).core.errno != HeaderOverflow && StepChunkLineEnd(c, ch).core.errno != HeaderOverflow
  {
  }

  /** Nothing but the count gives this error. */
  lemma DispatchErrors(cfg: Config, c: Core, ch: byte)
    requires c.errno != HeaderOverflow
    ensures Dispatch(cfg, c, ch).core.errno != HeaderOverflow
  {
    hide EndHeaders, EnterBody, FinishMessage, StepChunkSize, StepChunkLineEnd;
    EndHeadersErrors(cfg, c, ch);
    EndHeadersErrors(cfg, c.(state := HeadersAlmostDone), ch);
    BodyErrors(c);
    BodyErrors(c.(contentLength := 0, state := MessageDone));
    ChunkErrors(c, ch);
  }

  lemma {:induction false} NeverOverflows(cfg: Config, c: Core, data: seq<byte>)
    requires Unlimited(cfg) && c.errno != HeaderOverflow
    ensures Run(cfg, c, data).core.errno != HeaderOverflow
    decreases |data|
  {
    hide Dispatch;
    if data != [] {
      DispatchErrors(cfg, c, data[0]);
      DispatchErrors(cfg, Count(c), data[0]);
      var o := Step(cfg, c, data[0]);
      if o.stop == Next { NeverOverflows(cfg, o.core, data[1..]); }
    }
  }

  function Zeros(n: nat): (s: seq<byte>)
    ensures |s| == n && forall i | 0 <= i < n :: s[i] == 48
  {
    seq(n, _ => 48)
  }

  lemma {:induction false} ZerosAreZero(n: nat)
    ensures AllHex(Zeros(n)) && HexValue(Zeros(n)) == 0
  {
    if n > 0 {
      ZerosAreZero(n - 1);
      assert Zeros(n)[..n - 1] == Zeros(n - 1);
    }
  }

  /** One digit more than the limit allows is an overflow. */
  lemma TooManyZeros(cfg: Config, c: Core)
    requires Inv(c) && c.state.ChunkSizeStart? && !Unlimited(cfg)
    ensures Run(cfg, c, Zeros(cfg.maxHeaderSize) + [48]).core.errno == HeaderOverflow
  {
    hide Run, Inv, HexValue;
    var n := cfg.maxHeaderSize;
    ZerosAreZero(n);
    RunSplit(cfg, c, Zeros(n), [48]);
    var c1 := c;
    if n == 0 {
      assert Zeros(0) == [];
      var r := RunNothing(cfg, c);
      StartsUncounted(c);
    } else {
      SizeDigitsAreExact(cfg, c, Zeros(n));
      c1 := AfterDigits(c, Zeros(n)).core;
    }
    RunKeepsInv(cfg, c, Zeros(n));
    assert Step(cfg, c1, 48) == Fail(Count(c1), HeaderOverflow);
    RunOne(cfg, c1, 48);
  }

  lemma StartsUncounted(c: Core)
    requires Inv(c) && c.state.ChunkSizeStart?
    ensures c.nread == 0
  {
  }

  /** The limit can be exceeded at all if and only if it is not 2^32 - 1. */
  lemma LimitIsEnforced(cfg: Config, c: Core)
    requires Inv(c) && c.state.ChunkSizeStart?
    ensures (exists data :: Run(cfg, c, data).core.errno == HeaderOverflow) <==> cfg.maxHeaderSize != TWO32 - 1
  {
    if Unlimited(cfg) {
      forall data
        ensures Run(cfg, c, data).core.errno != HeaderOverflow
      {
        NeverOverflows(cfg, c, data);
      }
    } else {
      TooManyZeros(cfg, c);
    }
  }

  // ----- Encoded messages parse back -----

  /** The core after an extension, with k bytes of the line counted before it. */
  function AfterExt(c: Core, k: nat, ext: seq<byte>): Core {
    c.(state := if ext == [] then ChunkSize else ChunkParameters, nread := Counted(k + |ext|))
  }

  lemma {:induction false} SkipExt(cfg: Config, c: Core, k: nat, ext: seq<byte>)
    requires ExtOk(ext) && c.nread == Counted(k) && Within(cfg, k + |ext|)
    requires c.state.ChunkSize?
    ensures Runs(cfg, c, ext, AfterExt(c, k, ext), [])
    decreases |ext|
  {
    hide Run, Counted, Within;
    if ext != [] {
      var n := |ext| - 1;
      var init := ext[..n];
      assert ext == init + [ext[n]];
      assert ext[n] in ext;
      WithinLess(cfg, k + n, k + |ext|);
      SkipExt(cfg, c, k, init);
      var c1 := AfterExt(c, k, init);
      CountUp(cfg, k + n);
      ExtByte(cfg, c1, ext[n]);
      RunsThen(cfg, c, init, c1, [], [ext[n]], Count(c1).(state := ChunkParameters), []);
    } else {
      var r := RunNothing(cfg, c);
    }
  }

  lemma ExtByte(cfg: Config, c: Core, ch: byte)
    requires ch != CR && Count(c).nread <= cfg.maxHeaderSize
    requires c.state.ChunkParameters? || (c.state.ChunkSize? && (ch == 59 || ch == SP))
    ensures Runs(cfg, c, [ch], Count(c).(state := ChunkParameters), [])
  {
    RunsByte(cfg, c, ch, Count(c).(state := ChunkParameters), []);
  }

  /** CR LF at the end of a size line. */
  lemma LineEndRuns(cfg: Config, c: Core, k: nat)
    requires c.state.ChunkSize? || c.state.ChunkParameters?
    requires c.nread == Counted(k) && Within(cfg, k + 2)
    ensures Runs(cfg, c, [CR, LF], AfterLine(c, c.contentLength), [Notify(ChunkHeader(c.contentLength))])
  {
    hide Run, Counted, Within;
    WithinLess(cfg, k, k + 2);
    WithinLess(cfg, k + 1, k + 2);
    CountUp(cfg, k);
    CountUp(cfg, k + 1);
    var c1 := c.(state := ChunkSizeAlmostDone, nread := Counted(k + 1));
    RunsByte(cfg, c, CR, c1, []);
    RunsByte(cfg, c1, LF, AfterLine(c, c.contentLength), [Notify(ChunkHeader(c.contentLength))]);
    RunsThen(cfg, c, [CR], c1, [], [LF], AfterLine(c, c.contentLength), [Notify(ChunkHeader(c.contentLength))]);
    assert [CR] + [LF] == [CR, LF];
    assert [] + [Notify(ChunkHeader(c.contentLength))] == [Notify(ChunkHeader(c.contentLength))];
  }

  /** The core after a size line whose value is v. */
  function AfterLine(c: Core, v: u64): Core {
    if v == 0 then c.(nread := 0, contentLength := 0, flags := c.flags.(trailing := true), state := HeaderFieldStart)
    else c.(nread := 0, contentLength := v, state := ChunkData)
  }

  lemma LineRuns(cfg: Config, c: Core, l: SizeLine)
    requires Inv(c) && c.state.ChunkSizeStart? && LineOk(cfg, l) && HexValue(l.size) <= TWO64 - 17
    ensures var v := HexValue(l.size);
            Runs(cfg, c, EncodeLine(l), AfterLine(c, v), [Notify(ChunkHeader(v))])
  {
    hide Run, Step, HexValue, Counted, Within;
    var v := HexValue(l.size);
    var m, n := |l.size|, |l.size| + |l.ext|;
    WithinLess(cfg, m, n + 2);
    WithinLess(cfg, n, n + 2);
    SizeDigitsAreExact(cfg, c, l.size);
    var c1 := AfterDigits(c, l.size).core;
    SkipExt(cfg, c1, m, l.ext);
    var c2 := AfterExt(c1, m, l.ext);
    Associative([], [], [Notify(ChunkHeader(v))]);
    RunsThen(cfg, c, l.size, c1, [], l.ext, c2, []);
    LineEndRuns(cfg, c2, n);
    RunsThen(cfg, c, l.size + l.ext, c2, [] + [], [CR, LF], AfterLine(c, v), [Notify(ChunkHeader(v))]);
    assert [] + [] + [Notify(ChunkHeader(v))] == [Notify(ChunkHeader(v))];
  }

  lemma ChunkRuns(cfg: Config, c: Core, k: Chunk)
    requires Inv(c) && c.state.ChunkSizeStart? && ChunkOk(cfg, k)
    ensures Runs(cfg, c, EncodeChunk(k), c.(contentLength := 0), ChunkItems(k))
  {
    hide Run, HexValue;
    LineRuns(cfg, c, k.line);
    var c1 := AfterLine(c, |k.data|);
    JumpChunkData(cfg, c1, k.data);
    var c2 := c1.(contentLength := 0, state := ChunkDataAlmostDone);
    RunsThen(cfg, c, EncodeLine(k.line), c1, [Notify(ChunkHeader(|k.data|))], k.data, c2, DataItems(k.data));
    var seen := [Notify(ChunkHeader(|k.data|))] + DataItems(k.data);
    DataEndRuns(cfg, c2);
    RunsThen(cfg, c, EncodeLine(k.line) + k.data, c2, seen, [CR, LF], c.(contentLength := 0), [Notify(ChunkComplete)]);
  }

  /** CR LF after chunk data. */
  lemma DataEndRuns(cfg: Config, c: Core)
    requires c.state.ChunkDataAlmostDone?
    ensures Runs(cfg, c, [CR, LF], c.(state := ChunkSizeStart, nread := 0), [Notify(ChunkComplete)])
  {
    hide Run;
    var c1 := c.(state := ChunkDataDone);
    RunsByte(cfg, c, CR, c1, []);
    RunsByte(cfg, c1, LF, c.(state := ChunkSizeStart, nread := 0), [Notify(ChunkComplete)]);
    RunsThen(cfg, c, [CR], c1, [], [LF], c.(state := ChunkSizeStart, nread := 0), [Notify(ChunkComplete)]);
    assert [CR] + [LF] == [CR, LF];
    assert [] + [Notify(ChunkComplete)] == [Notify(ChunkComplete)];
  }

  lemma {:induction false} ChunksRun(cfg: Config, c: Core, chunks: seq<Chunk>)
    requires Inv(c) && c.state.ChunkSizeStart? && ChunksOk(cfg, chunks)
    ensures exists n: u64 :: Runs(cfg, c, EncodeChunks(chunks), c.(contentLength := n), ChunksItems(chunks))
  {
    hide Run;
    if chunks == [] {
      var r := RunNothing(cfg, c);
      assert Runs(cfg, c, EncodeChunks(chunks), c.(contentLength := c.contentLength), ChunksItems(chunks));
    } else {
      var init, k := chunks[..|chunks| - 1], chunks[|chunks| - 1];
      ChunksRun(cfg, c, init);
      var n: u64 :| Runs(cfg, c, EncodeChunks(init), c.(contentLength := n), ChunksItems(init));
      var c1 := c.(contentLength := n);
      ChunkRuns(cfg, c1, k);
      var c2 := c1.(contentLength := 0);
      RunsThen(cfg, c, EncodeChunks(init), c1, ChunksItems(init), EncodeChunk(k), c2, ChunkItems(k));
    }
  }

  lemma TrailerRuns(cfg: Config, c: Core, bareLf: bool)
    requires Inv(c) && c.state.HeaderFieldStart? && c.flags.trailing && c.nread == 0 && !c.upgrade
    requires 2 <= cfg.maxHeaderSize
    ensures var o := Run(cfg, c, if bareLf then [LF] else [CR, LF]);
            && o.stop == Next && o.used == (if bareLf then 1 else 2)
            && o.items == [Notify(ChunkComplete), Notify(MessageComplete)]
            && AtStart(o.core.state) && Inv(o.core)
  {
    hide NewMessage;
    assert [Notify(ChunkComplete)] + [Notify(MessageComplete)] == [Notify(ChunkComplete), Notify(MessageComplete)];
    if bareLf {
      StepKeepsInv(cfg, c, LF);
      var o := Step(cfg, c, LF);
      RunsByte(cfg, c, LF, o.core, o.items);
    } else {
      var c1 := c.(state := HeadersAlmostDone, nread := 1);
      RunsByte(cfg, c, CR, c1, []);
      StepKeepsInv(cfg, c1, LF);
      var o := Step(cfg, c1, LF);
      assert o == EndHeaders(cfg, Count(c1), LF);
      RunsByte(cfg, c1, LF, o.core, o.items);
      RunsThen(cfg, c, [CR], c1, [], [LF], o.core, o.items);
      assert [CR] + [LF] == [CR, LF];
      assert [] + o.items == o.items;
    }
  }

  /**
   * Chunked round trip: the parser accepts every encoded message to its last byte, hands
   * over exactly the chunks' data between the right notifications, and ends ready for the
   * next message. With PiecesAreTheWhole this holds for every cutting into buffers.
   */
  lemma EncodedMessageParses(cfg: Config, c: Core, m: Message)
    requires Inv(c) && c.state.ChunkSizeStart? && !c.upgrade && MessageOk(cfg, m)
    ensures var o := Run(cfg, c, Encode(m));
            && o.stop == Next && o.used == |Encode(m)|
            && o.items == MessageItems(m)
            && AtStart(o.core.state) && Inv(o.core)
  {
    hide Run;
    ChunksRun(cfg, c, m.chunks);
    var body, line, tail := EncodeChunks(m.chunks), EncodeLine(m.last), if m.bareLf then [LF] else [CR, LF];
    var n: u64 :| Runs(cfg, c, body, c.(contentLength := n), ChunksItems(m.chunks));
    var c1 := c.(contentLength := n);
    LineRuns(cfg, c1, m.last);
    var c2 := AfterLine(c1, 0);
    RunsThen(cfg, c, body, c1, ChunksItems(m.chunks), line, c2, [Notify(ChunkHeader(0))]);
    TrailerRuns(cfg, c2, m.bareLf);
    var o := Run(cfg, c2, tail);
    RunsThen(cfg, c, body + line, c2, ChunksItems(m.chunks) + [Notify(ChunkHeader(0))], tail, o.core, o.items);
    assert ChunksItems(m.chunks) + [Notify(ChunkHeader(0))] + o.items == MessageItems(m);
  }

  // ----- Sending a list of buffers -----

  /** The body bytes among what the application observes. */
  function BodyOf(items: seq<Item>): seq<byte> {
    if items == [] then []
    else BodyOf(items[..|items| - 1]) + match items[|items| - 1] case Data(b) => [b] case Notify(_) => []
  }

  /** How often a notification occurs. */
  function Times(items: seq<Item>, n: Notification): nat { multiset(items)[Notify(n)] }

  lemma {:induction false} BodyOfAppend(a: seq<Item>, b: seq<Item>)
    ensures BodyOf(a + b) == BodyOf(a) + BodyOf(b)
  {
    if b == [] {
      assert a + b == a;
    } else {
      var n := |b| - 1;
      BodyOfAppend(a, b[..n]);
      assert (a + b)[..|a| + n] == a + b[..n];
    }
  }

  lemma {:induction false} BodyOfData(d: seq<byte>)
    ensures BodyOf(DataItems(d)) == d
  {
    if d != [] {
      var n := |d| - 1;
      BodyOfData(d[..n]);
      assert DataItems(d)[..n] == DataItems(d[..n]);
    }
  }

  /** The shortest hexadecimal numeral of n, in lower case. */
  function HexNumeral(n: nat): (s: seq<byte>)
    ensures s != [] && AllHex(s) && HexValue(s) == n
  {
    var d: byte := if n % 16 < 10 then 48 + n % 16 else 87 + n % 16;
    HexValuePush(if n < 16 then [] else HexNumeral(n / 16), d);
    assert [] + [d] == [d];
    if n < 16 then [d] else HexNumeral(n / 16) + [d]
  }

  function Pow16(k: nat): nat { if k == 0 then 1 else 16 * Pow16(k - 1) }

  lemma {:induction false} HexNumeralIsShort(n: nat, k: nat)
    requires 0 < k && n < Pow16(k)
    ensures |HexNumeral(n)| <= k
  {
    assert Pow16(1) == 16 * Pow16(0);
    if n >= 16 {
      HexNumeralIsShort(n / 16, k - 1);
    }
  }

  /** Every buffer as one chunk. */
  function InChunks(datas: seq<seq<byte>>): seq<Chunk> {
    seq(|datas|, i requires 0 <= i < |datas| => Chunk(SizeLine(HexNumeral(|datas[i]|), []), datas[i]))
  }

  function MessageOf(datas: seq<seq<byte>>): Message { Message(InChunks(datas), SizeLine([48], []), false) }

  lemma TimesAppend(a: seq<Item>, b: seq<Item>, n: Notification)
    ensures Times(a + b, n) == Times(a, n) + Times(b, n)
  {
    assert multiset(a + b) == multiset(a) + multiset(b);
  }

  lemma ChunkObserved(k: Chunk)
    ensures BodyOf(ChunkItems(k)) == k.data
    ensures Times(ChunkItems(k), MessageComplete) == 0
  {
    var first, last := [Notify(ChunkHeader(|k.data|))], [Notify(ChunkComplete)];
    BodyOfAppend(first + DataItems(k.data), last);
    BodyOfAppend(first, DataItems(k.data));
    BodyOfData(k.data);
    assert first[..0] == last[..0] == [];
    assert Notify(MessageComplete) !in ChunkItems(k);
  }

  lemma {:induction false} ObservedOfChunks(datas: seq<seq<byte>>)
    ensures BodyOf(ChunksItems(InChunks(datas))) == Concat(datas)
    ensures Times(ChunksItems(InChunks(datas)), MessageComplete) == 0
  {
    hide BodyOf, ChunkItems, Times;
    var chunks := InChunks(datas);
    if datas == [] {
      NothingObserved();
    } else {
      var n := |datas| - 1;
      ObservedOfChunks(datas[..n]);
      assert chunks[..n] == InChunks(datas[..n]);
      BodyOfAppend(ChunksItems(chunks[..n]), ChunkItems(chunks[n]));
      TimesAppend(ChunksItems(chunks[..n]), ChunkItems(chunks[n]), MessageComplete);
      ChunkObserved(chunks[n]);
      ConcatPush(datas, n);
      assert datas[..n + 1] == datas;
    }
  }

  lemma NothingObserved()
    ensures BodyOf([]) == [] && Times([], MessageComplete) == 0
  {
  }

  lemma {:induction false} NoDataObserved(items: seq<Item>)
    requires forall i :: 0 <= i < |items| ==> items[i].Notify?
    ensures BodyOf(items) == []
  {
    if items != [] {
      NoDataObserved(items[..|items| - 1]);
    }
  }

  lemma EndingObserved()
    ensures BodyOf(ENDING) == [] && Times(ENDING, MessageComplete) == 1
  {
    NoDataObserved(ENDING);
  }

  lemma SixteenDigits()
    ensures Pow16(16) == TWO64
  {
    assert Pow16(2) == 0x100;
    assert Pow16(4) == 0x1_0000;
    assert Pow16(6) == 0x100_0000;
    assert Pow16(8) == 0x1_0000_0000;
    assert Pow16(10) == 0x100_0000_0000;
    assert Pow16(12) == 0x1_0000_0000_0000;
    assert Pow16(14) == 0x100_0000_0000_0000;
  }

  lemma ChunksAreOk(cfg: Config, datas: seq<seq<byte>>)
    requires cfg.maxHeaderSize >= 18
    requires forall i :: 0 <= i < |datas| ==> 0 < |datas[i]| <= TWO64 - 17
    ensures MessageOk(cfg, MessageOf(datas))
  {
    forall i | 0 <= i < |datas|
      ensures ChunkOk(cfg, InChunks(datas)[i])
    {
      SixteenDigits();
      HexNumeralIsShort(|datas[i]|, 16);
    }
    HexValuePush([], 48);
    assert [] + [48] == [48];
  }

  /**
   * Round trip for a list of buffers sent as chunks, received in any pieces: exactly the
   * concatenated data arrives and the end of the message is reported exactly once.
   */
  lemma ChunkedRoundTrip(cfg: Config, c: Core, datas: seq<seq<byte>>, pieces: seq<seq<byte>>)
    requires Inv(c) && c.state.ChunkSizeStart? && !c.upgrade && cfg.maxHeaderSize >= 18
    requires forall i :: 0 <= i < |datas| ==> 0 < |datas[i]| <= TWO64 - 17
    requires Concat(pieces) == Encode(MessageOf(datas))
    ensures var o := RunPieces(cfg, c, pieces);
            && o.stop == Next && AtStart(o.core.state)
            && BodyOf(o.items) == Concat(datas)
            && Times(o.items, MessageComplete) == 1
  {
    hide Run, RunPieces, MessageOk, Encode, BodyOf, Times, InChunks, ChunksItems;
    PiecesAreTheWhole(cfg, c, pieces);
    ChunksAreOk(cfg, datas);
    EncodedMessageParses(cfg, c, MessageOf(datas));
    ObservedOfChunks(datas);
    EndingObserved();
    BodyOfAppend(ChunksItems(InChunks(datas)), ENDING);
    TimesAppend(ChunksItems(InChunks(datas)), ENDING, MessageComplete);
  }
}
