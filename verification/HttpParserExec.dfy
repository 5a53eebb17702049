/**
 * The resumable parser object. Execute consumes a whole buffer per call: it jumps over
 * body data, remembers where pending data starts (the body mark), and hands data to the
 * application in as few on_body calls as it can. Its contract says that it computes
 * HttpBody.Run, whatever buffers the stream arrives in.
 */
module HttpParserExec {
  import opened Bytes
  import opened HttpBody

  /** One callback made to the application. */
  datatype Callback = OnBody(bytes: seq<byte>) | On(n: Notification)

  datatype Mark = Unset | At(start: nat)

  function DataItems(d: seq<byte>): seq<Item> {
    seq(|d|, i requires 0 <= i < |d| => Data(d[i]))
  }

  function ItemsOf(cb: Callback): seq<Item> {
    match cb
    case OnBody(bytes) => DataItems(bytes)
    case On(n) => [Notify(n)]
  }

  /** What the application has observed, however its body data was grouped. */
  function Flatten(log: seq<Callback>): seq<Item> {
    if log == [] then [] else Flatten(log[..|log| - 1]) + ItemsOf(log[|log| - 1])
  }

  lemma FlattenPush(log: seq<Callback>, cb: Callback)
    ensures Flatten(log + [cb]) == Flatten(log) + ItemsOf(cb)
  {
    assert (log + [cb])[..|log|] == log;
  }

  /** The body bytes observed since the last notification. */
  function TrailingData(items: seq<Item>): seq<Item> {
    if items == [] || items[|items| - 1].Notify? then []
    else TrailingData(items[..|items| - 1]) + [items[|items| - 1]]
  }

  lemma {:induction false} TrailingDataGrows(items: seq<Item>, d: seq<byte>)
    ensures TrailingData(items + DataItems(d)) == TrailingData(items) + DataItems(d)
  {
    if d == [] {
      assert items + DataItems(d) == items;
    } else {
      var n := |d| - 1;
      TrailingDataGrows(items, d[..n]);
      assert DataItems(d) == DataItems(d[..n]) + [Data(d[n])];
      assert (items + DataItems(d))[..|items| + n] == items + DataItems(d[..n]);
    }
  }

  // ----- The jumps over body data agree with the byte-wise run -----

  lemma {:induction false} JumpChunkData(cfg: Config, c: Core, d: seq<byte>)
    requires c.state.ChunkData? && 0 < |d| <= c.contentLength
    ensures var left := c.contentLength - |d|;
            Run(cfg, c, d) ==
            Outcome(c.(contentLength := left, state := if left == 0 then ChunkDataAlmostDone else ChunkData),
                    DataItems(d), Next, |d|)
    decreases |d|
  {
    var o := Step(cfg, c, d[0]);
    if |d| == 1 {
      assert Run(cfg, o.core, d[1..]) == Outcome(o.core, [], Next, 0);
    } else {
      JumpChunkData(cfg, o.core, d[1..]);
    }
    assert DataItems(d) == [Data(d[0])] + DataItems(d[1..]);
  }

  lemma {:induction false} JumpIdentity(cfg: Config, c: Core, d: seq<byte>)
    requires c.state.BodyIdentity? && 0 < |d| <= c.contentLength
    ensures Run(cfg, c, d) ==
            if |d| < c.contentLength
            then Outcome(c.(contentLength := c.contentLength - |d|), DataItems(d), Next, |d|)
            else After(DataItems(d), FinishMessage(c.(contentLength := 0, state := MessageDone))).(used := |d|)
    decreases |d|
  {
    var o := Step(cfg, c, d[0]);
    if |d| == 1 {
      assert Run(cfg, o.core, d[1..]) == Outcome(o.core, [], Next, 0);
      assert o.items + [] == o.items;
    } else {
      JumpIdentity(cfg, o.core, d[1..]);
      assert [Data(d[0])] + (DataItems(d[1..]) + [Notify(MessageComplete)])
          == ([Data(d[0])] + DataItems(d[1..])) + [Notify(MessageComplete)];
    }
    assert DataItems(d) == [Data(d[0])] + DataItems(d[1..]);
  }

  lemma {:induction false} JumpToEof(cfg: Config, c: Core, d: seq<byte>)
    requires c.state.BodyIdentityEof?
    ensures Run(cfg, c, d) == Outcome(c, DataItems(d), Next, |d|)
    decreases |d|
  {
    if d != [] {
      JumpToEof(cfg, c, d[1..]);
      assert DataItems(d) == [Data(d[0])] + DataItems(d[1..]);
    }
  }

  lemma Associative(a: seq<Item>, b: seq<Item>, c: seq<Item>)
    ensures (a + b) + c == a + (b + c)
  {
  }

  lemma RunOne(cfg: Config, c: Core, ch: byte)
    requires Inv(c)
    ensures Run(cfg, c, [ch]) == Step(cfg, c, ch)
  {
    hide Dispatch;
    StepKeepsInv(cfg, c, ch);
    var o := Step(cfg, c, ch);
    assert Run(cfg, o.core, []) == Outcome(o.core, [], Next, 0);
    assert o.items + [] == o.items;
  }

  ghost function RunNothing(cfg: Config, c: Core): (r: Outcome)
    ensures r == Run(cfg, c, []) == Outcome(c, [], Next, 0)
    ensures TrailingData([]) == []
  {
    Run(cfg, c, [])
  }

  /** A run over data that has reached p0 goes on over the bytes up to q, and ends there if they stop it. */
  lemma RunContinues(cfg: Config, c0: Core, data: seq<byte>, p0: nat, q: nat)
    requires p0 <= q <= |data| && Run(cfg, c0, data[..p0]).stop == Next
    ensures var r := Run(cfg, c0, data[..p0]);
            var o := Run(cfg, r.core, data[p0..q]);
            && Run(cfg, c0, data[..q]) == Outcome(o.core, r.items + o.items, o.stop, r.used + o.used)
            && (o.stop != Next ==> Run(cfg, c0, data) == Run(cfg, c0, data[..q]))
  {
    hide Run;
    assert data[..q] == data[..p0] + data[p0..q];
    RunSplit(cfg, c0, data[..p0], data[p0..q]);
    assert data == data[..q] + data[q..];
    RunSplit(cfg, c0, data[..q], data[q..]);
  }

  /** The items of data that is marked but not handed over yet. */
  function Pending(done: seq<byte>, mark: Mark): seq<Item>
    requires mark.At? ==> mark.start <= |done|
  {
    if mark.Unset? then [] else DataItems(done[mark.start..])
  }

  /** The data a failing call drops: what came after the last notification, when CR was expected. */
  function LostData(o: Outcome): seq<Item> {
    if o.stop == Error && o.core.state.ChunkDataAlmostDone? then TrailingData(o.items) else []
  }

  /** A mark lies in the bytes already passed, and only states that carry body data have one. */
  predicate MarkOk(s: State, done: seq<byte>, mark: Mark) {
    mark.At? ==>
      mark.start < |done| && (s.ChunkData? || s.ChunkDataAlmostDone? || s.BodyIdentity? || s.BodyIdentityEof?)
  }

  /** In the chunk data states, what is pending is all data since the last notification. */
  ghost predicate Trails(s: State, items: seq<Item>, pending: seq<Item>) {
    s.ChunkData? || s.ChunkDataAlmostDone? ==> TrailingData(items) == pending
  }

  lemma PendingGrows(data: seq<byte>, p0: nat, p: nat, mark: Mark)
    requires p0 <= p <= |data| && (mark.At? ==> mark.start <= p0)
    ensures Pending(data[..p], if mark.Unset? then At(p0) else mark)
         == Pending(data[..p0], mark) + DataItems(data[p0..p])
  {
  }

  /** Outside chunk data, no byte leads to or fails in the state that expects CR after the data. */
  lemma Uncounted(c: Core)
    requires Inv(c)
    ensures Inv(c.(nread := 0)) && (c.state.ChunkSizeStart? ==> c.nread == 0)
  {
  }

  lemma NotAlmostDone(cfg: Config, c: Core, ch: byte)
    requires Inv(c)
    requires !c.state.ChunkData? && !c.state.ChunkDataAlmostDone?
    ensures var o := Step(cfg, c, ch);
            && !o.core.state.ChunkDataAlmostDone?
            && (o.core.state.ChunkData? ==> o.items != [] && o.items[|o.items| - 1].Notify?)
  {
    hide EndHeaders, FinishMessage, EnterBody;
  }

  lemma {:induction false} ConcatPush(pieces: seq<seq<byte>>, i: nat)
    requires i < |pieces|
    ensures Concat(pieces[..i + 1]) == Concat(pieces[..i]) + pieces[i]
    ensures Concat(pieces) == Concat(pieces[..i + 1]) + Concat(pieces[i + 1..])
  {
    if i == 0 {
      assert pieces[..1] == [pieces[0]];
      assert Concat(pieces[..1][1..]) == [];
    } else {
      ConcatPush(pieces[1..], i - 1);
      assert pieces[..i + 1][1..] == pieces[1..][..i];
      assert pieces[..i][1..] == pieces[1..][..i - 1];
    }
  }

  class Parser {
    var kind: MessageType
    var flags: Flags
    var state: State
    var nread: u32
    var contentLength: u64
    var httpMajor: nat
    var httpMinor: nat
    var statusCode: nat
    var isConnect: bool
    var upgrade: bool
    var errno: Errno

    /** Every callback made so far. */
    var log: seq<Callback>

    function Snapshot(): Core
      reads this
    {
      Core(kind, flags, state, nread, contentLength, httpMajor, httpMinor, statusCode, isConnect, upgrade, errno)
    }

    /** A parser whose headers are complete up to the final line feed. */
    constructor (c: Core)
      ensures Snapshot() == c && log == []
    {
      kind, flags, state, nread, contentLength := c.kind, c.flags, c.state, c.nread, c.contentLength;
      httpMajor, httpMinor, statusCode := c.httpMajor, c.httpMinor, c.statusCode;
      isConnect, upgrade, errno := c.isConnect, c.upgrade, c.errno;
      log := [];
    }

    method CallbackNotify(n: Notification)
      modifies this`log
      ensures Flatten(log) == old(Flatten(log)) + [Notify(n)]
    {
      FlattenPush(log, On(n));
      log := log + [On(n)];
    }

    method CallbackBody(bytes: seq<byte>)
      modifies this`log
      ensures Flatten(log) == old(Flatten(log)) + DataItems(bytes)
    {
      FlattenPush(log, OnBody(bytes));
      log := log + [OnBody(bytes)];
    }

    /** The message_done state. */
    method OnMessageDone() returns (stop: Stop)
      modifies this`state, this`log
      ensures var o := FinishMessage(old(Snapshot()));
              Snapshot() == o.core && stop == o.stop
      ensures Flatten(log) == old(Flatten(log)) + [Notify(MessageComplete)]
    {
      state := NewMessage(Snapshot());
      CallbackNotify(MessageComplete);
      stop := if upgrade then Exit else Next;
    }

    /** The headers_done state on the line feed that ends the headers. */
    method OnHeadersDone() returns (stop: Stop)
      modifies this`state, this`nread, this`log
      ensures var o := EnterBody(old(Snapshot()));
              Snapshot() == o.core && stop == o.stop && Flatten(log) == old(Flatten(log)) + o.items
    {
      stop := Next;
      nread := 0;
      var hasBody := flags.chunked || (contentLength > 0 && contentLength != ABSENT);
      if upgrade && (isConnect || flags.skipBody || !hasBody) {
        state := NewMessage(Snapshot());
        CallbackNotify(MessageComplete);
        stop := Exit;
      } else if flags.skipBody {
        state := NewMessage(Snapshot());
        CallbackNotify(MessageComplete);
      } else if flags.chunked {
        state := ChunkSizeStart;
      } else if contentLength == 0 {
        state := NewMessage(Snapshot());
        CallbackNotify(MessageComplete);
      } else if contentLength != ABSENT {
        state := BodyIdentity;
      } else if !NeedsEof(Snapshot()) {
        state := NewMessage(Snapshot());
        CallbackNotify(MessageComplete);
      } else {
        state := BodyIdentityEof;
      }
    }

    method OnHeadersAlmostDone(cfg: Config, ch: byte) returns (stop: Stop)
      requires errno == Ok
      modifies this
      ensures var o := EndHeaders(cfg, old(Snapshot()), ch);
              Snapshot() == o.core && stop == o.stop && Flatten(log) == old(Flatten(log)) + o.items
    {
      hide EnterBody, NewMessage, Flatten, AfterHeadersComplete;
      if ch != LF {
        errno := Strict;
        return Error;
      }
      if flags.trailing {
        state := MessageDone;
        CallbackNotify(ChunkComplete);
        stop := OnMessageDone();
        assert Flatten(log) == old(Flatten(log)) + ([Notify(ChunkComplete)] + [Notify(MessageComplete)]);
        return;
      }
      if flags.chunked && flags.contentLength {
        errno := UnexpectedContentLength;
        return Error;
      }
      ghost var flat := Flatten(log);
      ghost var c1 := AfterHeadersComplete(cfg, Snapshot());
      var ok := CompleteHeaders(cfg);
      if !ok {
        return Error;
      }
      stop := OnHeadersDone();
      Associative(flat, [Notify(HeadersComplete)], EnterBody(c1).items);
    }

    /** The upgrade decision and the on_headers_complete callback. */
    method CompleteHeaders(cfg: Config) returns (ok: bool)
      requires errno == Ok
      modifies this
      ensures Snapshot() == AfterHeadersComplete(cfg, old(Snapshot()))
      ensures ok <==> errno == Ok
      ensures Flatten(log) == old(Flatten(log)) + [Notify(HeadersComplete)]
    {
      state := HeadersDone;
      if flags.upgrade && flags.connectionUpgrade {
        upgrade := kind.Request? || statusCode == 101;
      } else {
        upgrade := isConnect;
      }
      CallbackNotify(HeadersComplete);
      if cfg.headersCompleteResult == 1 || cfg.headersCompleteResult == 2 {
        if cfg.headersCompleteResult == 2 {
          upgrade := true;
        }
        flags := flags.(skipBody := true);
      } else if cfg.headersCompleteResult != 0 {
        errno := CbHeadersComplete;
      }
      ok := errno == Ok;
    }

    /** The body of the switch for every state that carries no body data. */
    method OnByte(cfg: Config, ch: byte) returns (stop: Stop)
      requires Inv(Snapshot().(nread := 0)) && (state.ChunkSizeStart? ==> nread == 1)
      requires !state.ChunkData? && !state.ChunkDataAlmostDone? && !state.BodyIdentity? && !state.BodyIdentityEof?
      modifies this
      ensures var o := Dispatch(cfg, old(Snapshot()), ch);
              Snapshot() == o.core && stop == o.stop && Flatten(log) == old(Flatten(log)) + o.items
    {
      hide EndHeaders, StepChunkSize, StepChunkLineEnd, IsToken;
      stop := Next;
      match state {
        case Dead =>
          if ch != CR && ch != LF {
            errno := ClosedConnection;
            stop := Error;
          }
        case StartReq =>
          if ch != CR && ch != LF { stop := Beyond; }
        case StartRes =>
          if ch != CR && ch != LF { stop := Beyond; }
        case HeaderFieldStart =>
          if ch == CR {
            state := HeadersAlmostDone;
          } else if ch == LF {
            state := HeadersAlmostDone;
            stop := OnHeadersAlmostDone(cfg, ch);
          } else if !IsToken(ch) {
            errno := InvalidHeaderToken;
            stop := Error;
          } else {
            stop := Beyond;
          }
        case HeadersAlmostDone =>
          stop := OnHeadersAlmostDone(cfg, ch);
        case ChunkSizeStart =>
          assert nread == 1;
          assert flags.chunked;
          if IsHex(ch) {
            contentLength := Unhex(ch);
            state := ChunkSize;
          } else {
            errno := InvalidChunkSize;
            stop := Error;
          }
        case ChunkSize =>
          assert flags.chunked;
          stop := OnChunkSize(ch);
        case ChunkParameters =>
          assert flags.chunked;
          if ch == CR { state := ChunkSizeAlmostDone; }
        case ChunkSizeAlmostDone =>
          assert flags.chunked;
          stop := OnChunkLineEnd(ch);
        case ChunkDataDone =>
          assert flags.chunked;
          if ch != LF {
            errno := Strict;
            stop := Error;
          } else {
            nread := 0;
            state := ChunkSizeStart;
            CallbackNotify(ChunkComplete);
          }
      }
    }

    method OnChunkSize(ch: byte) returns (stop: Stop)
      requires state.ChunkSize? && errno == Ok
      modifies this`state, this`contentLength, this`errno
      ensures var o := StepChunkSize(old(Snapshot()), ch); Snapshot() == o.core && stop == o.stop && o.items == []
    {
      if ch == CR {
        state := ChunkSizeAlmostDone;
        return Next;
      }
      if !IsHex(ch) {
        if ch == 59 || ch == SP {
          state := ChunkParameters;
          return Next;
        }
        errno := InvalidChunkSize;
        return Error;
      }
      var t: u64 := contentLength;
      t := t * 16 % TWO64;
      t := (t + Unhex(ch)) % TWO64;
      if (ABSENT - 16) / 16 < contentLength {
        errno := InvalidContentLength;
        return Error;
      }
      contentLength := t;
      stop := Next;
    }

    method OnChunkLineEnd(ch: byte) returns (stop: Stop)
      requires state.ChunkSizeAlmostDone? && errno == Ok
      modifies this
      ensures var o := StepChunkLineEnd(old(Snapshot()), ch);
              Snapshot() == o.core && stop == o.stop && Flatten(log) == old(Flatten(log)) + o.items
    {
      if ch != LF {
        errno := Strict;
        return Error;
      }
      nread := 0;
      if contentLength == 0 {
        flags := flags.(trailing := true);
        state := HeaderFieldStart;
      } else {
        state := ChunkData;
      }
      CallbackNotify(ChunkHeader(contentLength));
      stop := Next;
    }

    /** A call with no bytes announces the end of the file. */
    method ExecuteEof() returns (consumed: nat)
      modifies this`errno, this`log
      ensures var c := old(Snapshot());
              if c.errno != Ok then
                consumed == 0 && Snapshot() == c && log == old(log)
              else if c.state.BodyIdentityEof? then
                consumed == 0 && Snapshot() == c && Flatten(log) == old(Flatten(log)) + [Notify(MessageComplete)]
              else if c.state.Dead? || c.state.StartReq? || c.state.StartRes? then
                consumed == 0 && Snapshot() == c && log == old(log)
              else
                consumed == 1 && Snapshot() == c.(errno := InvalidEofState) && log == old(log)
    {
      if errno != Ok {
        return 0;
      }
      match state {
        case BodyIdentityEof =>
          CallbackNotify(MessageComplete);
          consumed := 0;
        case Dead => consumed := 0;
        case StartReq => consumed := 0;
        case StartRes => consumed := 0;
        case _ =>
          errno := InvalidEofState;
          consumed := 1;
      }
    }

    /**
     * The state after a part of the loop body whose byte-wise outcome is o: before is what
     * had been observed or was pending when it began, items is the call's history until then.
     */
    ghost predicate Advanced(o: Outcome, before: seq<Item>, items: seq<Item>, done: seq<byte>, mark: Mark)
      reads this
    {
      && Snapshot() == o.core
      && MarkOk(o.core.state, done, mark)
      && Flatten(log) + Pending(done, mark) == before + o.items
      && Trails(o.core.state, items + o.items, Pending(done, mark))
    }

    /** Two consecutive parts of a call make one. */
    lemma AdvancedTwice(r: Outcome, o: Outcome, seen: seq<Item>, done: seq<byte>, mark: Mark)
      requires Advanced(o, seen + r.items, r.items, done, mark)
      ensures Advanced(Outcome(o.core, r.items + o.items, o.stop, r.used + o.used), seen, [], done, mark)
    {
      Associative(seen, r.items, o.items);
      assert [] + (r.items + o.items) == r.items + o.items;
    }

    /** When a call stops early, nothing is pending unless CR was missing after chunk data. */
    lemma StoppedCall(r: Outcome, seen: seq<Item>, done: seq<byte>, mark: Mark)
      requires Advanced(r, seen, [], done, mark)
      requires mark.At? ==> r.stop == Error && state.ChunkDataAlmostDone?
      ensures Flatten(log) + LostData(r) == seen + r.items
    {
      assert [] + r.items == r.items;
      assert Flatten(log) + [] == Flatten(log);
    }

    method OnIdentityData(cfg: Config, ghost items: seq<Item>, data: seq<byte>, p0: nat, mark0: Mark)
      returns (p: nat, mark: Mark, stop: Stop)
      requires p0 < |data| && state.BodyIdentity? && Inv(Snapshot()) && MarkOk(state, data[..p0], mark0)
      modifies this
      ensures p0 < p <= |data|
      ensures var o := Run(cfg, old(Snapshot()), data[p0..p]);
              && stop == o.stop && o.used == p - p0
              && Advanced(o, old(Flatten(log)) + Pending(data[..p0], mark0), items, data[..p], mark)
      ensures stop != Next ==> mark.Unset?
    {
      hide Run, NewMessage, Flatten, DataItems, TrailingData;
      ghost var flat, was := Flatten(log), Pending(data[..p0], mark0);
      assert contentLength != 0 && contentLength != ABSENT;
      var toRead := if contentLength < |data| - p0 then contentLength else |data| - p0;
      mark := if mark0.Unset? then At(p0) else mark0;
      p := p0 + toRead;
      JumpIdentity(cfg, Snapshot(), data[p0..p]);
      PendingGrows(data, p0, p, mark0);
      Associative(flat, was, DataItems(data[p0..p]));
      contentLength := contentLength - toRead;
      stop := Next;
      if contentLength == 0 {
        state := MessageDone;
        CallbackBody(data[mark.start..p]);
        assert data[..p][mark.start..] == data[mark.start..p];
        mark := Unset;
        stop := OnMessageDone();
        Associative(flat + was, DataItems(data[p0..p]), [Notify(MessageComplete)]);
      }
    }

    method OnDataToEof(cfg: Config, ghost items: seq<Item>, data: seq<byte>, p0: nat, mark0: Mark)
      returns (p: nat, mark: Mark)
      requires p0 < |data| && state.BodyIdentityEof? && MarkOk(state, data[..p0], mark0)
      modifies this
      ensures p == |data|
      ensures var o := Run(cfg, old(Snapshot()), data[p0..p]);
              && o.stop == Next && o.used == p - p0
              && Advanced(o, old(Flatten(log)) + Pending(data[..p0], mark0), items, data[..p], mark)
    {
      hide Run, Flatten, DataItems, TrailingData;
      mark := if mark0.Unset? then At(p0) else mark0;
      p := |data|;
      Associative(Flatten(log), Pending(data[..p0], mark0), DataItems(data[p0..p]));
      JumpToEof(cfg, Snapshot(), data[p0..p]);
      PendingGrows(data, p0, p, mark0);
    }

    method OnChunkData(cfg: Config, ghost items: seq<Item>, data: seq<byte>, p0: nat, mark0: Mark)
      returns (p: nat, mark: Mark)
      requires p0 < |data| && state.ChunkData? && Inv(Snapshot()) && MarkOk(state, data[..p0], mark0)
      requires Trails(state, items, Pending(data[..p0], mark0))
      modifies this
      ensures p0 < p <= |data|
      ensures var o := Run(cfg, old(Snapshot()), data[p0..p]);
              && o.stop == Next && o.used == p - p0
              && Advanced(o, old(Flatten(log)) + Pending(data[..p0], mark0), items, data[..p], mark)
    {
      hide Run, Flatten, DataItems, TrailingData;
      assert flags.chunked;
      assert contentLength != 0 && contentLength != ABSENT;
      var toRead := if contentLength < |data| - p0 then contentLength else |data| - p0;
      mark := if mark0.Unset? then At(p0) else mark0;
      p := p0 + toRead;
      JumpChunkData(cfg, Snapshot(), data[p0..p]);
      TrailingDataGrows(items, data[p0..p]);
      PendingGrows(data, p0, p, mark0);
      Associative(Flatten(log), Pending(data[..p0], mark0), DataItems(data[p0..p]));
      contentLength := contentLength - toRead;
      if contentLength == 0 {
        state := ChunkDataAlmostDone;
      }
    }

    method OnChunkDataAlmostDone(cfg: Config, ghost items: seq<Item>, data: seq<byte>, p0: nat, mark0: Mark)
      returns (p: nat, mark: Mark, stop: Stop)
      requires p0 < |data| && state.ChunkDataAlmostDone? && Inv(Snapshot()) && MarkOk(state, data[..p0], mark0)
      requires Trails(state, items, Pending(data[..p0], mark0))
      modifies this
      ensures p <= |data|
      ensures var o := Run(cfg, old(Snapshot()), [data[p0]]);
              && stop == o.stop && p == p0 + o.used && (stop == Next ==> o.used == 1)
              && Advanced(o, old(Flatten(log)) + Pending(data[..p0], mark0), items, data[..p], mark)
      ensures stop != Next ==> stop == Error && state.ChunkDataAlmostDone?
    {
      hide Run;
      assert flags.chunked;
      assert contentLength == 0;
      var ch := data[p0];
      RunOne(cfg, Snapshot(), ch);
      if ch != CR {
        errno := Strict;
        assert items + [] == items;
        return p0, mark0, Error;
      }
      state := ChunkDataDone;
      if mark0.At? {
        assert data[..p0][mark0.start..] == data[mark0.start..p0];
        CallbackBody(data[mark0.start..p0]);
      }
      return p0 + 1, Unset, Next;
    }

    method OnOther(cfg: Config, ghost items: seq<Item>, data: seq<byte>, p0: nat) returns (p: nat, stop: Stop)
      requires p0 < |data| && Inv(Snapshot())
      requires !state.ChunkData? && !state.ChunkDataAlmostDone? && !state.BodyIdentity? && !state.BodyIdentityEof?
      modifies this
      ensures p <= |data|
      ensures var o := Run(cfg, old(Snapshot()), [data[p0]]);
              && stop == o.stop && p == p0 + o.used && (stop == Next ==> o.used == 1)
              && Advanced(o, old(Flatten(log)), items, data[..p], Unset)
    {
      hide Run, Dispatch, Inv, Advanced, Flatten;
      var ch := data[p0];
      ghost var c, before := Snapshot(), Flatten(log);
      RunOne(cfg, c, ch);
      StepKeepsInv(cfg, c, ch);
      Uncounted(c);
      if CountsAsHeader(state) {
        nread := (nread + 1) % TWO32;
        if nread > cfg.maxHeaderSize {
          errno := HeaderOverflow;
          assert before + [] == before;
          SteppedAlone(cfg, c, ch, before, items, data[..p0]);
          return p0, Error;
        }
      }
      stop := OnByte(cfg, ch);
      p := if stop == Next || stop == Exit then p0 + 1 else p0;
      SteppedAlone(cfg, c, ch, before, items, data[..p]);
    }

    /** A byte outside the runs of body data leaves nothing pending. */
    lemma SteppedAlone(cfg: Config, c: Core, ch: byte, before: seq<Item>, items: seq<Item>, done: seq<byte>)
      requires Inv(c) && !c.state.ChunkData? && !c.state.ChunkDataAlmostDone?
      requires Snapshot() == Step(cfg, c, ch).core && Flatten(log) == before + Step(cfg, c, ch).items
      ensures Advanced(Step(cfg, c, ch), before, items, done, Unset)
    {
      hide Step, Inv, Flatten;
      NotAlmostDone(cfg, c, ch);
    }

    ghost function Continued(r: Outcome, o: Outcome): Outcome {
      Outcome(o.core, r.items + o.items, o.stop, r.used + o.used)
    }

    /** One iteration of the loop: r is the run over the bytes before p0, q where the bytes looked at end. */
    method Iterate(cfg: Config, ghost r: Outcome, ghost seen: seq<Item>, data: seq<byte>, p0: nat, mark0: Mark)
      returns (p: nat, mark: Mark, stop: Stop, ghost q: nat)
      requires p0 < |data| && Inv(r.core) && r.stop == Next && Advanced(r, seen, [], data[..p0], mark0)
      modifies this
      ensures p <= |data| && p0 < q <= |data|
      ensures var o := Run(cfg, r.core, data[p0..q]);
              && stop == o.stop && p == p0 + o.used && (stop == Next ==> p == q)
              && Advanced(Continued(r, o), seen, [], data[..p], mark)
              && (stop != Next ==> Flatten(log) + LostData(Continued(r, o)) == seen + (r.items + o.items))
    {
      hide Run, Step, Flatten, DataItems, TrailingData;
      assert [] + r.items == r.items;
      p, mark, stop, q := p0, Unset, Next, p0 + 1;
      assert data[p0..q] == [data[p0]];
      if state.BodyIdentity? {
        p, mark, stop := OnIdentityData(cfg, r.items, data, p0, mark0);
        q := p;
      } else if state.BodyIdentityEof? {
        p, mark := OnDataToEof(cfg, r.items, data, p0, mark0);
        q := p;
      } else if state.ChunkData? {
        p, mark := OnChunkData(cfg, r.items, data, p0, mark0);
        q := p;
      } else if state.ChunkDataAlmostDone? {
        p, mark, stop := OnChunkDataAlmostDone(cfg, r.items, data, p0, mark0);
      } else {
        p, stop := OnOther(cfg, r.items, data, p0);
      }
      ghost var o := Run(cfg, r.core, data[p0..q]);
      AdvancedTwice(r, o, seen, data[..p], mark);
      if stop != Next {
        StoppedCall(Continued(r, o), seen, data[..p], mark);
      }
    }

    /**
     * One call with a non-empty buffer. Everything the application observes is the run's
     * items, except that body data still pending when the run fails is never handed over.
     */
    method Execute(cfg: Config, data: seq<byte>) returns (consumed: nat, stop: Stop)
      requires errno == Ok ==> Inv(Snapshot())
      requires data != []
      modifies this
      ensures old(errno) != Ok ==>
                consumed == 0 && stop == Error && Snapshot() == old(Snapshot()) && log == old(log)
      ensures old(errno) == Ok ==>
                var o := Run(cfg, old(Snapshot()), data);
                && Snapshot() == o.core && stop == o.stop && consumed == o.used
                && Flatten(log) + LostData(o) == old(Flatten(log)) + o.items
    {
      hide Run, Step, Flatten, DataItems, TrailingData;
      if errno != Ok {
        return 0, Error;
      }
      ghost var c0, seen := Snapshot(), Flatten(log);
      ghost var r := RunNothing(cfg, c0);
      var bodyMark := Unset;
      var p := 0;
      assert seen + [] == seen && [] + r.items == r.items == [];
      assert Pending(data[..p], bodyMark) == [];
      while p < |data|
        invariant 0 <= p <= |data|
        invariant r == Run(cfg, c0, data[..p]) && r.stop == Next && r.used == p
        invariant Advanced(r, seen, [], data[..p], bodyMark)
      {
        ghost var p0, q := p, p;
        RunKeepsInv(cfg, c0, data[..p]);
        p, bodyMark, stop, q := Iterate(cfg, r, seen, data, p, bodyMark);
        RunContinues(cfg, c0, data, p0, q);
        r := Continued(r, Run(cfg, r.core, data[p0..q]));
        if stop != Next {
          return p, stop;
        }
      }
      assert data[..p] == data;
      if bodyMark.At? {
        CallbackBody(data[bodyMark.start..]);
      }
      return |data|, Next;
    }

    /**
     * A whole stream in any non-empty buffers: the parser ends as if the stream had come in
     * one buffer, and unless it failed the application has observed the same.
     */
    method Feed(cfg: Config, pieces: seq<seq<byte>>) returns (stop: Stop)
      requires errno == Ok && Inv(Snapshot())
      requires forall i :: 0 <= i < |pieces| ==> pieces[i] != []
      modifies this
      ensures var o := Run(cfg, old(Snapshot()), Concat(pieces));
              && Snapshot() == o.core && stop == o.stop
              && (stop != Error ==> Flatten(log) == old(Flatten(log)) + o.items)
    {
      hide Run, Step, Flatten;
      ghost var c0, seen := Snapshot(), Flatten(log);
      ghost var r := RunNothing(cfg, c0);
      var i := 0;
      stop := Next;
      assert seen + [] == seen;
      while i < |pieces|
        invariant 0 <= i <= |pieces| && stop == r.stop
        invariant r == Run(cfg, c0, Concat(pieces[..i])) && Snapshot() == r.core && r.stop == Next
        invariant Flatten(log) == seen + r.items
      {
        ghost var o := Run(cfg, r.core, pieces[i]);
        RunKeepsInv(cfg, c0, Concat(pieces[..i]));
        RunSplit(cfg, c0, Concat(pieces[..i]), pieces[i]);
        ConcatPush(pieces, i);
        Associative(seen, r.items, o.items);
        var n;
        n, stop := Execute(cfg, pieces[i]);
        i := i + 1;
        r := Run(cfg, c0, Concat(pieces[..i]));
        if stop != Next {
          RunSplit(cfg, c0, Concat(pieces[..i]), Concat(pieces[i..]));
          return;
        }
      }
      assert pieces[..i] == pieces;
    }
  }
}
