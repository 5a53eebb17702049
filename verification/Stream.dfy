/**
 * SocketStream on top of ByteArray: scattering reads and gathering writes through views of the
 * blocks, and the loops that repeat partial transfers until a fixed size is reached.
 */
module Stream {
  import opened Bytes
  import opened Blocks
  import opened ByteArray

  /** No system call transfers more, so that its result fits in an int. */
  const MAX_TRANSFER := 0x7fff_f000

  /**
   * A connected socket as the stream sees it: the bytes the peer has yet to deliver, the bytes
   * sent so far, and how many bytes each coming system call is willing to transfer. Zero stands
   * for a closed connection, a negative value for an error.
   */
  class Socket {
    var connected: bool
    var incoming: seq<byte>
    var sent: seq<byte>
    var willing: seq<int>

    constructor (incoming: seq<byte>, willing: seq<int>)
      ensures connected && this.incoming == incoming && this.willing == willing && sent == []
    {
      connected, sent := true, [];
      this.incoming, this.willing := incoming, willing;
    }

    /** The result of the next system call over n bytes. */
    method Next(n: nat) returns (rt: int)
      modifies this`willing
      ensures -1 <= rt <= n && rt <= MAX_TRANSFER
    {
      if willing == [] {
        return 0;
      }
      var most := Min(n, MAX_TRANSFER);
      rt := if willing[0] < 0 then -1 else if willing[0] < most then willing[0] else most;
      willing := willing[1..];
    }

    /** sendmsg: any part of the gathered bytes, from the first one on. */
    method Send(iovs: seq<IoVec>) returns (rt: int)
      requires InBounds(iovs)
      modifies this`willing, this`sent
      ensures -1 <= rt <= |Gather(iovs)| && rt <= MAX_TRANSFER
      ensures sent == old(sent) + if rt > 0 then Gather(iovs)[..rt] else []
    {
      var bytes := Gather(iovs);
      rt := Next(|bytes|);
      if rt > 0 {
        sent := sent + bytes[..rt];
      }
    }
  }

  /**
   * What the fixed-size loops return for a length of which so much was transferred: the length as
   * an int if all of it was, the last call's result if not. From 2^63 on nothing is tried.
   */
  predicate FixSizeResult(length: u64, done: int, rt: int) {
    if length >= TWO64 / 2 then done == 0 && rt == Int32(length)
    else 0 <= done <= length && if done == length then rt == Int32(length) else rt == 0 || rt == -1
  }

  /** The result equals the length, or is positive, for success alone, exactly in these outcomes. */
  lemma ResultIsExact(length: u64, done: int, rt: int)
    requires FixSizeResult(length, done, rt)
    ensures (rt == length <==> done == length) <==> length < TWO32 / 2 || done != length
    ensures (rt > 0 <==> done == length) <==>
            if length < TWO64 / 2 then done != length || 0 < length % TWO32 < TWO32 / 2
            else !(0 < length % TWO32 < TWO32 / 2)
  {
  }

  /**
   * The lengths for which the result tells success from failure, whatever happens. Comparing it with the
   * length works below 2^31, and from 2^63 on, where nothing is transferred. Its sign works exactly if the
   * low 32 bits of the length are a positive int, or, from 2^63 on, if they are not.
   */
  lemma ResultIsTelling(length: u64)
    ensures (forall done, rt | FixSizeResult(length, done, rt) :: rt == length <==> done == length)
       <==> length < TWO32 / 2 || length >= TWO64 / 2
    ensures (forall done, rt | FixSizeResult(length, done, rt) :: rt > 0 <==> done == length)
       <==> (length < TWO64 / 2 <==> 0 < length % TWO32 < TWO32 / 2)
  {
    assert FixSizeResult(length, if length < TWO64 / 2 then length else 0, Int32(length));
  }

  /** Success that looks like failure: all of 2^31 bytes transferred is reported as a negative number. */
  lemma ResultIsTruncated(done: int, rt: int)
    requires FixSizeResult(TWO32 / 2, done, rt) && done == TWO32 / 2
    ensures rt == -(TWO32 / 2)
  {
  }

  /** Failure that looks like success: of 2^63 + 5 bytes none is transferred, and the result is 5. */
  lemma NothingLooksLikeSuccess(done: int, rt: int)
    requires FixSizeResult(TWO64 / 2 + 5, done, rt)
    ensures done == 0 && rt == 5
  {
  }

  class SocketStream {
    const socket: Socket

    constructor (s: Socket)
      ensures socket == s
    {
      socket := s;
    }

    /** SocketStream::write: sends part of the readable bytes and moves the cursor over it. */
    method Write(ba: ByteArray, length: nat) returns (rt: int)
      requires ba.Valid()
      modifies socket`willing, socket`sent, ba`position, ba`size, ba`cur
      ensures ba.Valid() && ba.Visible() == old(ba.Visible()) && ba.size == old(ba.size)
      ensures -1 <= rt <= Min(length, ba.size - old(ba.position)) && rt <= MAX_TRANSFER
      ensures ba.position == old(ba.position) + if rt > 0 then rt else 0
      ensures socket.sent == old(socket.sent) + ba.Visible()[old(ba.position)..ba.position]
    {
      hide ByteArray.Valid, Flat, Gather;
      ba.CursorInside();
      ghost var v, p := ba.Visible(), ba.position;
      assert v[p..p] == [];
      if !socket.connected {
        return -1;
      }
      var iovs, n := ba.GetReadBuffers(length);
      assert ba.Contents() == old(ba.Contents());
      assert Gather(iovs) == v[p..p + n];
      rt := socket.Send(iovs);
      assert ba.Contents() == old(ba.Contents());
      if rt > 0 {
        SlicePrefix(v, p, rt, n);
        ba.VisibleIsStore();
        var ok := ba.SetPosition(ba.position + rt);
        ba.VisibleIsStore();
        assert ba.Visible() == v;
      }
    }

    /** Stream::writeFixSize: all of the next length bytes are sent, once and in order, or the loop gives up. */
    method WriteFixSize(ba: ByteArray, length: u64) returns (rt: int)
      requires ba.Valid()
      modifies socket`willing, socket`sent, ba`position, ba`size, ba`cur
      ensures ba.Valid() && ba.Visible() == old(ba.Visible()) && ba.size == old(ba.size)
      ensures old(ba.position) <= ba.position
      ensures socket.sent == old(socket.sent) + ba.Visible()[old(ba.position)..ba.position]
      ensures FixSizeResult(length, ba.position - old(ba.position), rt)
    {
      hide ByteArray.Valid, ByteArray.Visible;
      ba.CursorInside();
      var left: int := Int64(length);
      assert ba.Visible()[ba.position..ba.position] == [];
      while left > 0
        invariant left < 0 ==> length >= TWO64 / 2 && ba.position == old(ba.position)
        invariant left >= 0 ==> length < TWO64 / 2 && left <= length && ba.position + left == old(ba.position) + length
        invariant ba.Valid() && ba.Visible() == old(ba.Visible()) && ba.size == old(ba.size)
        invariant ba.position <= ba.size
        invariant socket.sent == old(socket.sent) + ba.Visible()[old(ba.position)..ba.position]
      {
        ghost var p := ba.position;
        var len := Write(ba, left);
        assert ba.Visible()[old(ba.position)..ba.position]
            == ba.Visible()[old(ba.position)..p] + ba.Visible()[p..ba.position];
        ba.CursorInside();
        if len <= 0 {
          return len;
        }
        left := left - len;
      }
      return Int32(length);
    }

    /** SocketStream::read: receives at most length bytes straight into the blocks after the cursor. */
    method Read(ba: ByteArray, length: nat) returns (rt: int)
      requires ba.Valid()
      modifies socket`willing, socket`incoming
      modifies ba`position, ba`size, ba`capacity, ba`cur, ba`nodes, ba.nodes, ba.Arrays()
      ensures -1 <= rt <= length && rt <= |old(socket.incoming)| && rt <= MAX_TRANSFER
      ensures var got := if rt > 0 then old(socket.incoming)[..rt] else [];
              && ba.Valid() && ba.position == old(ba.position) + |got|
              && ba.Visible() == WriteAt(old(ba.Visible()), old(ba.position), got)
              && socket.incoming == old(socket.incoming)[|got|..]
      ensures old(ba.nodes) <= ba.nodes && ba.NewFrom(|old(ba.nodes)|)
    {
      hide ByteArray.Valid, Flat, WriteAt, Overwrite, ByteArray.CursorVectors;
      ba.CursorInside();
      WriteNothing(ba.Visible(), ba.position);
      ghost var v := ba.Visible();
      if !socket.connected {
        return -1;
      }
      var iovs := ba.GetWriteBuffers(length);
      ba.FrameGrows();
      ba.VisibleIsStore();
      ba.CursorInside();
      ba.StoreIsCapacity();
      ghost var store, all := ba.Store(), socket.incoming;
      rt := Recv(ba, iovs, length);
      if rt > 0 {
        VisibleAfterWrite(store, [], ba.size, ba.position, all[..rt]);
        assert store + [] == store;
        var ok := ba.SetPosition(ba.position + rt);
        ba.VisibleIsStore();
      } else {
        OverwriteNothing(store, ba.position);
        ba.VisibleIsStore();
        assert ba.Visible() == v;
      }
    }

    /** Socket::recv into the views: the kernel fills as much of them as it is willing to. */
    method Recv(ba: ByteArray, iovs: seq<IoVec>, length: nat) returns (rt: int)
      requires ba.Valid() && ba.position + length <= ba.capacity && iovs == ba.CursorVectors(length)
      requires ba.position + length <= |ba.Store()|
      modifies socket`willing, socket`incoming, ba.Arrays()
      ensures ba.Valid() && -1 <= rt <= length && rt <= |old(socket.incoming)| && rt <= MAX_TRANSFER
      ensures var got := if rt > 0 then old(socket.incoming)[..rt] else [];
              && ba.Store() == Overwrite(old(ba.Store()), ba.position, got)
              && socket.incoming == old(socket.incoming)[|got|..]
    {
      hide ByteArray.Valid, Flat, Overwrite, Start, BlockOf, OffsetOf, Vectors;
      OverwriteNothing(ba.Store(), ba.position);
      ghost var contents := ba.Contents();
      rt := socket.Next(Min(length, |socket.incoming|));
      assert ba.Contents() == contents;
      if rt > 0 {
        ba.Receive(iovs, socket.incoming[..rt], length);
        contents := ba.Contents();
        socket.incoming := socket.incoming[rt..];
        assert ba.Contents() == contents;
      }
    }

    /** Stream::readFixSize: what arrived is in the array after the cursor, in order, complete or not. */
    method ReadFixSize(ba: ByteArray, length: u64) returns (rt: int)
      requires ba.Valid()
      modifies socket`willing, socket`incoming
      modifies ba`position, ba`size, ba`capacity, ba`cur, ba`nodes, ba.nodes, ba.Arrays()
      ensures ba.Valid() && old(ba.position) <= ba.position
      ensures var n := ba.position - old(ba.position);
              && n <= |old(socket.incoming)| && socket.incoming == old(socket.incoming)[n..]
              && ba.Visible() == WriteAt(old(ba.Visible()), old(ba.position), old(socket.incoming)[..n])
      ensures FixSizeResult(length, ba.position - old(ba.position), rt)
    {
      hide ByteArray.Valid, ByteArray.Visible, WriteAt, ByteArray.Arrays;
      ba.CursorInside();
      ghost var v, p, all := ba.Visible(), ba.position, socket.incoming;
      WriteNothing(v, p);
      var left: int := Int64(length);
      while left > 0
        invariant left >= 0 ==> length < TWO64 / 2 && left <= length && ba.position + left == p + length
        invariant ba.Valid() && old(ba.nodes) <= ba.nodes && ba.NewFrom(|old(ba.nodes)|)
        invariant left < 0 ==> length >= TWO64 / 2 && ba.position == p && socket.incoming == all && ba.Visible() == v
        invariant left >= 0 ==> length - left <= |all| && socket.incoming == all[length - left..]
                                && ba.Visible() == WriteAt(v, p, all[..length - left])
      {
        ghost var n := length - left;
        ba.FrameGrows();
        ba.CursorInside();
        var len := Read(ba, left);
        ghost var got := if len > 0 then all[n..][..len] else [];
        WriteTwice(v, p, all[..n], got);
        assert all[..n] + got == all[..n + |got|];
        if len <= 0 {
          return len;
        }
        left := left - len;
      }
      return Int32(length);
    }
  }
}
