/**
 * ByteArray: a growable chain of equally sized blocks with a cached current block. Seen from
 * outside it is a flat byte sequence with a cursor; Valid ties the two together.
 */
module ByteArray {
  import opened Bits
  import opened Bytes
  import opened Blocks
  import opened Codec
  import opened Wrappers

  class Node {
    const ptr: array<byte>
    const size: nat
    var next: Node?

    constructor (s: nat)
      ensures ptr.Length == size == s && next == null && fresh(ptr)
    {
      ptr := new byte[s];
      size := s;
      next := null;
    }
  }

  /** The outcomes of a read: the source throws out_of_range, or dereferences a null current block. */
  datatype ReadResult = Bytes(bytes: seq<byte>) | OutOfRange | NullCurrent

  /** The outcomes of a typed read. */
  datatype ValueResult = Got(v: Value) | Failed | Crashed

  /** memcpy of src to the bytes of dst from at on. */
  method Memcpy(dst: array<byte>, at: nat, src: seq<byte>)
    requires at + |src| <= dst.Length
    modifies dst
    ensures dst[..] == Overwrite(old(dst[..]), at, src)
  {
    var i := 0;
    while i < |src|
      invariant i <= |src|
      invariant forall j | 0 <= j < dst.Length :: dst[j] == if at <= j < at + i then src[j - at] else old(dst[j])
    {
      dst[at + i] := src[i];
      i := i + 1;
    }
  }

  /** What the blocks of a chain hold. */
  ghost function ContentsOf(ns: seq<Node>): (c: seq<seq<byte>>)
    reads set n: Node | n in ns :: n.ptr
    ensures |c| == |ns| && forall i | 0 <= i < |ns| :: c[i] == ns[i].ptr[..]
  {
    if ns == [] then [] else [ns[0].ptr[..]] + ContentsOf(ns[1..])
  }

  lemma ContentsAppend(a: seq<Node>, b: seq<Node>)
    ensures ContentsOf(a + b) == ContentsOf(a) + ContentsOf(b)
  {
  }

  lemma NothingToAdd(n: int, base: nat)
    requires 0 < base
    ensures n <= 0 ==> ByteArray.CeilDiv(n, base) == 0
  {
  }

  lemma CeilDivCovers(n: int, base: nat, k: nat)
    requires 0 < base && 0 < n
    ensures 0 < ByteArray.CeilDiv(n, base)
    ensures Start(base, k) + n <= Start(base, k + ByteArray.CeilDiv(n, base)) < Start(base, k) + n + base
  {
    var c := (n + base - 1) / base;
    assert n <= c * base < n + base;
    assert (k + c) * base == k * base + c * base;
  }

  /** struct iovec: a stretch of one block. */
  datatype IoVec = IoVec(base: array<byte>, off: nat, len: nat)

  /** The vectors that cover n bytes from offset npos of block k on. */
  ghost function Vectors(ns: seq<Node>, base: nat, k: nat, npos: nat, n: nat): seq<IoVec>
    decreases |ns| - k
  {
    if n == 0 || k >= |ns| || npos > base then []
    else
      var m := Min(base - npos, n);
      [IoVec(ns[k].ptr, npos, m)] + Vectors(ns, base, k + 1, 0, n - m)
  }

  predicate InBounds(iovs: seq<IoVec>) {
    forall v | v in iovs :: v.off + v.len <= v.base.Length
  }

  /** What a gathering write sends. */
  function Gather(iovs: seq<IoVec>): (s: seq<byte>)
    requires InBounds(iovs)
    reads set v | v in iovs :: v.base
  {
    if iovs == [] then [] else iovs[0].base[iovs[0].off..iovs[0].off + iovs[0].len] + Gather(iovs[1..])
  }

  lemma VectorsStep(ns: seq<Node>, base: nat, k: nat, npos: nat, n: nat)
    requires 0 < n && k < |ns| && npos <= base
    ensures var m := Min(base - npos, n);
            Vectors(ns, base, k, npos, n) == [IoVec(ns[k].ptr, npos, m)] + Vectors(ns, base, k + 1, 0, n - m)
  {
  }

  lemma GatherStep(v: IoVec, rest: seq<IoVec>)
    requires v.off + v.len <= v.base.Length && InBounds(rest)
    ensures InBounds([v] + rest) && Gather([v] + rest) == v.base[v.off..v.off + v.len] + Gather(rest)
  {
    assert ([v] + rest)[1..] == rest;
  }

  /** The vectors of a stretch hold exactly the flat bytes of the stretch. */
  lemma {:induction false} VectorsHold(ns: seq<Node>, base: nat, k: nat, npos: nat, n: nat)
    requires forall i | 0 <= i < |ns| :: ns[i].ptr.Length == base
    requires n > 0 ==> k < |ns| && npos < base
    requires Start(base, k) + npos + n <= Start(base, |ns|) == |Flat(ContentsOf(ns))|
    ensures InBounds(Vectors(ns, base, k, npos, n))
    ensures Gather(Vectors(ns, base, k, npos, n))
         == Flat(ContentsOf(ns))[Start(base, k) + npos..Start(base, k) + npos + n]
    decreases |ns| - k
  {
    hide Start, Flat, ContentsOf, Vectors, Gather;
    GatherNothing();
    if n == 0 {
      NoVectors(ns, base, k, npos);
    } else {
      var m := Min(base - npos, n);
      var p := Start(base, k) + npos;
      var s := Flat(ContentsOf(ns));
      PartOfBlock(ContentsOf(ns), base, k, npos, m);
      Starts(base, k);
      BlockBound(base, |ns|, Start(base, k + 1));
      BlockOfStart(base, k + 1);
      if m == n {
        NoVectors(ns, base, k + 1, 0);
      } else {
        VectorsHold(ns, base, k + 1, 0, n - m);
      }
      VectorsStep(ns, base, k, npos, n);
      GatherStep(IoVec(ns[k].ptr, npos, m), Vectors(ns, base, k + 1, 0, n - m));
      SliceTwice(s, p, m, n);
    }
  }

  lemma NoVectors(ns: seq<Node>, base: nat, k: nat, npos: nat)
    ensures Vectors(ns, base, k, npos, 0) == []
  {
  }

  lemma SliceOfSlice(s: seq<byte>, p: nat, q: nat, n: nat)
    requires p <= q && q + n <= |s|
    ensures s[p..][q - p..q - p + n] == s[q..q + n]
  {
  }

  lemma SlicePrefix(s: seq<byte>, p: nat, m: nat, n: nat)
    requires m <= n && p + n <= |s|
    ensures s[p..p + n][..m] == s[p..p + m]
  {
  }

  lemma SliceTwice(s: seq<byte>, p: nat, m: nat, n: nat)
    requires m <= n && p + n <= |s|
    ensures s[p..p + n] == s[p..p + m] + s[p + m..p + n]
  {
  }

  lemma GatherNothing()
    ensures Gather([]) == []
  {
  }

  lemma WriteTwice(s: seq<byte>, p: nat, a: seq<byte>, b: seq<byte>)
    requires p <= |s|
    ensures p + |a| <= |WriteAt(s, p, a)|
    ensures WriteAt(WriteAt(s, p, a), p + |a|, b) == WriteAt(s, p, a + b)
  {
  }

  /** The first k values of the list can each be read back by themselves. */
  predicate Readable(vs: seq<Value>, k: nat)
    requires k <= |vs|
  {
    forall j | 0 <= j < k :: ValueOk(vs[j])
  }

  /** A string that is too long for its prefix is not what is read. */
  lemma TooLong(v: Value, s: seq<byte>, little: bool)
    requires Writable(v) && !ValueOk(v)
    ensures var d := Decode(KindOf(v), s, little);
            d.Decoded? ==> d.v != v
  {
    hide Decode;
    DecodedFits(v.p, s, little);
  }

  /** The list ends with an empty string that fills the last block: reading it looks beyond. */
  predicate EndsAtBlockEnd(vs: seq<Value>, little: bool, base: nat)
    requires 0 < base
  {
    vs != [] && vs[|vs| - 1].Str? && vs[|vs| - 1].s == [] && OffsetOf(base, |EncodeAll(vs, little)|) == 0
  }

  /** An empty string with a 16-bit length, in an array of blocks of two bytes, is such a list. */
  lemma EmptyStringFillsABlock(little: bool)
    ensures EndsAtBlockEnd([Str(P16, [])], little, 2)
  {
    var vs := [Str(P16, [])];
    assert vs[..0] == [];
    assert EncodeAll(vs, little) == EncodeAll([], little) + Encode(vs[0], little);
    assert |EncodePrefix(P16, 0, little)| == 2;
  }

  /** The low seven bits with the continuation bit, which is above them. */
  function HighBit(v: nat): (b: byte)
    ensures b == v % 128 + 128
  {
    assert Pow2(7) == 128;
    OrIsPlus(v % 128, 1, 7);
    Or(v % 128, 128)
  }

  lemma NothingEncoded(little: bool)
    ensures EncodeAll([], little) == []
    ensures forall base: nat | 0 < base :: !EndsAtBlockEnd([], little, base)
  {
  }

  lemma KindsAreOk(v: Value)
    requires Writable(v)
    ensures KindOk(KindOf(v))
  {
  }

  class ByteArray {
    const baseSize: nat
    var position: nat
    var capacity: nat
    var size: nat
    var littleEndian: bool
    var root: Node
    var cur: Node?

    /** The blocks in chain order. */
    ghost var nodes: seq<Node>

    ghost function Arrays(): set<array<byte>>
      reads this`nodes
    {
      set n: Node | n in nodes :: n.ptr
    }

    ghost function NodeAt(k: nat): Node?
      reads this`nodes
    {
      if k < |nodes| then nodes[k] else null
    }

    /** The chain from root on is exactly nodes, and no two of them share anything. */
    ghost predicate Chain()
      reads this`root, this`nodes, nodes
    {
      && 0 < baseSize && nodes != [] && root == nodes[0]
      && (forall i | 0 <= i < |nodes| ::
            nodes[i].size == nodes[i].ptr.Length == baseSize && nodes[i].next == NodeAt(i + 1))
      && (forall i, j | 0 <= i < |nodes| && 0 <= j < |nodes| && nodes[i].ptr == nodes[j].ptr :: i == j)
    }

    ghost predicate Valid()
      reads this, nodes
    {
      && Chain()
      && capacity == Start(baseSize, |nodes|)
      && position <= size <= capacity
      && cur == NodeAt(BlockOf(baseSize, position))
    }

    ghost function Contents(): seq<seq<byte>>
      reads this`nodes, Arrays()
    {
      ContentsOf(nodes)
    }

    /** Every byte the blocks hold, including those beyond size. */
    ghost function Store(): seq<byte>
      reads this`nodes, Arrays()
    {
      Flat(Contents())
    }

    /** The flat byte sequence the class stands for. */
    ghost function Visible(): (v: seq<byte>)
      requires Valid()
      reads this, nodes, Arrays()
      ensures |v| == size
    {
      StoreLength();
      Store()[..size]
    }

    lemma StoreLength()
      requires Chain()
      ensures |Store()| == Start(baseSize, |nodes|) && AllOf(Contents(), baseSize)
    {
      FlatLength(Contents(), baseSize);
    }

    /** The current block is null exactly when the cursor is at the capacity. */
    lemma NullExactlyAtCapacity()
      requires Valid()
      ensures cur == null <==> position == capacity
    {
      hide BlockOf, Start;
      BlockBound(baseSize, |nodes|, position);
    }

    constructor (base: nat)
      requires 0 < base
      ensures Valid() && (forall n | n in nodes :: fresh(n)) && (forall a | a in Arrays() :: fresh(a))
      ensures baseSize == base && position == size == 0 && capacity == base && !littleEndian
    {
      baseSize := base;
      position, size, capacity, littleEndian := 0, 0, base, false;
      var node := new Node(base);
      root := node;
      cur := node;
      nodes := [node];
    }

    function GetReadSize(): nat
      requires position <= size
      reads this
    {
      size - position
    }

    /** memcpy into block k. */
    method CopyInto(dst: array<byte>, ghost k: nat, npos: nat, src: seq<byte>)
      requires Chain() && k < |nodes| && dst == nodes[k].ptr && npos + |src| <= baseSize
      modifies dst
      ensures |Store()| == |old(Store())| && Start(baseSize, k) + npos + |src| <= |Store()|
      ensures Store() == Overwrite(old(Store()), Start(baseSize, k) + npos, src)
    {
      hide Flat, Start, Overwrite;
      ghost var was := Contents();
      StoreLength();
      Memcpy(dst, npos, src);
      StoreLength();
      forall i | 0 <= i < |nodes|
        ensures Contents()[i] == was[k := Overwrite(was[k], npos, src)][i]
      {
        if i != k { assert nodes[i].ptr != dst; }
      }
      assert Contents() == was[k := Overwrite(was[k], npos, src)];
      PatchBlock(was, baseSize, k, npos, src);
    }

    /** tmp->next = new Node(m_baseSize), at the end of the chain. */
    method AppendNode(tmp: Node) returns (node: Node)
      requires Chain() && tmp == nodes[|nodes| - 1]
      modifies tmp`next, this`nodes
      ensures Chain() && nodes == old(nodes) + [node]
      ensures fresh(node) && fresh(node.ptr) && tmp.next == node
      ensures old(Contents()) <= Contents()
    {
      hide ContentsOf, Start, BlockOf, Flat;
      node := new Node(baseSize);
      tmp.next := node;
      nodes := nodes + [node];
      ContentsAppend(old(nodes), [node]);
      forall i | 0 <= i < |nodes|
        ensures nodes[i].size == nodes[i].ptr.Length == baseSize && nodes[i].next == NodeAt(i + 1)
      {
        if i + 2 < |nodes| { assert nodes[i] == old(nodes)[i] && nodes[i] != tmp; }
      }
      forall i, j | 0 <= i < |nodes| && 0 <= j < |nodes| && nodes[i].ptr == nodes[j].ptr
        ensures i == j
      {
        if i + 1 < |nodes| && j + 1 < |nodes| { assert nodes[i] == old(nodes)[i] && nodes[j] == old(nodes)[j]; }
      }
    }

    method LastNode() returns (tmp: Node)
      requires Chain()
      ensures tmp == nodes[|nodes| - 1]
    {
      tmp := root;
      ghost var t := 0;
      while tmp.next != null
        invariant t < |nodes| && tmp == nodes[t]
        decreases |nodes| - t
      {
        tmp := tmp.next;
        t := t + 1;
      }
    }

    /** Every block beyond the first n is new since the call began. */
    twostate predicate NewFrom(n: nat)
      reads this
    {
      forall j | n <= j < |nodes| :: fresh(nodes[j]) && fresh(nodes[j].ptr)
    }

    /** Since the call began, d was written at the cursor. */
    twostate predicate Wrote(d: seq<byte>)
      requires old(Valid())
      reads this, nodes, Arrays()
    {
      && Valid() && old(nodes) <= nodes && NewFrom(|old(nodes)|)
      && position == old(position) + |d|
      && Visible() == WriteAt(old(Visible()), old(position), d)
      && (capacity == old(capacity) || capacity < position + baseSize)
      && littleEndian == old(littleEndian)
    }

    /** What a call may change later on is what it could change from the start, or new. */
    twostate lemma FrameGrows()
      requires old(nodes) <= nodes && NewFrom(|old(nodes)|)
      ensures forall a | a in Arrays() :: a in old(Arrays()) || fresh(a)
      ensures forall n | n in nodes :: n in old(nodes) || fresh(n)
    {
    }

    lemma ChainFacts()
      requires Chain()
      ensures 0 < baseSize && nodes != [] && root == nodes[0]
    {
    }

    /** The loop that appends count blocks; first is the first of them, if any. */
    method AppendNodes(count: nat) returns (first: Node?)
      requires Chain() && capacity == Start(baseSize, |nodes|)
      modifies this`capacity, this`nodes, nodes
      ensures Chain() && capacity == Start(baseSize, |nodes|)
      ensures old(nodes) <= nodes && |nodes| == |old(nodes)| + count && NewFrom(|old(nodes)|)
      ensures old(Contents()) <= Contents()
      ensures first == if count == 0 then null else nodes[|old(nodes)|]
    {
      hide Start, ContentsOf, Chain;
      ChainFacts();
      ghost var n0 := nodes;
      var tmp := LastNode();
      first := null;
      var i := 0;
      while i < count
        invariant i <= count && Chain() && nodes != [] && tmp == nodes[|nodes| - 1]
        invariant n0 <= nodes && |nodes| == |n0| + i && capacity == Start(baseSize, |nodes|)
        invariant NewFrom(|n0|)
        invariant old(Contents()) <= Contents()
        invariant first == if i == 0 then null else nodes[|n0|]
      {
        Starts(baseSize, |nodes|);
        var node := AppendNode(tmp);
        if first == null {
          first := node;
        }
        tmp := node;
        capacity := capacity + baseSize;
        i := i + 1;
      }
    }

    /** The capacity grows by whole blocks until n bytes fit after the cursor. */
    method AddCapacity(n: nat)
      requires Valid()
      modifies this`capacity, this`cur, this`nodes, nodes
      ensures Valid() && old(nodes) <= nodes && NewFrom(|old(nodes)|)
      ensures position + n <= capacity
      ensures old(Contents()) <= Contents()
      ensures |nodes| == |old(nodes)| + CeilDiv(n - (old(capacity) - position), baseSize)
      ensures capacity == old(capacity) || capacity < position + n + baseSize
    {
      hide Start, BlockOf, ContentsOf, CeilDiv, Chain;
      ChainFacts();
      NothingToAdd(n - (capacity - position), baseSize);
      if n == 0 {
        return;
      }
      var oldCap := capacity - position;
      if oldCap >= n {
        return;
      }
      var count := CeilDiv(n - oldCap, baseSize);
      CeilDivCovers(n - oldCap, baseSize, |nodes|);
      ghost var n0 := |nodes|;
      BlockBound(baseSize, n0, position);
      var first := AppendNodes(count);
      if oldCap == 0 {
        cur := first;
        BlockOfStart(baseSize, n0);
      }
    }

    lemma ChainAt(k: nat)
      requires Chain() && k < |nodes|
      ensures nodes[k].size == nodes[k].ptr.Length == baseSize && nodes[k].next == NodeAt(k + 1)
    {
    }

    /** The block after block k, when the position reaches its end. */
    lemma NextBlock(k: nat)
      requires Chain() && k < |nodes|
      ensures Start(baseSize, k + 1) == Start(baseSize, k) + baseSize
      ensures BlockOf(baseSize, Start(baseSize, k + 1)) == k + 1
      ensures Start(baseSize, k + 1) < Start(baseSize, |nodes|) <==> k + 1 < |nodes|
    {
      hide BlockOf;
      Starts(baseSize, k);
      BlockOfStart(baseSize, k + 1);
      BlockBound(baseSize, |nodes|, Start(baseSize, k + 1));
    }

    /** The cursor stands at offset npos of block k. */
    ghost predicate At(k: nat, npos: nat)
      reads this`nodes, this`cur, this`position
    {
      k < |nodes| && cur == nodes[k] && position == Start(baseSize, k) + npos && npos < baseSize
    }

    /** Where the cursor stands, below the capacity. */
    lemma AtCursor()
      requires Valid() && position < capacity
      ensures At(BlockOf(baseSize, position), OffsetOf(baseSize, position))
    {
      hide BlockOf, OffsetOf, Start, Chain;
      ChainFacts();
      Locate(baseSize, position);
      BlockBound(baseSize, |nodes|, position);
    }

    /** The cursor moves by n bytes within its block, and on to the next block at its end. */
    method StepOver(ghost k: nat, npos: nat, n: nat)
      requires Chain() && At(k, npos) && npos + n <= baseSize
      modifies this`position, this`cur
      ensures position == old(position) + n && cur == NodeAt(BlockOf(baseSize, position))
      ensures npos + n == baseSize ==>
                position == Start(baseSize, k + 1) && cur == NodeAt(k + 1)
                && (position < Start(baseSize, |nodes|) ==> At(k + 1, 0))
    {
      hide BlockOf, Start, Chain;
      ChainFacts();
      ChainAt(k);
      NextBlock(k);
      if cur.size == npos + n {
        cur := cur.next;
      } else {
        Position(baseSize, k, npos + n);
      }
      position := position + n;
    }

    lemma AtBlock(k: nat, npos: nat)
      requires Chain() && At(k, npos)
      ensures cur != null && k < |nodes| && cur == nodes[k] && cur.size == cur.ptr.Length == baseSize
      ensures npos < baseSize && position == Start(baseSize, k) + npos && cur.ptr in Arrays()
    {
      ChainAt(k);
    }

    /** One piece of a write: copied into the current block, and the cursor moved past it. */
    method CopyPiece(ghost k: nat, npos: nat, piece: seq<byte>)
      requires Chain() && At(k, npos) && npos + |piece| <= baseSize
      modifies this`position, this`cur, Arrays()
      ensures Chain() && position == old(position) + |piece| && cur == NodeAt(BlockOf(baseSize, position))
      ensures npos + |piece| == baseSize && position < Start(baseSize, |nodes|) ==> At(k + 1, 0)
      ensures |Store()| == |old(Store())| && position <= |Store()|
      ensures Store() == Overwrite(old(Store()), old(position), piece)
    {
      hide Start, BlockOf, Flat, ContentsOf, Overwrite, Chain, At, Arrays;
      AtBlock(k, npos);
      CopyInto(cur.ptr, k, npos, piece);
      StepOver(k, npos, |piece|);
    }

    /** The copying loop of write, once the capacity suffices. */
    method WriteLoop(buf: seq<byte>)
      requires Valid() && position + |buf| <= capacity && buf != []
      requires position + |buf| <= |Store()|
      modifies this`position, this`cur, Arrays()
      ensures Chain() && position == old(position) + |buf| && cur == NodeAt(BlockOf(baseSize, position))
      ensures Store() == Overwrite(old(Store()), old(position), buf)
    {
      hide Start, BlockOf, OffsetOf, Flat, ContentsOf, Overwrite, Chain, Arrays, At, Contents;
      ChainFacts();
      AtCursor();
      ghost var p0, store0 := position, Store();
      ghost var k: nat := BlockOf(baseSize, position);
      AtBlock(k, OffsetOf(baseSize, position));
      var left: nat := |buf|;
      var npos: nat := OffsetOf(baseSize, position);
      var ncap: nat := cur.size - npos;
      var bpos: nat := 0;
      OverwriteNothing(store0, p0);
      while left > 0
        invariant left + bpos == |buf| && position == p0 + bpos && Chain()
        invariant left > 0 ==> At(k, npos) && ncap + npos == baseSize
        invariant cur == NodeAt(BlockOf(baseSize, position))
        invariant |Store()| == |store0| && Store() == Overwrite(store0, p0, buf[..bpos])
        decreases left
      {
        ghost var done := buf[..bpos];
        AtBlock(k, npos);
        if ncap >= left {
          assert buf == done + buf[bpos..];
          OverwriteTwice(store0, p0, done, buf[bpos..]);
          CopyPiece(k, npos, buf[bpos..]);
          bpos := bpos + left;
          left := 0;
          assert buf[..bpos] == buf;
        } else {
          ghost var piece := buf[bpos..bpos + ncap];
          OverwriteTwice(store0, p0, done, piece);
          CopyPiece(k, npos, buf[bpos..bpos + ncap]);
          bpos := bpos + ncap;
          left := left - ncap;
          assert done + piece == buf[..bpos];
          k := k + 1;
          AtBlock(k, 0);
          ncap := cur.size;
          npos := 0;
        }
      }
      assert buf[..bpos] == buf;
    }

    lemma InArrays(k: nat)
      requires k < |nodes|
      ensures nodes[k].ptr in Arrays()
    {
    }

    /** Writing replaces the bytes after the cursor, growing the array as needed, and moves the cursor past them. */
    method Write(buf: seq<byte>)
      requires Valid()
      modifies this`position, this`size, this`capacity, this`cur, this`nodes, nodes, Arrays()
      ensures Wrote(buf)
    {
      hide Start, BlockOf, Flat, ContentsOf, Overwrite, Chain, WriteAt, Arrays;
      if buf == [] {
        WriteNothing(Visible(), position);
        return;
      }
      ghost var contents0 := Contents();
      StoreLength();
      AddCapacity(|buf|);
      Grown(contents0, Contents());
      StoreLength();
      VisibleAfterWrite(Flat(contents0), Flat(Contents()[|contents0|..]), size, position, buf);
      FrameGrows();
      WriteLoop(buf);
      StoreLength();
      if position > size {
        size := position;
      }
    }

    /** Reading returns the bytes after the cursor and moves it past them, or fails without effect. */
    method Read(n: nat) returns (r: ReadResult)
      requires Valid()
      modifies this`position, this`cur
      ensures Valid()
      ensures r == OutOfRange <==> n > size - old(position)
      ensures r == NullCurrent <==> n == 0 && old(position) == capacity
      ensures r.Bytes? ==>
                && position == old(position) + n <= size
                && r.bytes == Visible()[old(position)..position]
      ensures !r.Bytes? ==> position == old(position)
      ensures Visible() == old(Visible())
    {
      hide Start, BlockOf, OffsetOf, Flat, ContentsOf, Chain;
      if n > GetReadSize() {
        return OutOfRange;
      }
      NullExactlyAtCapacity();
      if cur == null {
        return NullCurrent;
      }
      AtCursor();
      StoreLength();
      ghost var p0 := position;
      ghost var k: nat := BlockOf(baseSize, position);
      var left: nat := n;
      var npos: nat := OffsetOf(baseSize, position);
      AtBlock(k, npos);
      var ncap: nat := cur.size - npos;
      var buf: seq<byte> := [];
      while left > 0
        invariant left + |buf| == n && position == p0 + |buf|
        invariant left > 0 ==> At(k, npos) && ncap + npos == baseSize
        invariant cur == NodeAt(BlockOf(baseSize, position))
        invariant buf == Store()[p0..p0 + |buf|]
      {
        if ncap >= left {
          buf := ReadPiece(buf, p0, k, npos, left);
          left := 0;
        } else {
          buf := ReadPiece(buf, p0, k, npos, ncap);
          left := left - ncap;
          k := k + 1;
          AtBlock(k, 0);
          ncap := cur.size;
          npos := 0;
        }
      }
      return Bytes(buf);
    }

    /** One piece of a read: appended to what was read since p0, and the cursor moved past it. */
    method ReadPiece(buf0: seq<byte>, ghost p0: nat, ghost k: nat, npos: nat, n: nat) returns (buf: seq<byte>)
      requires Chain() && At(k, npos) && npos + n <= baseSize
      requires position == p0 + |buf0| <= |Store()| && buf0 == Store()[p0..position]
      modifies this`position, this`cur
      ensures position == old(position) + n && cur == NodeAt(BlockOf(baseSize, position))
      ensures npos + n == baseSize && position < Start(baseSize, |nodes|) ==> At(k + 1, 0)
      ensures position == p0 + |buf| <= |Store()| && buf == Store()[p0..position]
    {
      hide Start, BlockOf, Flat, ContentsOf, Chain, At;
      AtBlock(k, npos);
      StoreLength();
      PartOfBlock(Contents(), baseSize, k, npos, n);
      buf := buf0 + cur.ptr[npos..npos + n];
      assert Store()[p0..position + n] == Store()[p0..position] + Store()[position..position + n];
      StepOver(k, npos, n);
    }

    /** The search for the block of a position. */
    method Seek(v0: nat)
      requires Chain() && v0 <= Start(baseSize, |nodes|)
      modifies this`cur
      ensures cur == NodeAt(BlockOf(baseSize, v0))
    {
      hide Start, BlockOf, Chain;
      ChainFacts();
      var v: nat := v0;
      cur := root;
      ghost var k: nat := 0;
      Starts(baseSize, 0);
      ChainAt(0);
      while v > cur.size
        invariant k < |nodes| && cur == nodes[k] && cur.size == baseSize && v + Start(baseSize, k) == v0
        decreases v
      {
        ChainAt(k);
        NextBlock(k);
        v := v - cur.size;
        cur := cur.next;
        k := k + 1;
        ChainAt(k);
      }
      ChainAt(k);
      NextBlock(k);
      if v == cur.size {
        cur := cur.next;
      } else {
        Position(baseSize, k, v);
      }
    }

    /** Positioning may extend the visible bytes; beyond the capacity it throws out_of_range without effect. */
    method SetPosition(v0: nat) returns (ok: bool)
      requires Valid()
      modifies this`position, this`size, this`cur
      ensures Valid()
      ensures ok <==> v0 <= capacity
      ensures ok ==> position == v0 && size == if v0 > old(size) then v0 else old(size)
      ensures ok ==> old(Visible()) <= Visible()
      ensures Store() == old(Store())
      ensures !ok ==> position == old(position) && size == old(size) && cur == old(cur)
    {
      hide Start, BlockOf, Flat, ContentsOf, Chain;
      if v0 > capacity {
        return false;
      }
      StoreLength();
      position := v0;
      if position > size {
        size := position;
      }
      Seek(v0);
      return true;
    }

    /** Everything is forgotten but the first block. */
    method Clear()
      requires Valid()
      modifies this`position, this`size, this`capacity, this`cur, this`nodes, root
      ensures Valid() && nodes == old(nodes)[..1]
      ensures position == size == 0 && capacity == baseSize && Visible() == []
    {
      hide BlockOf, Flat;
      ChainFacts();
      position, size := 0, 0;
      capacity := baseSize;
      cur := root;
      root.next := null;
      nodes := nodes[..1];
      Starts(baseSize, 0);
      BlockOfStart(baseSize, 0);
    }

    /** The vectors of n bytes from the cursor on. */
    ghost function CursorVectors(n: nat): seq<IoVec>
      requires 0 < baseSize
      reads this`nodes, this`position
    {
      Vectors(nodes, baseSize, BlockOf(baseSize, position), OffsetOf(baseSize, position), n)
    }

    /** The loop shared by getReadBuffers and getWriteBuffers. */
    method CollectVectors(n: nat) returns (buffers: seq<IoVec>)
      requires Valid() && position + n <= capacity && n > 0
      ensures buffers == CursorVectors(n)
    {
      hide Start, BlockOf, OffsetOf, Chain;
      ChainFacts();
      AtCursor();
      ghost var k: nat := BlockOf(baseSize, position);
      var npos: nat := OffsetOf(baseSize, position);
      ChainAt(k);
      var ncap: nat := cur.size - npos;
      var node := cur;
      var left: nat := n;
      buffers := [];
      while left > 0
        invariant left <= n
        invariant left > 0 ==>
                    k < |nodes| && node == nodes[k] && npos < baseSize && ncap == baseSize - npos
                    && Start(baseSize, k) + npos + left == position + n
        invariant buffers + Vectors(nodes, baseSize, k, npos, left) == CursorVectors(n)
      {
        ChainAt(k);
        NextBlock(k);
        ghost var m := Min(ncap, left);
        ghost var rest := Vectors(nodes, baseSize, k + 1, 0, left - m);
        assert buffers + ([IoVec(nodes[k].ptr, npos, m)] + rest) == buffers + [IoVec(nodes[k].ptr, npos, m)] + rest;
        if ncap >= left {
          buffers := buffers + [IoVec(node.ptr, npos, left)];
          left := 0;
        } else {
          buffers := buffers + [IoVec(node.ptr, npos, ncap)];
          left := left - ncap;
          node := node.next;
          ChainAt(k + 1);
          ncap := node.size;
          npos := 0;
        }
        k := k + 1;
      }
    }

    /** Views of the readable bytes after the cursor, at most len of them. */
    method GetReadBuffers(len: nat) returns (buffers: seq<IoVec>, n: nat)
      requires Valid()
      ensures n == Min(len, size - position) && InBounds(buffers)
      ensures forall v | v in buffers :: v.base in Arrays()
      ensures Gather(buffers) == Visible()[position..position + n]
    {
      hide Start, BlockOf, OffsetOf, Chain, Flat, ContentsOf, Vectors, Gather;
      n := if len > GetReadSize() then GetReadSize() else len;
      GatherNothing();
      CursorInside();
      if n == 0 {
        assert Visible()[position..position] == [];
        return [], 0;
      }
      buffers := CollectVectors(n);
      CursorVectorsHold(n);
      VisibleIsStore();
      assert Store()[..size][position..position + n] == Store()[position..position + n];
    }

    /** Views of n bytes after the cursor, which the caller fills before moving the cursor over them. */
    method GetWriteBuffers(n: nat) returns (buffers: seq<IoVec>)
      requires Valid()
      modifies this`capacity, this`cur, this`nodes, nodes
      ensures Valid() && old(nodes) <= nodes && NewFrom(|old(nodes)|)
      ensures Visible() == old(Visible())
      ensures position + n <= capacity && buffers == CursorVectors(n)
    {
      hide Start, BlockOf, OffsetOf, Flat, ContentsOf, Chain;
      ChainFacts();
      if n == 0 {
        return [];
      }
      ghost var contents0 := Contents();
      StoreLength();
      AddCapacity(n);
      Grown(contents0, Contents());
      StoreLength();
      buffers := CollectVectors(n);
    }

    lemma CursorVectorsHold(n: nat)
      requires Valid() && position + n <= capacity && n > 0
      ensures var vs := CursorVectors(n);
              && InBounds(vs) && (forall v | v in vs :: v.base in Arrays())
              && position + n <= |Store()| && Gather(vs) == Store()[position..position + n]
    {
      hide Start, BlockOf, OffsetOf, Flat, ContentsOf, Vectors, Gather;
      AtCursor();
      StoreLength();
      VectorsHold(nodes, baseSize, BlockOf(baseSize, position), OffsetOf(baseSize, position), n);
      VectorsInArrays(BlockOf(baseSize, position), OffsetOf(baseSize, position), n);
    }

    lemma {:induction false} VectorsInArrays(k: nat, npos: nat, n: nat)
      ensures forall v | v in Vectors(nodes, baseSize, k, npos, n) :: v.base in Arrays()
      decreases |nodes| - k
    {
      if n != 0 && k < |nodes| && npos <= baseSize {
        VectorsInArrays(k + 1, 0, n - Min(baseSize - npos, n));
      }
    }

    /** A scattering read: data fills the vectors from the first one on. */
    method Fill(iovs: seq<IoVec>, data: seq<byte>, ghost k: nat, ghost npos: nat, ghost n: nat)
      requires Chain() && iovs == Vectors(nodes, baseSize, k, npos, n) && |data| <= n
      requires data != [] ==> k < |nodes| && npos < baseSize
      requires Start(baseSize, k) + npos + n <= Start(baseSize, |nodes|) == |Store()|
      modifies Arrays()
      ensures Chain() && |Store()| == |old(Store())|
      ensures Store() == Overwrite(old(Store()), Start(baseSize, k) + npos, data)
      decreases |data|
    {
      hide Start, BlockOf, Flat, ContentsOf, Overwrite, Chain, Arrays, Contents;
      ghost var p, store0 := Start(baseSize, k) + npos, Store();
      OverwriteNothing(store0, p);
      if data == [] {
        return;
      }
      ChainAt(k);
      InArrays(k);
      var m := Min(iovs[0].len, |data|);
      assert data[..m] + data[m..] == data;
      OverwriteTwice(store0, p, data[..m], data[m..]);
      CopyInto(iovs[0].base, k, iovs[0].off, data[..m]);
      if m == |data| {
        assert data[..m] == data;
        return;
      }
      NextBlock(k);
      Fill(iovs[1..], data[m..], k + 1, 0, n - iovs[0].len);
    }

    /** The readable bytes, without moving the cursor. */
    method ToString() returns (str: seq<byte>)
      requires Valid()
      ensures str == Visible()[position..]
    {
      hide Start, BlockOf, OffsetOf, Flat, ContentsOf, Chain;
      StoreLength();
      var left: nat := GetReadSize();
      str := [];
      if left == 0 {
        return;
      }
      ChainFacts();
      AtCursor();
      ghost var k: nat := BlockOf(baseSize, position);
      var npos: nat := OffsetOf(baseSize, position);
      ChainAt(k);
      var ncap: nat := cur.size - npos;
      var node := cur;
      while left > 0
        invariant left + |str| == size - position
        invariant left > 0 ==>
                    k < |nodes| && node == nodes[k] && npos < baseSize && ncap == baseSize - npos
                    && Start(baseSize, k) + npos == position + |str|
        invariant str == Store()[position..position + |str|]
        decreases left
      {
        ghost var p := position + |str|;
        ChainAt(k);
        NextBlock(k);
        var m := if ncap >= left then left else ncap;
        PartOfBlock(Contents(), baseSize, k, npos, m);
        SliceTwice(Store(), position, |str|, |str| + m);
        str := str + node.ptr[npos..npos + m];
        left := left - m;
        if left > 0 {
          node := node.next;
          ChainAt(k + 1);
          ncap := node.size;
          npos := 0;
        }
        k := k + 1;
      }
    }

    // ----- Typed writers -----

    /** writeFint8 to writeFuint64; value has been converted to the unsigned type of n bytes. */
    method WriteFixed(hostLittle: bool, value: nat, n: nat)
      requires Valid() && 0 < n && value < Pow256(n)
      modifies this`position, this`size, this`capacity, this`cur, this`nodes, nodes, Arrays()
      ensures Wrote(EndianBytes(value, n, littleEndian))
    {
      hide Valid, Wrote, Chain, Visible, Pow256, LittleBytes, Reverse, FromLittle;
      StoredOrder(value, n, littleEndian, hostLittle);
      var v := value;
      if littleEndian != hostLittle {
        v := ByteSwap(v, n);
      }
      Write(InMemory(v, n, hostLittle));
    }

    /** writeUint32 and writeUint64: the bytes are collected in a temporary array first. */
    method WriteVint(value: nat)
      requires Valid()
      modifies this`position, this`size, this`capacity, this`cur, this`nodes, nodes, Arrays()
      ensures Wrote(VintBytes(value))
    {
      hide Valid, Wrote, Chain, Visible, Or;
      var v := value;
      var tmp: seq<byte> := [];
      while v >= 0x80
        modifies {}
        invariant VintBytes(value) == tmp + VintBytes(v)
      {
        tmp := tmp + [HighBit(v)];
        v := v / 128;
      }
      tmp := tmp + [v];
      Write(tmp);
    }

    /** The length of a string, converted to the prefix's type. */
    method WritePrefix(hostLittle: bool, p: Prefix, len: nat)
      requires Valid()
      modifies this`position, this`size, this`capacity, this`cur, this`nodes, nodes, Arrays()
      ensures Wrote(EncodePrefix(p, len, littleEndian))
    {
      hide Valid, Wrote, Visible, Pow256, VintBytes, EndianBytes;
      if p == PVint {
        WriteVint(len);
      } else {
        WriteFixed(hostLittle, len % Pow256(PrefixSize(p)), PrefixSize(p));
      }
    }

    /** writeStringF16, F32, F64 and Vint: the length and then the bytes. */
    method WriteString(hostLittle: bool, p: Prefix, s: seq<byte>)
      requires Valid()
      modifies this`position, this`size, this`capacity, this`cur, this`nodes, nodes, Arrays()
      ensures Wrote(Encode(Str(p, s), littleEndian))
    {
      hide Arrays, Chain, Visible, WriteAt, BlockOf, Start, EncodePrefix;
      WriteTwice(Visible(), position, EncodePrefix(p, |s|, littleEndian), s);
      WritePrefix(hostLittle, p, |s|);
      FrameGrows();
      Write(s);
    }

    method WriteValue(hostLittle: bool, v: Value)
      requires Valid() && Writable(v)
      modifies this`position, this`size, this`capacity, this`cur, this`nodes, nodes, Arrays()
      ensures Wrote(Encode(v, littleEndian))
    {
      hide Valid, Wrote, Visible, Pow256, VintBytes;
      match v {
        case Fixed(n, _, i) => WriteFixed(hostLittle, ToUnsigned(i, n), n);
        case Vint(n, signed, i) => WriteVint(if signed then Zigzag(i, n) else ToUnsigned(i, n));
        case Str(p, s) => WriteString(hostLittle, p, s);
      }
    }

    // ----- Typed readers -----

    /** The bytes after the cursor. */
    ghost function Rest(): (s: seq<byte>)
      requires Valid()
      reads this, nodes, Arrays()
      ensures |s| == size - position
    {
      Visible()[position..]
    }

    /** readFint8 to readFuint64, before the conversion to a signed type; None is an exception. */
    method ReadFixed(hostLittle: bool, n: nat) returns (r: Option<nat>)
      requires Valid() && 0 < n
      modifies this`position, this`cur
      ensures Valid() && Visible() == old(Visible())
      ensures if n > |old(Rest())| then r == None && position == old(position)
              else r == Some(FromEndian(old(Rest())[..n], littleEndian)) && position == old(position) + n
    {
      hide Chain, BlockOf, Start, LittleBytes, Reverse, FromLittle, Pow256;
      var raw := Read(n);
      match raw {
        case OutOfRange => return None;
        case Bytes(b) =>
          SwappedLoad(b, littleEndian, hostLittle);
          assert b == old(Rest())[..n];
          var v := FromMemory(b, hostLittle);
          return Some(if littleEndian == hostLittle then v else ByteSwap(v, n));
      }
    }

    /** readUint32 (max 5) and readUint64 (max 10), before truncation to n bytes. */
    method ReadVint(n: nat) returns (r: Option<nat>)
      requires Valid() && (n == 4 || n == 8)
      modifies this`position, this`cur
      ensures Valid() && Visible() == old(Visible())
      ensures match VintAt(old(Rest()), 0, VintMax(n))
              case None => r == None && position == old(size)
              case Some((v, used)) => r == Some(Truncate(v, n)) && position == old(position) + used
    {
      hide Chain, BlockOf, Start, Pow256, VintAt, Group, Truncate, Or, Pow128;
      ghost var s0, max := Rest(), VintMax(n);
      VintStart(s0, max, n);
      var result: nat := 0;
      var k := 0;
      while k < VintMax(n)
        invariant k <= VintMax(n) && Valid() && Visible() == old(Visible()) && size == old(size)
        invariant position == old(position) + k
        invariant VintSoFar(s0, k, VintMax(n), result, n)
      {
        VintStep(s0, k, VintMax(n), result, n);
        assert Rest() == s0[k..];
        if k < |s0| { OneByte(s0[k..], littleEndian); }
        var b := ReadFixed(true, 1);
        if b == None {
          return None;
        }
        result := Or(result, Truncate(Group(b.value % 128, k), n));
        if b.value < 128 {
          return Some(result);
        }
        k := k + 1;
      }
      VintEnd(s0, max, result, n);
      return Some(result);
    }

    /** The length prefix of a string. */
    method ReadPrefix(hostLittle: bool, p: Prefix) returns (len: Option<nat>)
      requires Valid()
      modifies this`position, this`cur
      ensures Valid() && Visible() == old(Visible())
      ensures match DecodePrefix(p, old(Rest()), littleEndian)
              case None => len == None && position == old(position) + (if p == PVint then |old(Rest())| else 0)
              case Some((n, used)) => len == Some(n) && position == old(position) + used
    {
      hide Chain, BlockOf, Start, LittleBytes, Reverse, FromLittle, Pow256, VintAt, Truncate;
      if p == PVint {
        len := ReadVint(8);
      } else {
        len := ReadFixed(hostLittle, PrefixSize(p));
      }
    }

    /** readStringF16, F32, F64 and Vint. */
    method ReadString(hostLittle: bool, p: Prefix) returns (r: ValueResult)
      requires Valid()
      modifies this`position, this`cur
      ensures Valid() && Visible() == old(Visible())
      ensures position == old(position) + Decode(KStr(p), old(Rest()), littleEndian).used
      ensures r == ResultOf(Decode(KStr(p), old(Rest()), littleEndian))
    {
      hide Chain, BlockOf, Start, DecodePrefix, Visible;
      ghost var v, p0 := Visible(), position;
      var len := ReadPrefix(hostLittle, p);
      if len == None {
        return Failed;
      }
      ghost var p1 := position;
      var buff := Read(len.value);
      match buff {
        case OutOfRange => return Failed;
        case NullCurrent => return Crashed;
        case Bytes(b) =>
          SliceOfSlice(v, p0, p1, len.value);
          return Got(Str(p, b));
      }
    }

    /**
     * What a typed read does in terms of the decoding: an empty string whose prefix ends at
     * the capacity makes the source look at a null current block.
     */
    ghost function ResultOf(d: Decoded): ValueResult
      reads this`position, this`capacity
    {
      match d
      case Short(_) => Failed
      case Decoded(v, _) => if v.Str? && v.s == [] && position == capacity then Crashed else Got(v)
    }

    method ReadValue(hostLittle: bool, k: Kind) returns (r: ValueResult)
      requires Valid() && KindOk(k)
      modifies this`position, this`cur
      ensures Valid() && Visible() == old(Visible())
      ensures position == old(position) + Decode(k, old(Rest()), littleEndian).used
      ensures r == ResultOf(Decode(k, old(Rest()), littleEndian))
    {
      hide Chain, BlockOf, Start, LittleBytes, Reverse, FromLittle, Pow256, VintAt, ToSigned;
      match k {
        case KFixed(n, signed) =>
          var u := ReadFixed(hostLittle, n);
          if u == None { return Failed; }
          return Got(Fixed(n, signed, AsInt(u.value, n, signed)));
        case KVint(n, signed) =>
          var u := ReadVint(n);
          if u == None { return Failed; }
          return Got(Vint(n, signed, if signed then Unzigzag(u.value, n) else u.value));
        case KStr(p) =>
          r := ReadString(hostLittle, p);
      }
    }

    method WriteAll(hostLittle: bool, vs: seq<Value>)
      requires Valid() && forall j | 0 <= j < |vs| :: Writable(vs[j])
      modifies this`position, this`size, this`capacity, this`cur, this`nodes, nodes, Arrays()
      ensures Wrote(EncodeAll(vs, littleEndian))
    {
      hide Chain, Visible, Pow256, VintBytes, Arrays, BlockOf, Start, WriteAt, Writable, Encode;
      WriteNothing(Visible(), position);
      ghost var v0, p0 := Visible(), position;
      var i := 0;
      while i < |vs|
        invariant i <= |vs| && Wrote(EncodeAll(vs[..i], littleEndian))
      {
        FrameGrows();
        WriteTwice(v0, p0, EncodeAll(vs[..i], littleEndian), Encode(vs[i], littleEndian));
        EncodeAllSplit(vs, i, littleEndian);
        WriteValue(hostLittle, vs[i]);
        i := i + 1;
      }
      assert vs[..i] == vs;
    }

    /** Reading values of the given kinds from the start; it stops at a crash or an exception. */
    method ReadBack(hostLittle: bool, ghost vs: seq<Value>, kinds: seq<Kind>) returns (out: seq<Value>, stopped: bool)
      requires Valid() && (forall j | 0 <= j < |vs| :: Writable(vs[j]))
      requires |kinds| == |vs| && forall j | 0 <= j < |vs| :: kinds[j] == KindOf(vs[j])
      requires position == 0 && Visible() == EncodeAll(vs, littleEndian)
      requires capacity == baseSize || capacity < size + baseSize
      modifies this`position, this`cur
      ensures !stopped && out == vs <==> Readable(vs, |vs|) && !EndsAtBlockEnd(vs, littleEndian, baseSize)
      ensures Readable(vs, |vs|) && stopped ==> out == vs[..|vs| - 1]
      ensures !stopped ==> Valid()
      ensures !stopped && out == vs ==> position == size
    {
      hide Chain, Visible, Rest, BlockOf, Start, OffsetOf, ValueOk, Writable, Decode, KindOk, KindOf, EncodeAll;
      hide EndsAtBlockEnd;
      ChainFacts();
      NothingEncoded(littleEndian);
      out, stopped := [], false;
      var i := 0;
      while i < |kinds|
        invariant i <= |kinds| && |out| == i && !stopped
        invariant Valid() && Visible() == old(Visible())
        invariant Readable(vs, i) ==> out == vs[..i] && position == |EncodeAll(vs[..i], littleEndian)|
        invariant Readable(vs, i) && i == |kinds| ==> !EndsAtBlockEnd(vs, littleEndian, baseSize)
        invariant !Readable(vs, i) ==> exists j | 0 <= j < i :: out[j] != vs[j]
        invariant Readable(vs, i) && i == |kinds| ==> position == size
      {
        KindsAreOk(vs[i]);
        ghost var d := Decode(kinds[i], Rest(), littleEndian);
        if Readable(vs, i) {
          if ValueOk(vs[i]) { NextValue(vs, i); } else { TooLong(vs[i], Rest(), littleEndian); }
        }
        var r := ReadValue(hostLittle, kinds[i]);
        if Readable(vs, i) && ValueOk(vs[i]) { CrashPosition(vs, i); }
        if !r.Got? {
          stopped := true;
          return;
        }
        out := out + [r.v];
        i := i + 1;
      }
      assert vs[..i] == vs;
    }

    /** At the start of value i, that value is what decoding finds next. */
    lemma NextValue(vs: seq<Value>, i: nat)
      requires Valid() && i < |vs| && (forall j | 0 <= j < |vs| :: Writable(vs[j])) && ValueOk(vs[i])
      requires Visible() == EncodeAll(vs, littleEndian) && position == |EncodeAll(vs[..i], littleEndian)|
      ensures var d := Decode(KindOf(vs[i]), Rest(), littleEndian);
              d.Decoded? && d.v == vs[i] && position + d.used == |EncodeAll(vs[..i + 1], littleEndian)|
    {
      hide Chain, Visible, ValueOk, Writable, Encode, Decode, EncodeAll, KindOf;
      var before, all := EncodeAll(vs[..i], littleEndian), EncodeAll(vs, littleEndian);
      var e := Encode(vs[i], littleEndian);
      EncodeAllSplit(vs, i, littleEndian);
      var rest := all[|before| + |e|..];
      assert all == before + e + rest;
      assert Rest() == e + rest;
      DecodeEncode(vs[i], littleEndian, rest);
    }

    /** Reading value i ends at the capacity only if it is the last one and fills the last block. */
    lemma CrashPosition(vs: seq<Value>, i: nat)
      requires Valid() && i < |vs| && (forall j | 0 <= j < |vs| :: Writable(vs[j]))
      requires Visible() == EncodeAll(vs, littleEndian) && position == |EncodeAll(vs[..i + 1], littleEndian)|
      requires capacity == baseSize || capacity < size + baseSize
      ensures vs[i].Str? && vs[i].s == [] && position == capacity <==>
              i + 1 == |vs| && EndsAtBlockEnd(vs, littleEndian, baseSize)
      ensures i + 1 == |vs| ==> position == size
    {
      hide Chain, Start, BlockOf, OffsetOf, Pow256, Encode, Writable;
      EncodeAllSplit(vs, i, littleEndian);
      EncodeNonEmpty(vs[i], littleEndian);
      ChainFacts();
      Starts(baseSize, 0);
      BlockCount();
      if i + 1 == |vs| {
        assert vs[..i + 1] == vs;
        FullBlocks(baseSize, |nodes|, size);
      }
    }

    lemma BlockCount()
      requires Valid()
      ensures capacity == baseSize ==> |nodes| == 1
    {
      Starts(baseSize, 0);
      BlockOfStart(baseSize, 1);
      BlockOfStart(baseSize, |nodes|);
    }

    /**
     * What the tests do with every type: an empty array is filled, rewound and read. All values
     * come back and nothing is left over, unless a string is longer than its prefix can say, or the
     * list ends with an empty string exactly at the end of a block; then the last read looks at a
     * null current block.
     */
    method RoundTrip(hostLittle: bool, vs: seq<Value>) returns (out: seq<Value>, left: nat, stopped: bool)
      requires Valid() && size == 0 && capacity == baseSize
      requires forall j | 0 <= j < |vs| :: Writable(vs[j])
      modifies this`position, this`size, this`capacity, this`cur, this`nodes, nodes, Arrays()
      ensures !stopped && out == vs <==> Readable(vs, |vs|) && !EndsAtBlockEnd(vs, littleEndian, baseSize)
      ensures !stopped && out == vs ==> left == 0
      ensures Readable(vs, |vs|) && stopped ==> out == vs[..|vs| - 1]
    {
      hide Chain, Store, Pow256, VintBytes, BlockOf, Start, OffsetOf, ValueOk, Writable, Encode, KindOf, EndsAtBlockEnd;
      hide Arrays, Readable;
      ChainFacts();
      WriteAll(hostLittle, vs);
      var ok := SetPosition(0);
      var kinds := seq(|vs|, i requires 0 <= i < |vs| => KindOf(vs[i]));
      out, stopped := ReadBack(hostLittle, vs, kinds);
      left := 0;
      if !stopped {
        CursorInside();
        left := GetReadSize();
      }
    }

    lemma CursorInside()
      requires Valid()
      ensures 0 < baseSize && 0 <= position <= size <= capacity
    {
    }

    /** readv into the vectors of the cursor; the cursor itself stays where it is. */
    method Receive(iovs: seq<IoVec>, data: seq<byte>, ghost n: nat)
      requires Valid() && position + n <= capacity && iovs == CursorVectors(n) && 0 < |data| <= n
      modifies Arrays()
      ensures Valid()
      ensures position + |data| <= |Store()| && |Store()| == |old(Store())|
      ensures Store() == Overwrite(old(Store()), position, data)
    {
      hide Start, BlockOf, OffsetOf, Flat, ContentsOf, Overwrite, Chain, Arrays, Contents;
      AtCursor();
      StoreLength();
      Fill(iovs, data, BlockOf(baseSize, position), OffsetOf(baseSize, position), n);
    }

    lemma StoreIsCapacity()
      requires Valid()
      ensures |Store()| == capacity
    {
      StoreLength();
    }

    lemma VisibleIsStore()
      requires Valid()
      ensures size <= |Store()| && Visible() == Store()[..size] && |Visible()| == size
    {
      StoreLength();
    }

    /** ceil(1.0 * n / base), which is 0 for nothing to add. */
    static function CeilDiv(n: int, base: nat): nat
      requires 0 < base
    {
      if n <= 0 then 0 else (n + base - 1) / base
    }
  }
}
