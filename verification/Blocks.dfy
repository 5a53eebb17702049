/**
 * A byte sequence cut into blocks of one size: where a byte of the flat sequence lies, and
 * what overwriting part of the blocks does to it.
 */
module Blocks {
  import opened Bytes

  /** Where block k starts. */
  function Start(base: nat, k: nat): nat { k * base }

  function BlockOf(base: nat, p: nat): nat
    requires 0 < base
  {
    p / base
  }

  function OffsetOf(base: nat, p: nat): nat
    requires 0 < base
  {
    p % base
  }

  function Flat(bs: seq<seq<byte>>): seq<byte> {
    if bs == [] then [] else bs[0] + Flat(bs[1..])
  }

  predicate AllOf(bs: seq<seq<byte>>, base: nat) { forall i :: 0 <= i < |bs| ==> |bs[i]| == base }

  function Min(a: nat, b: nat): nat { if a < b then a else b }

  /** s with the bytes from p on replaced by d. */
  function Overwrite(s: seq<byte>, p: nat, d: seq<byte>): seq<byte>
    requires p + |d| <= |s|
  {
    s[..p] + d + s[p + |d|..]
  }

  lemma {:induction false} FlatLength(bs: seq<seq<byte>>, base: nat)
    requires AllOf(bs, base)
    ensures |Flat(bs)| == Start(base, |bs|)
  {
    if bs != [] {
      FlatLength(bs[1..], base);
      assert |bs| * base == base + (|bs| - 1) * base;
    }
  }

  lemma {:induction false} FlatAppend(a: seq<seq<byte>>, b: seq<seq<byte>>)
    ensures Flat(a + b) == Flat(a) + Flat(b)
  {
    if a == [] {
      assert a + b == b;
    } else {
      assert (a + b)[1..] == a[1..] + b;
      FlatAppend(a[1..], b);
    }
  }

  /** The flat sequence around block k. */
  lemma FlatAround(bs: seq<seq<byte>>, k: nat)
    requires k < |bs|
    ensures Flat(bs) == Flat(bs[..k]) + bs[k] + Flat(bs[k + 1..])
  {
    assert bs == bs[..k] + bs[k..];
    assert bs[k..][1..] == bs[k + 1..];
    FlatAppend(bs[..k], bs[k..]);
  }

  /** Part of a block is part of the flat sequence. */
  lemma PartOfBlock(bs: seq<seq<byte>>, base: nat, k: nat, off: nat, n: nat)
    requires AllOf(bs, base) && k < |bs| && off + n <= base
    ensures Start(base, k) + off + n <= |Flat(bs)|
    ensures Flat(bs)[Start(base, k) + off..Start(base, k) + off + n] == bs[k][off..off + n]
  {
    FlatAround(bs, k);
    FlatLength(bs[..k], base);
    var before, after := Flat(bs[..k]), Flat(bs[k + 1..]);
    assert (before + bs[k] + after)[|before| + off..|before| + off + n] == bs[k][off..off + n];
  }

  /** Overwriting part of one block overwrites the same part of the flat sequence. */
  lemma PatchBlock(bs: seq<seq<byte>>, base: nat, k: nat, off: nat, d: seq<byte>)
    requires AllOf(bs, base) && k < |bs| && off + |d| <= base
    ensures Start(base, k) + off + |d| <= |Flat(bs)|
    ensures Flat(bs[k := Overwrite(bs[k], off, d)]) == Overwrite(Flat(bs), Start(base, k) + off, d)
  {
    var new_ := bs[k := Overwrite(bs[k], off, d)];
    FlatAround(bs, k);
    FlatAround(new_, k);
    assert new_[..k] == bs[..k] && new_[k + 1..] == bs[k + 1..];
    FlatLength(bs[..k], base);
    var before, after := Flat(bs[..k]), Flat(bs[k + 1..]);
    OverwriteInside(before, bs[k], after, off, d);
  }

  lemma OverwriteInside(before: seq<byte>, b: seq<byte>, after: seq<byte>, off: nat, d: seq<byte>)
    requires off + |d| <= |b|
    ensures before + Overwrite(b, off, d) + after == Overwrite(before + b + after, |before| + off, d)
  {
    assert before + (b[..off] + d + b[off + |d|..]) + after == (before + b[..off]) + d + (b[off + |d|..] + after);
  }

  /** s with d written at p, growing if d reaches beyond its end. */
  function WriteAt(s: seq<byte>, p: nat, d: seq<byte>): seq<byte>
    requires p <= |s|
  {
    s[..p] + d + if p + |d| < |s| then s[p + |d|..] else []
  }

  /** Byte by byte: the new bytes where they go, the old ones elsewhere, and nothing lost. */
  lemma WriteAtIs(s: seq<byte>, p: nat, d: seq<byte>, i: nat)
    requires p <= |s|
    ensures |WriteAt(s, p, d)| == if p + |d| < |s| then |s| else p + |d|
    ensures i < |WriteAt(s, p, d)| ==> WriteAt(s, p, d)[i] == if p <= i < p + |d| then d[i - p] else s[i]
  {
  }

  /** What is visible of a store that was extended and then overwritten. */
  lemma VisibleAfterWrite(store: seq<byte>, more: seq<byte>, size: nat, p: nat, d: seq<byte>)
    requires p <= size <= |store| && p + |d| <= |store + more|
    ensures var size' := if p + |d| > size then p + |d| else size;
            size' <= |store + more| && Overwrite(store + more, p, d)[..size'] == WriteAt(store[..size], p, d)
  {
    var all, e, v := store + more, p + |d|, store[..size];
    var o := Overwrite(all, p, d);
    assert all[..p] == v[..p];
    assert o == all[..p] + d + all[e..];
    if e > size {
      assert o[..e] == all[..p] + d;
      assert WriteAt(v, p, d) == v[..p] + d;
    } else {
      assert all[e..size] == v[e..];
      assert o[..size] == all[..p] + d + all[e..size];
      assert WriteAt(v, p, d) == v[..p] + d + v[e..];
    }
  }

  lemma WriteNothing(s: seq<byte>, p: nat)
    requires p <= |s|
    ensures WriteAt(s, p, []) == s
  {
  }

  /** Blocks appended to a list extend its flat sequence. */
  lemma Grown(a: seq<seq<byte>>, b: seq<seq<byte>>)
    requires a <= b
    ensures Flat(b) == Flat(a) + Flat(b[|a|..])
  {
    assert b == a + b[|a|..];
    FlatAppend(a, b[|a|..]);
  }

  /** Two adjacent pieces written one after the other. */
  lemma OverwriteTwice(s: seq<byte>, p: nat, a: seq<byte>, b: seq<byte>)
    requires p + |a| + |b| <= |s|
    ensures Overwrite(Overwrite(s, p, a), p + |a|, b) == Overwrite(s, p, a + b)
  {
  }

  lemma OverwriteNothing(s: seq<byte>, p: nat)
    requires p <= |s|
    ensures Overwrite(s, p, []) == s
  {
  }

  // ----- Positions -----

  lemma Multiples(base: nat, a: nat, b: nat)
    ensures a < b ==> a * base + base <= b * base
    ensures a <= b ==> a * base <= b * base
  {
    if a <= b { Distributes(a, b - a, base); }
    if a < b { Distributes(1, b - a - 1, base); }
  }

  lemma Distributes(a: nat, c: nat, base: nat)
    ensures (a + c) * base == a * base + c * base && 0 <= c * base
  {
  }

  /** Block k, offset off is the position Start(base, k) + off, and no other block and offset is. */
  lemma Position(base: nat, k: nat, off: nat)
    requires off < base
    ensures BlockOf(base, Start(base, k) + off) == k && OffsetOf(base, Start(base, k) + off) == off
  {
    var p := k * base + off;
    assert p == p / base * base + p % base;
    Multiples(base, k, p / base);
    Multiples(base, p / base, k);
  }

  lemma Locate(base: nat, p: nat)
    requires 0 < base
    ensures p == Start(base, BlockOf(base, p)) + OffsetOf(base, p) && OffsetOf(base, p) < base
  {
  }

  lemma BlockOfStart(base: nat, k: nat)
    requires 0 < base
    ensures BlockOf(base, Start(base, k)) == k && OffsetOf(base, Start(base, k)) == 0
  {
    Position(base, k, 0);
  }

  lemma Starts(base: nat, k: nat)
    ensures Start(base, 0) == 0 && Start(base, k + 1) == Start(base, k) + base
  {
  }

  /** A position within n blocks lies in one of them. */
  lemma BlockBound(base: nat, n: nat, p: nat)
    requires 0 < base
    ensures p < Start(base, n) <==> BlockOf(base, p) < n
  {
    Multiples(base, n, p / base);
    Multiples(base, p / base, n);
  }

  /** With as few blocks as possible, the last one is full exactly for the multiples of the block size. */
  lemma FullBlocks(base: nat, n: nat, total: nat)
    requires 0 < base && 0 < total <= Start(base, n) && (n == 1 || Start(base, n) < total + base)
    ensures total == Start(base, n) <==> OffsetOf(base, total) == 0
  {
    BlockOfStart(base, n);
    Locate(base, total);
    Multiples(base, BlockOf(base, total), n);
    Multiples(base, n, BlockOf(base, total));
    Starts(base, 0);
    Multiples(base, BlockOf(base, total), 0);
  }
}
