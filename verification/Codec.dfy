/**
 * The values ByteArray can hold: fixed-width integers in either byte order, integers of
 * variable length (zigzag, then unsigned LEB128, section 7.6 of DWARF 5), and strings with
 * a length prefix. Encode says what is written and lemmas say that it can be read back.
 */
module Codec {
  import opened Bits
  import opened Bytes
  import opened Wrappers

  function Pow256(n: nat): (p: nat)
    ensures p > 0
  {
    if n == 0 then 1 else 256 * Pow256(n - 1)
  }

  /** The n low bytes of u, least significant first. */
  function LittleBytes(u: nat, n: nat): (s: seq<byte>)
    ensures |s| == n
  {
    if n == 0 then [] else [u % 256] + LittleBytes(u / 256, n - 1)
  }

  function FromLittle(s: seq<byte>): (u: nat)
    ensures u < Pow256(|s|)
  {
    if s == [] then 0 else s[0] + 256 * FromLittle(s[1..])
  }

  function Reverse(s: seq<byte>): (r: seq<byte>)
    ensures |r| == |s| && forall i | 0 <= i < |s| :: r[i] == s[|s| - 1 - i]
  {
    seq(|s|, i requires 0 <= i < |s| => s[|s| - 1 - i])
  }

  /** What memcpy sees of an integer of n bytes. */
  function InMemory(u: nat, n: nat, hostLittle: bool): seq<byte> {
    if hostLittle then LittleBytes(u, n) else Reverse(LittleBytes(u, n))
  }

  function FromMemory(s: seq<byte>, hostLittle: bool): nat {
    FromLittle(if hostLittle then s else Reverse(s))
  }

  /** byteswap of an integer of n bytes. */
  function ByteSwap(u: nat, n: nat): nat { FromLittle(Reverse(LittleBytes(u, n))) }

  /** An integer of n bytes in the given byte order. */
  function EndianBytes(u: nat, n: nat, little: bool): (s: seq<byte>)
    ensures |s| == n
  {
    if little then LittleBytes(u, n) else Reverse(LittleBytes(u, n))
  }

  lemma {:induction false} LittleRoundTrip(u: nat, n: nat)
    requires u < Pow256(n)
    ensures FromLittle(LittleBytes(u, n)) == u
  {
    if n > 0 {
      LittleRoundTrip(u / 256, n - 1);
      assert LittleBytes(u, n)[1..] == LittleBytes(u / 256, n - 1);
    }
  }

  lemma {:induction false} BytesOfLittle(s: seq<byte>)
    ensures LittleBytes(FromLittle(s), |s|) == s
  {
    if s != [] {
      var u := FromLittle(s);
      assert u % 256 == s[0] && u / 256 == FromLittle(s[1..]);
      BytesOfLittle(s[1..]);
    }
  }

  lemma ReverseTwice(s: seq<byte>)
    ensures Reverse(Reverse(s)) == s
  {
  }

  /** Swapping where the orders differ stores the requested order, on either kind of host. */
  lemma StoredOrder(u: nat, n: nat, little: bool, hostLittle: bool)
    requires u < Pow256(n)
    ensures InMemory(if little != hostLittle then ByteSwap(u, n) else u, n, hostLittle) == EndianBytes(u, n, little)
  {
    BytesOfLittle(Reverse(LittleBytes(u, n)));
    ReverseTwice(LittleBytes(u, n));
  }

  /** Loading undoes storing, with or without the swap. */
  lemma LoadedOrder(u: nat, n: nat, little: bool, hostLittle: bool)
    requires u < Pow256(n)
    ensures var raw := FromMemory(EndianBytes(u, n, little), hostLittle);
            u == if little == hostLittle then raw else ByteSwap(raw, n)
  {
    LittleRoundTrip(u, n);
    ReverseTwice(LittleBytes(u, n));
    BytesOfLittle(Reverse(LittleBytes(u, n)));
    BytesOfLittle(LittleBytes(u, n));
  }

  // ----- Two's complement and zigzag -----

  /** A conversion to an unsigned type of n bytes. */
  function ToUnsigned(i: int, n: nat): (u: nat)
    ensures u < Pow256(n)
  {
    i % Pow256(n)
  }

  /** What an unsigned type of n bytes keeps of v. */
  function Truncate(v: nat, n: nat): (u: nat)
    ensures u < Pow256(n)
  {
    v % Pow256(n)
  }

  /** A conversion back to the signed type. */
  function ToSigned(u: nat, n: nat): int {
    if u < Pow256(n) / 2 then u else u - Pow256(n)
  }

  predicate FitsSigned(i: int, n: nat) { -(Pow256(n) / 2) <= i < Pow256(n) / 2 }

  lemma {:induction false} Pow256IsEven(n: nat)
    requires 0 < n
    ensures Pow256(n) % 2 == 0 && Pow256(n) >= 256
  {
    assert Pow256(n) == 256 * Pow256(n - 1);
  }

  lemma Modest(u: nat, m: nat)
    requires u < m
    ensures u % m == u
  {
  }

  lemma Wrap(i: int, m: int)
    requires 0 < m && -m <= i < m
    ensures i % m == if i < 0 then i + m else i
  {
    MulBounds(i / m, m);
    assert i == i / m * m + i % m;
  }

  lemma MulBounds(q: int, m: int)
    requires 0 < m
    ensures q >= 0 ==> q * m >= 0
    ensures q >= 1 ==> q * m >= m
    ensures q <= -1 ==> q * m <= -m
    ensures q <= -2 ==> q * m <= -2 * m
  {
    if q >= 1 { assert q * m == m + (q - 1) * m; }
    if q <= -1 { assert q * m == -m + (q + 1) * m; }
    if q <= -2 { assert q * m == -2 * m + (q + 2) * m; }
  }

  /** Storing a signed number in n bytes loses nothing exactly if it fits in them. */
  lemma TwosComplement(i: int, n: nat)
    requires 0 < n
    ensures ToSigned(ToUnsigned(i, n), n) == i <==> FitsSigned(i, n)
  {
    Pow256IsEven(n);
    if FitsSigned(i, n) { Wrap(i, Pow256(n)); }
  }

  /** EncodeZigzag32 and EncodeZigzag64, with the wrap-around of unsigned arithmetic. */
  function Zigzag(i: int, n: nat): (u: nat)
    ensures u < Pow256(n)
  {
    if i < 0 then (ToUnsigned(-i, n) * 2 - 1) % Pow256(n) else i * 2 % Pow256(n)
  }

  /** (v >> 1) ^ -(v & 1), in unsigned arithmetic. */
  function Unzigzag(v: nat, n: nat): int
    requires v < Pow256(n)
  {
    ToSigned(Xor(v / 2, Truncate(Pow256(n) - v % 2, n)), n)
  }

  /** The mask is all zeros or all ones, at any width. */
  lemma UnzigzagIs(v: nat, n: nat)
    requires v < Pow256(n)
    ensures Unzigzag(v, n) == ToSigned(if v % 2 == 0 then v / 2 else Pow256(n) - 1 - v / 2, n)
  {
    hide Pow256, Pow2, Xor, ToSigned;
    if v % 2 == 0 {
      Modest(0, Pow256(n));
      WholeTurn(Pow256(n));
      XorZero(v / 2);
    } else {
      Pow256IsPow2(n);
      Modest(Pow256(n) - 1, Pow256(n));
      XorAllOnes(v / 2, 8 * n);
    }
  }

  lemma WholeTurn(m: nat)
    requires 0 < m
    ensures m % m == 0
  {
  }

  lemma {:induction false} Pow256IsPow2(n: nat)
    ensures Pow256(n) == Pow2(8 * n)
  {
    if n > 0 {
      Pow256IsPow2(n - 1);
      Pow2Sum(8, 8 * (n - 1));
      assert Pow2(8) == 256;
    }
  }

  lemma ZigzagRoundTrip(i: int, n: nat)
    requires 0 < n && FitsSigned(i, n)
    ensures Unzigzag(Zigzag(i, n), n) == i
    ensures Zigzag(i, n) == if i < 0 then -2 * i - 1 else 2 * i
  {
    hide Pow256, Unzigzag;
    Pow256IsEven(n);
    UnzigzagIs(Zigzag(i, n), n);
    var h := Pow256(n) / 2;
    if i < 0 {
      Modest(-i, 2 * h);
      Modest(-2 * i - 1, 2 * h);
      assert Zigzag(i, n) == -2 * i - 1;
      assert (-2 * i - 1) % 2 == 1 && (-2 * i - 1) / 2 == -i - 1;
    } else {
      Modest(2 * i, 2 * h);
      assert Zigzag(i, n) == 2 * i;
    }
  }

  // ----- Variable-length integers -----

  /** Seven bits a byte, least significant first; the high bit says that more follow. */
  function VintBytes(v: nat): (s: seq<byte>)
    ensures s != []
  {
    if v < 128 then [v] else [v % 128 + 128] + VintBytes(v / 128)
  }

  function Pow128(k: nat): (p: nat)
    ensures p > 0
  {
    if k == 0 then 1 else 128 * Pow128(k - 1)
  }

  /** A value below 128^k takes at most k bytes. */
  lemma {:induction false} VintIsShort(v: nat, k: nat)
    requires 0 < k && v < Pow128(k)
    ensures |VintBytes(v)| <= k
  {
    if v >= 128 {
      assert Pow128(1) == 128 * Pow128(0);
      VintIsShort(v / 128, k - 1);
    }
  }

  /** The temporary arrays of the writers, 5 and 10 bytes, are always large enough. */
  lemma VintFits(v: nat)
    ensures v < 0x1_0000_0000 ==> |VintBytes(v)| <= 5
    ensures v < 0x1_0000_0000_0000_0000 ==> |VintBytes(v)| <= 10
  {
    assert Pow128(2) == 0x4000;
    assert Pow128(4) == 0x1000_0000;
    assert Pow128(5) == 0x8_0000_0000;
    assert Pow128(6) == 0x400_0000_0000;
    assert Pow128(8) == 0x100_0000_0000_0000;
    assert Pow128(10) == 0x40_0000_0000_0000_0000;
    if v < 0x1_0000_0000 { VintIsShort(v, 5); }
    if v < 0x1_0000_0000_0000_0000 { VintIsShort(v, 10); }
  }

  /** Seven bits shifted to the k-th group. */
  function Group(b: nat, k: nat): nat { b * Pow128(k) }

  /**
   * The sum of the seven-bit groups from the k-th on, and how many bytes they took; None if
   * the bytes end first. The reader stops after max bytes even if the last one says more.
   */
  function VintAt(s: seq<byte>, k: nat, max: nat): (r: Option<(nat, nat)>)
    requires k <= max
    ensures r.Some? ==> r.value.1 <= |s|
    decreases max - k
  {
    if k == max then Some((0, 0))
    else if s == [] then None
    else if s[0] < 128 then Some((Group(s[0], k), 1))
    else
      match VintAt(s[1..], k + 1, max)
      case None => None
      case Some((v, used)) => Some((Group(s[0] - 128, k) + v, used + 1))
  }

  lemma {:induction false} VintRoundTrip(v: nat, rest: seq<byte>, k: nat, max: nat)
    requires k + |VintBytes(v)| <= max
    ensures VintAt(VintBytes(v) + rest, k, max) == Some((Group(v, k), |VintBytes(v)|))
  {
    var s := VintBytes(v) + rest;
    if v >= 128 {
      VintRoundTrip(v / 128, rest, k + 1, max);
      assert s[1..] == VintBytes(v / 128) + rest;
      assert v % 128 * Pow128(k) + v / 128 * (128 * Pow128(k)) == v * Pow128(k) by {
        assert v == v / 128 * 128 + v % 128;
        Distribute(v / 128, v % 128, Pow128(k));
      }
    }
  }

  lemma Distribute(q: nat, r: nat, p: nat)
    ensures r * p + q * (128 * p) == (q * 128 + r) * p
  {
  }

  /** The reader of a variable-length integer has added up the first k groups of s into acc. */
  predicate VintSoFar(s: seq<byte>, k: nat, max: nat, acc: nat, n: nat)
    requires k <= max
  {
    && k <= |s|
    && acc < Pow256(n) && acc < Pow128(k)
    && match VintAt(s, 0, max)
       case None => VintAt(s[k..], k, max) == None
       case Some((v, used)) =>
         VintAt(s[k..], k, max).Some?
         && used == k + VintAt(s[k..], k, max).value.1
         && Truncate(v, n) == Truncate(acc + VintAt(s[k..], k, max).value.0, n)
  }

  lemma DivUnique(q: int, r: int, q': int, r': int, m: int)
    requires 0 <= r < m && 0 <= r' < m && q * m + r == q' * m + r'
    ensures q == q' && r == r'
  {
    MulBounds(q - q', m);
    assert (q - q') * m == q * m - q' * m;
  }

  /** A remainder may be taken before adding. */
  lemma ModSum(a: nat, y: nat, m: nat)
    requires 0 < m
    ensures (a % m + y) % m == (a + y) % m
  {
    var b := a % m + y;
    assert a == a / m * m + a % m;
    assert b == b / m * m + b % m;
    assert a + y == (a + y) / m * m + (a + y) % m;
    assert (a / m + b / m) * m == a / m * m + b / m * m;
    DivUnique(a / m + b / m, b % m, (a + y) / m, (a + y) % m, m);
  }

  lemma TruncateSum(a: nat, y: nat, n: nat)
    ensures Truncate(Truncate(a, n) + y, n) == Truncate(a + y, n)
  {
    ModSum(a, y, Pow256(n));
  }

  lemma {:induction false} Pow128IsPow2(k: nat)
    ensures Pow128(k) == Pow2(7 * k)
  {
    if k > 0 {
      Pow128IsPow2(k - 1);
      Pow2Sum(7, 7 * (k - 1));
      assert Pow2(7) == 128;
    }
  }

  /** Shifting a multiple of m out of p * q keeps the multiple. */
  lemma KeptMultiple(x: nat, p: nat, q: nat)
    requires 0 < p && 0 < q
    ensures x * p % (p * q) == x % q * p && x % q * p + p <= p * q
  {
    assert x == x / q * q + x % q;
    Regroup(x / q, q, x % q, p);
    var m, r := p * q, x % q * p;
    MulUp(x % q + 1, q, p);
    assert (x % q + 1) * p == r + p;
    assert x * p == x * p / m * m + x * p % m;
    DivUnique(x * p / m, x * p % m, x / q, r, m);
  }

  lemma Regroup(a: nat, q: nat, r: nat, p: nat)
    ensures (a * q + r) * p == a * (p * q) + r * p
  {
    Associates(a, q, p);
    assert p * q == q * p;
  }

  lemma MulUp(a: nat, b: nat, p: nat)
    requires a <= b
    ensures a * p <= p * b
  {
    assert p * b == a * p + (b - a) * p;
  }

  /** What a shift by k groups keeps is a multiple of the k-th group's unit. */
  lemma TruncatedGroup(b: nat, k: nat, n: nat) returns (y: nat)
    requires 7 * k <= 8 * n
    ensures y <= b && Truncate(Group(b, k), n) == y * Pow128(k) && y * Pow128(k) + Pow128(k) <= Pow256(n)
  {
    hide Pow256, Pow2, Pow128, Truncate, Group;
    var q := Pow2(8 * n - 7 * k);
    Pow128IsPow2(k);
    Pow256IsPow2(n);
    Pow2Sum(7 * k, 8 * n - 7 * k);
    y := KeptUnits(b, k, n, q);
  }

  lemma KeptUnits(b: nat, k: nat, n: nat, q: nat) returns (y: nat)
    requires 0 < q && Pow256(n) == Pow128(k) * q
    ensures y <= b && Truncate(Group(b, k), n) == y * Pow128(k) && y * Pow128(k) + Pow128(k) <= Pow256(n)
  {
    hide Pow256, Pow128;
    KeptMultiple(b, Pow128(k), q);
    Smaller(b, q);
    y := b % q;
  }

  lemma Smaller(b: nat, q: nat)
    requires 0 < q
    ensures b % q <= b
  {
  }

  /** The bits or-ed in are above those already there: the "or" is a sum, and does not wrap around. */
  lemma OrGroup(acc: nat, b: nat, k: nat, n: nat)
    requires acc < Pow128(k) && b < 128 && 7 * k <= 8 * n
    ensures var acc' := Or(acc, Truncate(Group(b, k), n));
            acc' == Truncate(acc + Group(b, k), n) && acc' < Pow256(n) && acc' < Pow128(k + 1)
  {
    hide Or, Pow2, Pow256, Truncate, Group;
    var p := Pow128(k);
    var y := TruncatedGroup(b, k, n);
    Pow128IsPow2(k);
    OrIsPlus(acc, y, 7 * k);
    TruncateSum(Group(b, k), acc, n);
    Kept(acc + y * p, n);
    MulUp(y + 1, 128, p);
    assert (y + 1) * p == y * p + p;
  }

  lemma Kept(u: nat, n: nat)
    requires u < Pow256(n)
    ensures Truncate(u, n) == u
  {
    Modest(u, Pow256(n));
  }

  /** One iteration of the reader, from the byte at k. */
  lemma VintStep(s: seq<byte>, k: nat, max: nat, acc: nat, n: nat)
    requires k < max && VintSoFar(s, k, max, acc, n) && 7 * k <= 8 * n
    ensures |s| == k ==> VintAt(s, 0, max) == None
    ensures k < |s| ==>
              var acc' := Or(acc, Truncate(Group(s[k] % 128, k), n));
              if s[k] < 128 then
                && VintAt(s, 0, max).Some? && VintAt(s, 0, max).value.1 == k + 1
                && Truncate(VintAt(s, 0, max).value.0, n) == acc'
              else VintSoFar(s, k + 1, max, acc', n)
  {
    hide VintAt, Group, Pow256, Truncate, Or, Pow128;
    if k == |s| {
      VintNothing(s[k..], k, max);
    } else {
      OrGroup(acc, s[k] % 128, k, n);
      VintUnfold(s, k, max);
      var x := Group(s[k] % 128, k);
      match VintAt(s[k + 1..], k + 1, max)
      case None =>
      case Some((v, used)) => TruncateSum(acc + x, v, n);
    }
  }

  lemma VintNothing(t: seq<byte>, k: nat, max: nat)
    requires k < max && t == []
    ensures VintAt(t, k, max) == None
  {
  }

  lemma VintUnfold(s: seq<byte>, k: nat, max: nat)
    requires k < max && k < |s|
    ensures var x := Group(s[k] % 128, k);
            VintAt(s[k..], k, max) ==
            if s[k] < 128 then Some((x, 1))
            else match VintAt(s[k + 1..], k + 1, max)
                 case None => None
                 case Some((v, used)) => Some((x + v, used + 1))
  {
    assert s[k..][1..] == s[k + 1..];
    assert s[k] % 128 == if s[k] < 128 then s[k] else s[k] - 128;
  }

  lemma VintStart(s: seq<byte>, max: nat, n: nat)
    ensures VintSoFar(s, 0, max, 0, n)
  {
    assert s[0..] == s;
  }

  /** After max bytes nothing more is read. */
  lemma VintEnd(s: seq<byte>, max: nat, acc: nat, n: nat)
    requires VintSoFar(s, max, max, acc, n)
    ensures VintAt(s, 0, max).Some? && VintAt(s, 0, max).value.1 == max && Truncate(VintAt(s, 0, max).value.0, n) == acc
  {
    Modest(acc, Pow256(n));
  }

  // ----- Typed values -----

  datatype Prefix = P16 | P32 | P64 | PVint

  datatype Value =
    | Fixed(n: nat, signed: bool, i: int)
    | Vint(n: nat, signed: bool, i: int)
    | Str(p: Prefix, s: seq<byte>)

  datatype Kind =
    | KFixed(n: nat, signed: bool)
    | KVint(n: nat, signed: bool)
    | KStr(p: Prefix)

  function KindOf(v: Value): Kind {
    match v
    case Fixed(n, signed, _) => KFixed(n, signed)
    case Vint(n, signed, _) => KVint(n, signed)
    case Str(p, _) => KStr(p)
  }

  /** The number of bytes of a fixed-width prefix, 0 for the variable-length one. */
  function PrefixSize(p: Prefix): nat {
    match p case P16 => 2 case P32 => 4 case P64 => 8 case PVint => 0
  }

  predicate KindOk(k: Kind) {
    match k
    case KFixed(n, _) => n == 1 || n == 2 || n == 4 || n == 8
    case KVint(n, _) => n == 4 || n == 8
    case KStr(_) => true
  }

  predicate IntOk(n: nat, signed: bool, i: int) { if signed then FitsSigned(i, n) else 0 <= i < Pow256(n) }

  /** The value is one that its C++ type can hold. */
  predicate Writable(v: Value) {
    && KindOk(KindOf(v))
    && match v
       case Fixed(n, signed, i) => IntOk(n, signed, i)
       case Vint(n, signed, i) => IntOk(n, signed, i)
       case Str(_, _) => true
  }

  /** Lengths below this bound fit the prefix. */
  function LengthBound(p: Prefix): nat { Pow256(if p == PVint then 8 else PrefixSize(p)) }

  /** Moreover, a string's length fits its prefix. */
  predicate ValueOk(v: Value) { Writable(v) && (v.Str? ==> |v.s| < LengthBound(v.p)) }

  function VintMax(n: nat): nat { if n == 4 then 5 else 10 }

  function EncodePrefix(p: Prefix, len: nat, little: bool): (s: seq<byte>)
    ensures s != []
  {
    if p == PVint then VintBytes(len) else EndianBytes(len % Pow256(PrefixSize(p)), PrefixSize(p), little)
  }

  /** What is written for a value; it does not depend on the byte order of the host. */
  function Encode(v: Value, little: bool): seq<byte> {
    match v
    case Fixed(n, _, i) => EndianBytes(ToUnsigned(i, n), n, little)
    case Vint(n, signed, i) => VintBytes(if signed then Zigzag(i, n) else ToUnsigned(i, n))
    case Str(p, s) => EncodePrefix(p, |s|, little) + s
  }

  function EncodeAll(vs: seq<Value>, little: bool): seq<byte> {
    if vs == [] then [] else EncodeAll(vs[..|vs| - 1], little) + Encode(vs[|vs| - 1], little)
  }

  /** The outcome of decoding; a short input still moves the cursor past what was read. */
  datatype Decoded = Decoded(v: Value, used: nat) | Short(used: nat)

  function FromEndian(s: seq<byte>, little: bool): (u: nat)
    ensures u < Pow256(|s|)
  {
    FromLittle(if little then s else Reverse(s))
  }

  function AsInt(u: nat, n: nat, signed: bool): int { if signed then ToSigned(u, n) else u }

  /** The length prefix at the head of s, and the bytes it takes. */
  function DecodePrefix(p: Prefix, s: seq<byte>, little: bool): (r: Option<(nat, nat)>)
    ensures r.Some? ==> r.value.1 <= |s|
  {
    if p == PVint then
      match VintAt(s, 0, 10)
      case None => None
      case Some((v, used)) => Some((Truncate(v, 8), used))
    else if |s| < PrefixSize(p) then None
    else Some((FromEndian(s[..PrefixSize(p)], little), PrefixSize(p)))
  }

  function Decode(k: Kind, s: seq<byte>, little: bool): (d: Decoded)
    ensures d.used <= |s|
  {
    match k
    case KFixed(n, signed) =>
      if |s| < n then Short(0) else Decoded(Fixed(n, signed, AsInt(FromEndian(s[..n], little), n, signed)), n)
    case KVint(n, signed) =>
      (match VintAt(s, 0, VintMax(n))
       case None => Short(|s|)
       case Some((v, used)) =>
         var u := Truncate(v, n);
         Decoded(Vint(n, signed, if signed then Unzigzag(u, n) else u), used))
    case KStr(p) =>
      match DecodePrefix(p, s, little)
      case None => Short(if p == PVint then |s| else 0)
      case Some((len, used)) =>
        if |s| - used < len then Short(used) else Decoded(Str(p, s[used..used + len]), used + len)
  }

  lemma OneByte(s: seq<byte>, little: bool)
    requires s != []
    ensures FromEndian(s[..1], little) == s[0]
  {
    assert s[..1] == [s[0]] == Reverse([s[0]]);
    assert [s[0]][1..] == [];
  }

  /** Loading any bytes and swapping where the orders differ gives their value in the requested order. */
  lemma SwappedLoad(s: seq<byte>, little: bool, hostLittle: bool)
    ensures FromEndian(s, little)
         == if little == hostLittle then FromMemory(s, hostLittle) else ByteSwap(FromMemory(s, hostLittle), |s|)
  {
    BytesOfLittle(s);
    BytesOfLittle(Reverse(s));
    ReverseTwice(s);
  }

  lemma EndianRoundTrip(u: nat, n: nat, little: bool, rest: seq<byte>)
    requires u < Pow256(n)
    ensures FromEndian((EndianBytes(u, n, little) + rest)[..n], little) == u
  {
    assert (EndianBytes(u, n, little) + rest)[..n] == EndianBytes(u, n, little);
    LittleRoundTrip(u, n);
    ReverseTwice(LittleBytes(u, n));
  }

  lemma Pow256Values()
    ensures Pow256(1) == 0x100 && Pow256(2) == 0x1_0000
    ensures Pow256(4) == 0x1_0000_0000 && Pow256(8) == 0x1_0000_0000_0000_0000
  {
    assert Pow256(3) == 0x100_0000 && Pow256(5) == 0x100_0000_0000 && Pow256(6) == 0x1_0000_0000_0000;
  }

  lemma IntRoundTrip(i: int, n: nat, signed: bool)
    requires 0 < n && IntOk(n, signed, i)
    ensures AsInt(ToUnsigned(i, n), n, signed) == i
  {
    if signed { TwosComplement(i, n); } else { Modest(i, Pow256(n)); }
  }

  lemma VintValueRoundTrip(n: nat, signed: bool, i: int, little: bool, rest: seq<byte>)
    requires (n == 4 || n == 8) && IntOk(n, signed, i)
    ensures var e := Encode(Vint(n, signed, i), little);
            Decode(KVint(n, signed), e + rest, little) == Decoded(Vint(n, signed, i), |e|)
  {
    hide Pow256, VintAt, VintBytes, Group, Zigzag, Unzigzag, Truncate;
    var u := if signed then Zigzag(i, n) else ToUnsigned(i, n);
    Pow256Values();
    VintFits(u);
    VintRoundTrip(u, rest, 0, VintMax(n));
    GroupOfAll(u, n);
    if signed { ZigzagRoundTrip(i, n); } else { Modest(i, Pow256(n)); }
  }

  lemma GroupOfAll(u: nat, n: nat)
    requires u < Pow256(n)
    ensures Group(u, 0) == u && Truncate(u, n) == u
  {
    Modest(u, Pow256(n));
    assert Pow128(0) == 1;
  }

  lemma PrefixRoundTrip(p: Prefix, len: nat, little: bool, rest: seq<byte>)
    requires len < LengthBound(p)
    ensures var e := EncodePrefix(p, len, little);
            DecodePrefix(p, e + rest, little) == Some((len, |e|))
  {
    hide Pow256;
    if p == PVint {
      LengthRoundTrip(len, rest);
    } else {
      Modest(len, Pow256(PrefixSize(p)));
      EndianRoundTrip(len, PrefixSize(p), little, rest);
    }
  }

  lemma LengthRoundTrip(len: nat, rest: seq<byte>)
    requires len < Pow256(8)
    ensures VintAt(VintBytes(len) + rest, 0, 10) == Some((len, |VintBytes(len)|)) && len % Pow256(8) == len
  {
    Pow256Values();
    VintFits(len);
    VintRoundTrip(len, rest, 0, 10);
    GroupOfAll(len, 8);
    Modest(len, Pow256(8));
  }

  /** Codec round trip: whatever follows it, an encoded value decodes to itself and uses up its bytes. */
  lemma DecodeEncode(v: Value, little: bool, rest: seq<byte>)
    requires ValueOk(v)
    ensures Decode(KindOf(v), Encode(v, little) + rest, little) == Decoded(v, |Encode(v, little)|)
  {
    hide Pow256;
    match v
    case Fixed(n, signed, i) =>
      EndianRoundTrip(ToUnsigned(i, n), n, little, rest);
      IntRoundTrip(i, n, signed);
    case Vint(n, signed, i) =>
      VintValueRoundTrip(n, signed, i, little, rest);
    case Str(p, s) =>
      var e := EncodePrefix(p, |s|, little);
      PrefixRoundTrip(p, |s|, little, s + rest);
      assert e + s + rest == e + (s + rest);
      assert (e + s + rest)[|e|..|e| + |s|] == s;
  }

  /** A string is never read back longer than its prefix can say. */
  lemma DecodedFits(p: Prefix, s: seq<byte>, little: bool)
    ensures var d := Decode(KStr(p), s, little);
            d.Decoded? ==> d.v.Str? && |d.v.s| < LengthBound(p)
  {
    hide Pow256, VintAt, FromEndian;
    match DecodePrefix(p, s, little)
    case None =>
    case Some((len, used)) => PrefixFits(p, s, little);
  }

  lemma PrefixFits(p: Prefix, s: seq<byte>, little: bool)
    ensures var r := DecodePrefix(p, s, little);
            r.Some? ==> r.value.0 < LengthBound(p)
  {
    hide Pow256, VintAt;
  }

  /** A 16-bit length prefix wraps, so a string is read back if and only if it is shorter than 65536 bytes. */
  lemma Prefix16IsExact(s: seq<byte>, little: bool)
    ensures var e := Encode(Str(P16, s), little);
            Decode(KStr(P16), e, little) == Decoded(Str(P16, s), |e|) <==> |s| < 65536
  {
    hide Pow256;
    Pow256Values();
    var len := |s| % 65536;
    var e := EncodePrefix(P16, |s|, little);
    assert e == EndianBytes(len, 2, little);
    EndianRoundTrip(len, 2, little, s);
    assert DecodePrefix(P16, e + s, little) == Some((len, 2));
    assert (e + s)[2..2 + len] == s[..len];
    assert |s| < 65536 ==> s[..len] == s;
  }

  // ----- The bytes, one by one -----

  /** What can be written: every integer of its type, and every string. */
  lemma WritableIs(v: Value)
    ensures Writable(v) <==>
            match v
            case Fixed(n, signed, i) =>
              (n == 1 && if signed then -0x80 <= i < 0x80 else 0 <= i < 0x100)
              || (n == 2 && if signed then -0x8000 <= i < 0x8000 else 0 <= i < 0x1_0000)
              || (n == 4 && if signed then -0x8000_0000 <= i < 0x8000_0000 else 0 <= i < 0x1_0000_0000)
              || (n == 8 && if signed then -0x8000_0000_0000_0000 <= i < 0x8000_0000_0000_0000
                            else 0 <= i < 0x1_0000_0000_0000_0000)
            case Vint(n, signed, i) =>
              (n == 4 && if signed then -0x8000_0000 <= i < 0x8000_0000 else 0 <= i < 0x1_0000_0000)
              || (n == 8 && if signed then -0x8000_0000_0000_0000 <= i < 0x8000_0000_0000_0000
                            else 0 <= i < 0x1_0000_0000_0000_0000)
            case Str(_, _) => true
  {
    hide Pow256;
    Pow256Values();
  }

  lemma QuotientOfQuotient(u: nat, v: nat, a: nat, b: nat, x: nat, q: nat, r: nat)
    requires x < a && r < b && u == v * a + x && v == q * b + r
    ensures 0 < a * b && x + r * a < a * b && u == q * (a * b) + (x + r * a)
  {
    Regroup(q, b, r, a);
    MulUp(r + 1, b, a);
    assert (r + 1) * a == r * a + a;
  }

  lemma DivTwice(u: nat, a: nat, b: nat)
    requires 0 < a && 0 < b
    ensures 0 < a * b && u / a / b == u / (a * b)
  {
    var v := u / a;
    var q, rest := v / b, u % a + v % b * a;
    QuotientOfQuotient(u, v, a, b, u % a, q, v % b);
    var m := a * b;
    assert u == u / m * m + u % m;
    DivUnique(q, rest, u / m, u % m, m);
  }

  /** Digits in base 256, the least significant first. */
  lemma {:induction false} LittleDigits(u: nat, n: nat, k: nat)
    requires k < n
    ensures LittleBytes(u, n)[k] == u / Pow256(k) % 256
  {
    if k > 0 {
      LittleDigits(u / 256, n - 1, k - 1);
      DivTwice(u, 256, Pow256(k - 1));
    }
  }

  /** The bytes written for a fixed-width integer: digits in base 256, a negative number from 256^n down. */
  lemma FixedBytes(n: nat, signed: bool, i: int, little: bool, k: nat)
    requires Writable(Fixed(n, signed, i)) && k < n
    ensures var bytes, u := Encode(Fixed(n, signed, i), little), if i < 0 then i + Pow256(n) else i;
            && |bytes| == n && 0 <= u
            && bytes[if little then k else n - 1 - k] as int == u / Pow256(k) % 256
  {
    hide Pow256;
    Pow256IsEven(n);
    Wrap(i, Pow256(n));
    LittleDigits(ToUnsigned(i, n), n, k);
  }

  /** Reading back what any n bytes are: the value of which they are the encoding. */
  lemma FixedReads(n: nat, signed: bool, s: seq<byte>, little: bool)
    requires KindOk(KFixed(n, signed))
    ensures var d := Decode(KFixed(n, signed), s, little);
            if |s| < n then d == Short(0)
            else d.Decoded? && d.used == n && KindOf(d.v) == KFixed(n, signed) && ValueOk(d.v)
                 && Encode(d.v, little) == s[..n]
  {
    hide Pow256;
    if |s| >= n {
      var u := FromEndian(s[..n], little);
      SignedBack(u, n);
      Pow256IsEven(n);
      Modest(u, Pow256(n));
      BytesOfLittle(s[..n]);
      BytesOfLittle(Reverse(s[..n]));
      ReverseTwice(s[..n]);
    }
  }

  lemma SignedBack(u: nat, n: nat)
    requires 0 < n && u < Pow256(n)
    ensures FitsSigned(ToSigned(u, n), n) && ToUnsigned(ToSigned(u, n), n) == u
  {
    Pow256IsEven(n);
    Wrap(ToSigned(u, n), Pow256(n));
  }

  lemma Pow128IsMore(k: nat)
    requires 0 < k
    ensures Pow128(k) >= 128
  {
    assert Pow128(k) == 128 * Pow128(k - 1);
  }

  /** Digits in base 128, the least significant first, all but the last one marked; as few as there can be. */
  lemma {:induction false} VintDigits(v: nat, k: nat)
    requires k < |VintBytes(v)|
    ensures var last := |VintBytes(v)| - 1;
            && VintBytes(v)[k] as int == v / Pow128(k) % 128 + (if k < last then 128 else 0)
            && v < Pow128(last + 1) && (last > 0 ==> v >= Pow128(last))
  {
    var last := |VintBytes(v)| - 1;
    if v < 128 {
      assert Pow128(1) == 128 * Pow128(0);
    } else {
      VintDigits(v / 128, if k > 0 then k - 1 else 0);
      if k > 0 { DivTwice(v, 128, Pow128(k - 1)); }
      assert Pow128(last + 1) == 128 * Pow128(last);
      if last > 1 { assert Pow128(last) == 128 * Pow128(last - 1); }
      assert Pow128(1) == 128 * Pow128(0);
    }
  }

  /** What is written for an integer of variable length: those digits of it, or of its zigzag number. */
  lemma VintWritten(n: nat, signed: bool, i: int, little: bool)
    requires Writable(Vint(n, signed, i))
    ensures var u := if !signed then i else if i < 0 then -2 * i - 1 else 2 * i;
            0 <= u && Encode(Vint(n, signed, i), little) == VintBytes(u)
  {
    hide VintBytes, Pow256, Zigzag;
    if signed { ZigzagRoundTrip(i, n); } else { Modest(i, Pow256(n)); }
  }

  /** The reader ends with the first byte below 128, or after five or ten bytes whatever these are. */
  lemma VintRead(n: nat, signed: bool, s: seq<byte>, little: bool, k: nat)
    requires n == 4 || n == 8
    requires k <= (if n == 4 then 5 else 10) && k <= |s| && forall i | 0 <= i < k :: s[i] >= 128
    ensures var d := Decode(KVint(n, signed), s, little);
            && (k == (if n == 4 then 5 else 10) ==> d.Decoded? && d.used == k)
            && (k < (if n == 4 then 5 else 10) && k < |s| && s[k] < 128 ==> d.Decoded? && d.used == k + 1)
            && (k < (if n == 4 then 5 else 10) && k == |s| ==> d == Short(k))
  {
    VintEnds(s, 0, if n == 4 then 5 else 10, k);
  }

  lemma {:induction false} VintEnds(s: seq<byte>, j: nat, max: nat, k: nat)
    requires j + k <= max && k <= |s| && forall i | 0 <= i < k :: s[i] >= 128
    ensures var r := VintAt(s, j, max);
            && (j + k == max ==> r.Some? && r.value.1 == k)
            && (j + k < max && k < |s| && s[k] < 128 ==> r.Some? && r.value.1 == k + 1)
            && (j + k < max && k == |s| ==> r == None)
    decreases k
  {
    hide Group;
    if k > 0 { VintEnds(s[1..], j + 1, max, k - 1); }
  }

  /**
   * A string is written as its length and its bytes: the length as writeFuint16, writeFuint32, writeFuint64
   * or writeUint64 write it, cut to that many bits.
   */
  lemma StringBytes(s: seq<byte>, little: bool)
    ensures Encode(Str(P16, s), little) == Encode(Fixed(2, false, |s| % 0x1_0000), little) + s
    ensures Encode(Str(P32, s), little) == Encode(Fixed(4, false, |s| % 0x1_0000_0000), little) + s
    ensures Encode(Str(P64, s), little) == Encode(Fixed(8, false, |s| % 0x1_0000_0000_0000_0000), little) + s
    ensures |s| < 0x1_0000_0000_0000_0000 ==> Encode(Str(PVint, s), little) == Encode(Vint(8, false, |s|), little) + s
  {
    hide Pow256, VintBytes, EndianBytes;
    Pow256Values();
    Modest(|s| % 0x1_0000, 0x1_0000);
    Modest(|s| % 0x1_0000_0000, 0x1_0000_0000);
    Modest(|s| % 0x1_0000_0000_0000_0000, 0x1_0000_0000_0000_0000);
    if |s| < 0x1_0000_0000_0000_0000 { Modest(|s|, 0x1_0000_0000_0000_0000); }
  }

  /** The integer that is read before a string of that kind. */
  function LengthKind(p: Prefix): Kind {
    match p
    case P16 => KFixed(2, false)
    case P32 => KFixed(4, false)
    case P64 => KFixed(8, false)
    case PVint => KVint(8, false)
  }

  /** A string is read as its length and as many bytes; if there are fewer, the length is used up all the same. */
  lemma StringReads(p: Prefix, s: seq<byte>, little: bool)
    ensures var len, d := Decode(LengthKind(p), s, little), Decode(KStr(p), s, little);
            match len
            case Short(used) => d == Short(used)
            case Decoded(v, used) =>
              && 0 <= v.i
              && if |s| - used < v.i then d == Short(used)
                 else d == Decoded(Str(p, s[used..used + v.i]), used + v.i)
  {
    hide Pow256, VintAt, FromEndian;
  }

  lemma EncodeNonEmpty(v: Value, little: bool)
    requires Writable(v)
    ensures Encode(v, little) != []
  {
  }

  /** The i-th value within everything that was written. */
  lemma {:induction false} EncodeAllSplit(vs: seq<Value>, i: nat, little: bool)
    requires i < |vs| && forall j | 0 <= j < |vs| :: Writable(vs[j])
    ensures EncodeAll(vs[..i + 1], little) == EncodeAll(vs[..i], little) + Encode(vs[i], little)
    ensures EncodeAll(vs[..i + 1], little) <= EncodeAll(vs, little)
    ensures i + 1 < |vs| ==> |EncodeAll(vs[..i + 1], little)| < |EncodeAll(vs, little)|
    decreases |vs| - i
  {
    assert vs[..i + 1][..i] == vs[..i];
    if i + 1 == |vs| {
      assert vs[..i + 1] == vs;
    } else {
      EncodeNonEmpty(vs[i + 1], little);
      EncodeAllSplit(vs, i + 1, little);
    }
  }
}
