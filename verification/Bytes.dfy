/** Bytes, machine words and the few characters that several protocols share. */
module Bytes {

  type byte = b: int | 0 <= b < 256

  const CR: byte := 13
  const LF: byte := 10
  const SP: byte := 32

  const TWO32 := 0x1_0000_0000
  const TWO64 := 0x1_0000_0000_0000_0000

  /** ULLONG_MAX, which the HTTP parser uses for "no Content-Length seen". */
  const ABSENT := TWO64 - 1

  type u16 = x: int | 0 <= x < 0x1_0000
  type u32 = x: int | 0 <= x < TWO32
  type u64 = x: int | 0 <= x < TWO64

  /** Conversions of a size to int and to int64_t. */
  function Int32(x: nat): int { if x % TWO32 < TWO32 / 2 then x % TWO32 else x % TWO32 - TWO32 }

  function Int64(x: nat): int { if x % TWO64 < TWO64 / 2 then x % TWO64 else x % TWO64 - TWO64 }

  predicate IsDigit(c: byte) { 48 <= c <= 57 }

  /** Setting bit 0x20 maps exactly the two ASCII letter ranges to a-z. */
  predicate IsAlpha(c: byte) { 65 <= c <= 90 || 97 <= c <= 122 }

  predicate IsAlphaNum(c: byte) { IsAlpha(c) || IsDigit(c) }

  predicate IsHex(c: byte) { IsDigit(c) || 65 <= c <= 70 || 97 <= c <= 102 }

  /** The unhex table restricted to hexadecimal digits. */
  function Unhex(c: byte): (v: nat)
    requires IsHex(c)
    ensures v < 16
  {
    if IsDigit(c) then c - 48 else if c <= 70 then c - 55 else c - 87
  }

  function Lower(c: byte): byte { if 65 <= c <= 90 then c + 32 else c }

  const CAPITALS := "ABCDEFGHIJKLMNOPQRSTUVWXYZ"
  const SMALLS := "abcdefghijklmnopqrstuvwxyz"

  /** Each capital letter becomes the small one of the same place in the alphabet; nothing else changes. */
  lemma LowerIs(c: byte)
    ensures 65 <= c < 65 + |CAPITALS| ==>
              CAPITALS[c - 65] as int == c && Lower(c) == SMALLS[c - 65] as int
    ensures !(65 <= c < 65 + |CAPITALS|) ==> Lower(c) == c
  {
    assert |CAPITALS| == 26 && |SMALLS| == 26;
  }

  /** The bytes of a string of ASCII characters. */
  function Ascii(s: string): (r: seq<byte>)
    ensures |r| == |s|
  {
    seq(|s|, i requires 0 <= i < |s| => s[i] as int % 128)
  }

  /** The first position of a byte, or the end. */
  function Find(c: byte, s: seq<byte>): (k: nat)
    ensures k <= |s|
    ensures k < |s| ==> s[k] == c
    ensures forall i | 0 <= i < k :: s[i] != c
  {
    if s == [] || s[0] == c then 0 else 1 + Find(c, s[1..])
  }
}
