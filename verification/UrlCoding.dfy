/**
 * Percent-coding as in section 2.1 of RFC 3986. Both loops copy lazily: nothing is copied before the
 * first character that must change.
 */
module UrlCoding {
  import opened Bytes
  import opened Wrappers

  const PERCENT: byte := 37
  const AMP: byte := 38
  const PLUS: byte := 43
  const EQ: byte := 61

  /** The table of characters that stand for themselves: letters, digits, '-', '.', '_', '~', and '='. */
  predicate Unreserved(c: byte) {
    IsAlphaNum(c) || c == 45 || c == 46 || c == 95 || c == 126 || c == EQ
  }

  function HexDigit(v: nat): (c: byte)
    requires v < 16
    ensures IsHex(c) && Unhex(c) == v && Unreserved(c) && c != EQ
  {
    if v < 10 then 48 + v else 55 + v
  }

  // ----- Character by character -----

  function EncodeByte(c: byte, spaceAsPlus: bool): (r: seq<byte>) {
    if Unreserved(c) then [c]
    else if c == SP && spaceAsPlus then [PLUS]
    else [PERCENT, HexDigit(c / 16), HexDigit(c % 16)]
  }

  function Encode(s: seq<byte>, spaceAsPlus: bool): seq<byte> {
    if s == [] then [] else EncodeByte(s[0], spaceAsPlus) + Encode(s[1..], spaceAsPlus)
  }

  /** A percent sign with two hexadecimal digits after it. */
  predicate Escape(s: seq<byte>) { |s| > 2 && s[0] == PERCENT && IsHex(s[1]) && IsHex(s[2]) }

  /** Anything that is not a complete escape is kept as it is. */
  function Decode(s: seq<byte>, spaceAsPlus: bool): seq<byte> {
    if s == [] then []
    else if s[0] == PLUS && spaceAsPlus then [SP] + Decode(s[1..], spaceAsPlus)
    else if Escape(s) then [16 * Unhex(s[1]) + Unhex(s[2])] + Decode(s[3..], spaceAsPlus)
    else [s[0]] + Decode(s[1..], spaceAsPlus)
  }

  lemma {:induction false} EncodeConcat(a: seq<byte>, b: seq<byte>, spaceAsPlus: bool)
    ensures Encode(a + b, spaceAsPlus) == Encode(a, spaceAsPlus) + Encode(b, spaceAsPlus)
  {
    if a == [] {
      assert a + b == b;
    } else {
      assert (a + b)[1..] == a[1..] + b;
      EncodeConcat(a[1..], b, spaceAsPlus);
    }
  }

  /** Decoding looks at most two characters ahead, and never past an encoded character. */
  lemma DecodeEncoded(c: byte, rest: seq<byte>, plusOut: bool, plusIn: bool)
    ensures var d := if c == SP && plusOut && !plusIn then PLUS else c;
            Decode(EncodeByte(c, plusOut) + rest, plusIn) == [d] + Decode(rest, plusIn)
  {
    var s := EncodeByte(c, plusOut) + rest;
    if Unreserved(c) || (c == SP && plusOut) {
      assert s[1..] == rest;
    } else {
      assert s[3..] == rest;
    }
  }

  /** What survives an encoding with one treatment of spaces and a decoding with another. */
  function Respaced(s: seq<byte>, plusOut: bool, plusIn: bool): seq<byte> {
    seq(|s|, i requires 0 <= i < |s| => if s[i] == SP && plusOut && !plusIn then PLUS else s[i])
  }

  lemma {:induction false} DecodeEncodeIs(s: seq<byte>, plusOut: bool, plusIn: bool)
    ensures Decode(Encode(s, plusOut), plusIn) == Respaced(s, plusOut, plusIn)
  {
    if s != [] {
      DecodeEncoded(s[0], Encode(s[1..], plusOut), plusOut, plusIn);
      DecodeEncodeIs(s[1..], plusOut, plusIn);
    }
  }

  /** The round trip gives every string back, unless spaces became plus signs and plus signs stay. */
  lemma RoundTrip(s: seq<byte>, plusOut: bool, plusIn: bool)
    ensures Decode(Encode(s, plusOut), plusIn) == s <==> !(plusOut && !plusIn && SP in s)
  {
    DecodeEncodeIs(s, plusOut, plusIn);
    var r := Respaced(s, plusOut, plusIn);
    if plusOut && !plusIn && SP in s {
      var i :| 0 <= i < |s| && s[i] == SP;
      assert r[i] != s[i];
    } else {
      assert r == s;
    }
  }

  /** An encoded string holds unreserved characters, escapes and plus signs; an equals sign only if the string did. */
  lemma {:induction false} EncodedAlphabet(s: seq<byte>, spaceAsPlus: bool)
    ensures forall c | c in Encode(s, spaceAsPlus) ::
              Unreserved(c) || c == PERCENT || (c == PLUS && spaceAsPlus && SP in s)
    ensures EQ in Encode(s, spaceAsPlus) <==> EQ in s
  {
    if s != [] {
      EncodedAlphabet(s[1..], spaceAsPlus);
      assert s == [s[0]] + s[1..];
    }
  }

  /** The bytes that encode to themselves. */
  predicate StandsForItself(c: byte) {
    65 <= c <= 90 || 97 <= c <= 122 || 48 <= c <= 57 || c == 45 || c == 46 || c == 95 || c == 126 || c == 61
  }

  /** Every other one becomes a plus sign, if it is a space and that is asked for, or three bytes. */
  lemma EncodedBytes(s: seq<byte>, i: nat, spaceAsPlus: bool)
    requires i < |s|
    ensures Encode(s, spaceAsPlus) ==
            Encode(s[..i], spaceAsPlus)
            + (if StandsForItself(s[i]) then [s[i]]
               else if s[i] == 32 && spaceAsPlus then [43]
               else [37, "0123456789ABCDEF"[s[i] / 16] as int, "0123456789ABCDEF"[s[i] % 16] as int])
            + Encode(s[i + 1..], spaceAsPlus)
  {
    hide Encode, EncodeByte;
    var one := Encode([s[i]], spaceAsPlus);
    assert s == s[..i] + ([s[i]] + s[i + 1..]);
    EncodeConcat(s[..i], [s[i]] + s[i + 1..], spaceAsPlus);
    EncodeConcat([s[i]], s[i + 1..], spaceAsPlus);
    OneEncoded(s[i], spaceAsPlus);
  }

  lemma OneEncoded(c: byte, spaceAsPlus: bool)
    ensures Encode([c], spaceAsPlus) ==
            if StandsForItself(c) then [c]
            else if c == 32 && spaceAsPlus then [43]
            else [37, "0123456789ABCDEF"[c / 16] as int, "0123456789ABCDEF"[c % 16] as int]
  {
    assert [c][1..] == [];
    DigitIs(c / 16);
    DigitIs(c % 16);
  }

  lemma DigitIs(v: nat)
    requires v < 16
    ensures HexDigit(v) == "0123456789ABCDEF"[v] as int
  {
  }

  /** Decoding, by its first character: a plus sign, a complete escape in either case, or anything else. */
  lemma DecodedBytes(s: seq<byte>, spaceAsPlus: bool)
    requires s != []
    ensures if s[0] == 43 && spaceAsPlus then Decode(s, spaceAsPlus) == [32] + Decode(s[1..], spaceAsPlus)
            else if |s| > 2 && s[0] == 37 && HexOf(s[1]).Some? && HexOf(s[2]).Some?
            then Decode(s, spaceAsPlus) == [16 * HexOf(s[1]).value + HexOf(s[2]).value] + Decode(s[3..], spaceAsPlus)
            else Decode(s, spaceAsPlus) == [s[0]] + Decode(s[1..], spaceAsPlus)
  {
  }

  /** A hexadecimal digit, of either case. */
  function HexOf(c: byte): Option<nat> {
    if 48 <= c <= 57 then Some(c - 48)
    else if 97 <= c <= 102 then Some(c - 87)
    else if 65 <= c <= 70 then Some(c - 55)
    else None
  }

  /** A string without escapes and, where they count, plus signs decodes to itself. */
  lemma {:induction false} PlainDecodes(s: seq<byte>, spaceAsPlus: bool)
    requires spaceAsPlus ==> PLUS !in s
    requires forall i | 0 <= i < |s| :: !Escape(s[i..])
    ensures Decode(s, spaceAsPlus) == s
  {
    if s != [] {
      assert s[0..] == s;
      forall i | 0 <= i < |s[1..]|
        ensures !Escape(s[1..][i..])
      {
        assert s[1..][i..] == s[i + 1..];
      }
      PlainDecodes(s[1..], spaceAsPlus);
    }
  }

  // ----- The loops -----

  datatype Copy = NotYet | Copied(text: seq<byte>)

  /** What has been produced so far: the untouched prefix if nothing had to be copied yet. */
  function Produced(str: seq<byte>, i: nat, ss: Copy): seq<byte>
    requires i <= |str|
  {
    if ss.Copied? then ss.text else str[..i]
  }

  lemma EncodeNext(str: seq<byte>, i: nat, spaceAsPlus: bool, done: seq<byte>)
    requires i < |str|
    ensures done + Encode(str[i..], spaceAsPlus)
         == done + EncodeByte(str[i], spaceAsPlus) + Encode(str[i + 1..], spaceAsPlus)
  {
    assert str[i..][1..] == str[i + 1..];
  }

  /** How many characters one step of decoding reads, and what it produces. */
  function DecodeByte(s: seq<byte>, spaceAsPlus: bool): (r: (byte, nat))
    requires s != []
    ensures 0 < r.1 <= |s|
  {
    if s[0] == PLUS && spaceAsPlus then (SP, 1)
    else if Escape(s) then (16 * Unhex(s[1]) + Unhex(s[2]), 3)
    else (s[0], 1)
  }

  lemma DecodeNext(str: seq<byte>, i: nat, spaceAsPlus: bool, done: seq<byte>)
    requires i < |str|
    ensures var (c, n) := DecodeByte(str[i..], spaceAsPlus);
            i + n <= |str|
            && done + Decode(str[i..], spaceAsPlus) == done + [c] + Decode(str[i + n..], spaceAsPlus)
  {
    assert str[i..][1..] == str[i + 1..];
    if i + 2 < |str| { assert str[i..][3..] == str[i + 3..]; }
  }

  method UrlEncode(str: seq<byte>, spaceAsPlus: bool) returns (r: seq<byte>)
    ensures r == Encode(str, spaceAsPlus)
    ensures forall plusIn :: Decode(r, plusIn) == str <==> !(spaceAsPlus && !plusIn && SP in str)
  {
    hide Encode, Decode, Unreserved;
    forall plusIn { RoundTrip(str, spaceAsPlus, plusIn); }
    EncodeEmpty(spaceAsPlus);
    var ss := NotYet;
    var i := 0;
    assert str[0..] == str;
    while i < |str|
      invariant i <= |str|
      invariant Produced(str, i, ss) + Encode(str[i..], spaceAsPlus) == Encode(str, spaceAsPlus)
    {
      var c := str[i];
      ghost var before := Produced(str, i, ss);
      if !Unreserved(c) {
        if ss.NotYet? {
          ss := Copied(str[..i]);
        }
        if c == SP && spaceAsPlus {
          ss := Copied(ss.text + [PLUS]);
        } else {
          ss := Copied(ss.text + [PERCENT]);
          ss := Copied(ss.text + [HexDigit(c / 16)]);
          ss := Copied(ss.text + [HexDigit(c % 16)]);
        }
      } else if ss.Copied? {
        ss := Copied(ss.text + [c]);
      }
      EncodeNext(str, i, spaceAsPlus, before);
      assert Produced(str, i + 1, ss) == before + EncodeByte(c, spaceAsPlus) by { EncodeByteIs(c, spaceAsPlus); }
      i := i + 1;
    }
    assert str[i..] == [] && str[..i] == str;
    r := if ss.NotYet? then str else ss.text;
  }

  method UrlDecode(str: seq<byte>, spaceAsPlus: bool) returns (r: seq<byte>)
    ensures r == Decode(str, spaceAsPlus)
  {
    hide Decode;
    DecodeEmpty(spaceAsPlus);
    var ss := NotYet;
    var i := 0;
    assert str[0..] == str;
    while i < |str|
      invariant i <= |str|
      invariant Produced(str, i, ss) + Decode(str[i..], spaceAsPlus) == Decode(str, spaceAsPlus)
    {
      var c := str[i];
      ghost var before, at := Produced(str, i, ss), i;
      DecodeNext(str, i, spaceAsPlus, before);
      if c == PLUS && spaceAsPlus {
        if ss.NotYet? {
          ss := Copied(str[..i]);
        }
        ss := Copied(ss.text + [SP]);
      } else if c == PERCENT && i + 2 < |str| && IsHex(str[i + 1]) && IsHex(str[i + 2]) {
        if ss.NotYet? {
          ss := Copied(str[..i]);
        }
        ss := Copied(ss.text + [16 * Unhex(str[i + 1]) + Unhex(str[i + 2])]);
        i := i + 2;
      } else if ss.Copied? {
        ss := Copied(ss.text + [c]);
      }
      i := i + 1;
      assert Produced(str, i, ss) == before + [DecodeByte(str[at..], spaceAsPlus).0];
    }
    assert str[i..] == [] && str[..i] == str;
    r := if ss.NotYet? then str else ss.text;
  }

  lemma EncodeEmpty(spaceAsPlus: bool)
    ensures Encode([], spaceAsPlus) == []
  {
  }

  lemma DecodeEmpty(spaceAsPlus: bool)
    ensures Decode([], spaceAsPlus) == []
  {
  }

  lemma EncodeByteIs(c: byte, spaceAsPlus: bool)
    ensures Unreserved(c) ==> EncodeByte(c, spaceAsPlus) == [c]
    ensures c == SP ==> !Unreserved(c)
  {
  }
}
