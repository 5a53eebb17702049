/** The Content-Length accumulator of http_parser_execute. */
module HttpLength {
  import opened Bytes
  import HttpBody

  /** The largest length the conservative overflow test lets through. */
  const MAX_LENGTH := 18446744073709551609

  datatype LengthResult = Length(n: u64) | Rejected(error: HttpBody.Errno)

  /** What the scan expects after the first digit: h_content_length_num or h_content_length_ws. */
  datatype HeaderState = InNumber | InSpaces

  predicate Digits(s: seq<byte>, lo: nat, hi: nat)
    requires lo <= hi <= |s|
  {
    forall i :: lo <= i < hi ==> IsDigit(s[i])
  }

  predicate Spaces(s: seq<byte>, lo: nat, hi: nat)
    requires lo <= hi <= |s|
  {
    forall i :: lo <= i < hi ==> s[i] == SP
  }

  /** The value of the first k bytes as a decimal numeral. */
  function DecValue(s: seq<byte>, k: nat): nat
    requires k <= |s| && Digits(s, 0, k)
  {
    if k == 0 then 0 else DecValue(s, k - 1) * 10 + (s[k - 1] - 48)
  }

  predicate IsHeaderChar(c: byte) { c == CR || c == LF || c == 9 || (c > 31 && c != 127) }

  /** Tabs, line breaks and every byte from the space on, but for DEL. */
  lemma HeaderCharIs(c: byte)
    ensures IsHeaderChar(c) <==> c == 9 || c == 10 || c == 13 || 32 <= c <= 126 || 128 <= c <= 255
  {
  }

  /** The value is k digits, then spaces only, and not above the limit. */
  predicate Numeral(value: seq<byte>, k: nat) {
    0 < k <= |value| && Digits(value, 0, k) && Spaces(value, k, |value|) && DecValue(value, k) <= MAX_LENGTH
  }

  lemma {:induction false} DecValueGrows(s: seq<byte>, i: nat, k: nat)
    requires i <= k <= |s| && Digits(s, 0, k)
    ensures DecValue(s, i) <= DecValue(s, k)
  {
    if i < k {
      DecValueGrows(s, i, k - 1);
    }
  }

  lemma NextDigit(s: seq<byte>, i: nat)
    requires i < |s| && Digits(s, 0, i + 1)
    ensures DecValue(s, i + 1) == DecValue(s, i) * 10 + (s[i] - 48) && IsDigit(s[i])
  {
  }

  /** Once a prefix is too large to be shifted, no continuation is a numeral within the limit. */
  lemma TooLarge(value: seq<byte>, i: nat, k: nat)
    requires i < |value| && Digits(value, 0, i + 1) && (ABSENT - 10) / 10 < DecValue(value, i)
    ensures !Numeral(value, k)
  {
    hide DecValue;
    NextDigit(value, i);
    assert DecValue(value, i + 1) > MAX_LENGTH;
    if k <= i {
      assert IsDigit(value[k]);
    } else if k <= |value| && Digits(value, 0, k) {
      DecValueGrows(value, i + 1, k);
    }
  }

  /** After d digits and spaces up to i, a byte that cannot follow rules out every numeral. */
  lemma BadByte(value: seq<byte>, d: nat, i: nat, k: nat)
    requires d <= i < |value| && Digits(value, 0, d) && Spaces(value, d, i)
    requires value[i] != SP && (d == i ==> !IsDigit(value[i]))
    ensures !Numeral(value, k)
  {
    assert d < i ==> value[d] == SP;
    assert k <= i < |value| ==> value[i] != SP;
  }

  /** A value is a numeral in at most one way. */
  lemma OneNumeral(value: seq<byte>, j: nat, k: nat)
    requires Numeral(value, j) && Numeral(value, k)
    ensures j == k
  {
    assert j < |value| ==> value[j] == SP;
    assert k < |value| ==> value[k] == SP;
  }

  /** Below the bound another digit neither wraps around nor reaches ABSENT. */
  lemma DigitFits(n: u64, ch: byte)
    requires n <= (ABSENT - 10) / 10 && IsDigit(ch)
    ensures (n * 10 % TWO64 + (ch - 48)) % TWO64 == n * 10 + (ch - 48) <= MAX_LENGTH
  {
  }

  /**
   * The scan of a Content-Length value, from its first byte up to the line end. It accepts
   * exactly the numerals (with trailing spaces) up to MAX_LENGTH and then holds their value:
   * nothing wraps, and ABSENT is never produced.
   */
  method ScanContentLength(value: seq<byte>, seenBefore: bool, lenient: bool) returns (r: LengthResult)
    requires CR !in value && LF !in value
    ensures r.Length? <==> !seenBefore && exists k: nat :: Numeral(value, k)
    ensures r.Length? ==> forall k: nat :: Numeral(value, k) ==> r.n == DecValue(value, k) < ABSENT
    ensures r == Rejected(HttpBody.UnexpectedContentLength) <==> seenBefore && value != [] && IsDigit(value[0])
  {
    if value == [] {
      return Rejected(HttpBody.InvalidContentLength);
    }
    if !IsDigit(value[0]) {
      return Rejected(HttpBody.InvalidContentLength);
    }
    if seenBefore {
      return Rejected(HttpBody.UnexpectedContentLength);
    }
    var contentLength: u64 := value[0] - 48;
    var state := InNumber;
    ghost var d := 1;
    var i := 1;
    while i < |value|
      invariant 1 <= d <= i <= |value| && (state == InNumber ==> d == i) && (state == InSpaces ==> d < i)
      invariant Digits(value, 0, d) && Spaces(value, d, i)
      invariant contentLength == DecValue(value, d) <= MAX_LENGTH
    {
      var ch := value[i];
      if !lenient && !IsHeaderChar(ch) {
        forall k: nat { BadByte(value, d, i, k); }
        return Rejected(HttpBody.InvalidHeaderToken);
      }
      if state == InNumber {
        if ch == SP {
          state := InSpaces;
        } else {
          if !IsDigit(ch) {
            forall k: nat { BadByte(value, d, i, k); }
            return Rejected(HttpBody.InvalidContentLength);
          }
          var t: u64 := contentLength * 10 % TWO64;
          t := (t + (ch - 48)) % TWO64;
          if (ABSENT - 10) / 10 < contentLength {
            forall k: nat { TooLarge(value, i, k); }
            return Rejected(HttpBody.InvalidContentLength);
          }
          DigitFits(contentLength, ch);
          contentLength := t;
          d := i + 1;
        }
      } else if ch != SP {
        forall k: nat { BadByte(value, d, i, k); }
        return Rejected(HttpBody.InvalidContentLength);
      }
      i := i + 1;
    }
    assert Numeral(value, d);
    forall k: nat | Numeral(value, k) { OneNumeral(value, k, d); }
    return Length(contentLength);
  }
}
