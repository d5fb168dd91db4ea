/** Go's `encoding/hex` as used by the credential code: `EncodeToString`
    emits lower-case digits, `DecodeString` accepts either case and fails on
    an odd length or on any character that is not a hex digit. */
module Hex {
  import opened Wrappers

  type Byte = b: int | 0 <= b < 256
  type Bytes = seq<Byte>

  predicate IsLowerHexDigit(c: char) {
    '0' <= c <= '9' || 'a' <= c <= 'f'
  }

  predicate IsHexDigit(c: char) {
    IsLowerHexDigit(c) || 'A' <= c <= 'F'
  }

  /** Every character of `s` is a lower-case hex digit. */
  predicate IsLowerHex(s: string) {
    forall i :: 0 <= i < |s| ==> IsLowerHexDigit(s[i])
  }

  /** Every character of `s` is a hex digit of either case. */
  predicate IsHex(s: string) {
    forall i :: 0 <= i < |s| ==> IsHexDigit(s[i])
  }

  /** The value of one digit, or None for a character the decoder rejects. */
  function DigitValue(c: char): (v: Option<int>)
    ensures v.Some? <==> IsHexDigit(c)
    ensures v.Some? ==> 0 <= v.value < 16
  {
    if '0' <= c <= '9' then Some(c as int - '0' as int)
    else if 'a' <= c <= 'f' then Some(c as int - 'a' as int + 10)
    else if 'A' <= c <= 'F' then Some(c as int - 'A' as int + 10)
    else None
  }

  /** The lower-case digit the encoder writes for a nibble. */
  function Digit(n: int): (c: char)
    requires 0 <= n < 16
    ensures IsLowerHexDigit(c)
    ensures DigitValue(c) == Some(n)
  {
    if n < 10 then ('0' as int + n) as char else ('a' as int + n - 10) as char
  }

  /** Two digits per byte, high nibble first. */
  function Encode(b: Bytes): (s: string)
    ensures |s| == 2 * |b|
    ensures IsLowerHex(s)
  {
    if |b| == 0 then ""
    else
      var rest := Encode(b[1..]);
      var s := [Digit(b[0] / 16), Digit(b[0] % 16)] + rest;
      assert forall i :: 2 <= i < |s| ==> s[i] == rest[i - 2];
      s
  }

  /** Decodes pairs of digits; None on odd length or a non-digit. */
  function Decode(s: string): (r: Option<Bytes>)
    ensures r.Some? <==> |s| % 2 == 0 && IsHex(s)
    ensures r.Some? ==> 2 * |r.value| == |s|
    decreases |s|
  {
    if |s| == 0 then Some([])
    else if |s| == 1 then None
    else
      var rest := Decode(s[2..]);
      assert forall i :: 2 <= i < |s| ==> s[i] == s[2..][i - 2];
      match (DigitValue(s[0]), DigitValue(s[1]), rest)
      case (Some(hi), Some(lo), Some(tail)) => Some([hi * 16 + lo] + tail)
      case _ => None
  }

  /** Maps upper-case digits to lower-case and leaves every other character. */
  function LowerDigit(c: char): char {
    if 'A' <= c <= 'F' then (c as int - 'A' as int + 'a' as int) as char else c
  }

  function ToLower(s: string): (t: string)
    ensures |t| == |s|
    ensures forall i :: 0 <= i < |s| ==> t[i] == LowerDigit(s[i])
  {
    seq(|s|, i requires 0 <= i < |s| => LowerDigit(s[i]))
  }

  /** Decoding inverts encoding. */
  lemma {:induction false} DecodeEncode(b: Bytes)
    ensures Decode(Encode(b)) == Some(b)
    decreases |b|
  {
    if |b| > 0 {
      var s := Encode(b);
      assert s[2..] == Encode(b[1..]);
      DecodeEncode(b[1..]);
      assert b == [b[0] / 16 * 16 + b[0] % 16] + b[1..];
    }
  }

  /** A byte assembled from two nibbles splits back into them. */
  lemma Nibbles(hi: int, lo: int)
    requires 0 <= hi < 16 && 0 <= lo < 16
    ensures (hi * 16 + lo) / 16 == hi && (hi * 16 + lo) % 16 == lo
  {
  }

  /** Re-encoding a digit's value writes its lower-case form. */
  lemma DigitOfValue(c: char)
    requires IsHexDigit(c)
    ensures Digit(DigitValue(c).value) == LowerDigit(c)
  {
  }

  /** Encoding what was decoded gives back the input with its digits
      lower-cased: the decoder is case-insensitive, the encoder is not. */
  lemma {:induction false} EncodeDecode(s: string)
    requires Decode(s).Some?
    ensures Encode(Decode(s).value) == ToLower(s)
    decreases |s|
  {
    if |s| > 0 {
      assert IsHexDigit(s[0]) && IsHexDigit(s[1]);
      var hi := DigitValue(s[0]).value;
      var lo := DigitValue(s[1]).value;
      var b := Decode(s).value;
      assert b == [hi * 16 + lo] + Decode(s[2..]).value;
      EncodeDecode(s[2..]);
      Nibbles(hi, lo);
      DigitOfValue(s[0]);
      DigitOfValue(s[1]);
      assert ToLower(s) == [LowerDigit(s[0]), LowerDigit(s[1])] + ToLower(s[2..]);
    }
  }

  /** The encoding of a concatenation is the concatenation of encodings. */
  lemma {:induction false} EncodeAppend(a: Bytes, b: Bytes)
    ensures Encode(a + b) == Encode(a) + Encode(b)
    decreases |a|
  {
    if |a| > 0 {
      assert (a + b)[1..] == a[1..] + b;
      EncodeAppend(a[1..], b);
    } else {
      assert a + b == b;
    }
  }
}
