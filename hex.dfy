/**
 * Hex digits as Tpm::Decode and Tpm::HexToText read them (src/modules/tpm/src/lib/Tpm.cpp).
 * Strings are sequences of characters; a C++ byte b is the character with code b.
 */
module Hex {
  import opened Common

  predicate IsHexDigit(c: char) {
    ('0' <= c <= '9') || ('a' <= c <= 'f') || ('A' <= c <= 'F')
  }

  /** A decimal digit, or a hex letter of the given case. */
  predicate IsDigitOfCase(c: char, upper: bool) {
    ('0' <= c <= '9') || (if upper then 'A' <= c <= 'F' else 'a' <= c <= 'f')
  }

  /** Tpm::Decode: the nibble a hex digit stands for, and (unsigned char)-1 for every other character. */
  function Decode(c: char): (v: byte)
    ensures v < 16 <==> IsHexDigit(c)
    ensures v == 0xFF <==> !IsHexDigit(c)
  {
    if '0' <= c <= '9' then c as int - '0' as int
    else if 'a' <= c <= 'f' then c as int + 10 - 'a' as int
    else if 'A' <= c <= 'F' then c as int + 10 - 'A' as int
    else 0xFF
  }

  /** The digit that stands for nibble v, in the given case: the reference encoding Decode inverts. */
  function DigitChar(v: nat, upper: bool): char
    requires v < 16
  {
    if v < 10 then ('0' as int + v) as char
    else if upper then ('A' as int + v - 10) as char
    else ('a' as int + v - 10) as char
  }

  lemma DecodeDigitChar(v: nat, upper: bool)
    requires v < 16
    ensures IsDigitOfCase(DigitChar(v, upper), upper)
    ensures Decode(DigitChar(v, upper)) == v
  {
  }

  lemma DigitCharDecode(c: char, upper: bool)
    requires IsDigitOfCase(c, upper)
    ensures Decode(c) < 16 && DigitChar(Decode(c), upper) == c
  {
  }

  /**
   * The byte HexToText appends for the digit pair (hi, lo). Decode(hi) * 16 is stored in an unsigned char
   * before the sum, so it is taken modulo 256: an invalid high digit (0xFF) contributes 0xF0.
   */
  function PairByte(hi: char, lo: char): (b: nat)
    ensures b < 0x200
    ensures IsHexDigit(lo) ==> b < 0x100
  {
    TruncatedHighNibble(Decode(hi));
    (Decode(hi) * 16) % 0x100 + Decode(lo)
  }

  lemma TruncatedHighNibble(d: byte)
    ensures (d * 16) % 0x100 == (d % 16) * 16
  {
    assert d * 16 == (d / 16) * 0x100 + (d % 16) * 16;
  }

  /** Every low digit (odd index) is a hex digit: the only check of HexToText that can fail. */
  predicate LowDigitsValid(s: string) {
    forall i :: 0 <= i < |s| && i % 2 == 1 ==> IsHexDigit(s[i])
  }

  /** What HexToText leaves in its argument: one byte per digit pair, or the empty string. */
  function HexToTextResult(s: string): (r: string)
    ensures |r| == 0 || 2 * |r| == |s|
  {
    if |s| % 2 == 0 && LowDigitsValid(s) then
      seq(|s| / 2, i requires 0 <= i < |s| / 2 => PairByte(s[2 * i], s[2 * i + 1]) as char)
    else
      ""
  }

  /** Char j of a non-empty HexToText result is the pair byte of digits 2j and 2j + 1. */
  lemma HexToTextResultAt(s: string, j: nat)
    requires |s| % 2 == 0 && LowDigitsValid(s) && j < |s| / 2
    ensures |HexToTextResult(s)| == |s| / 2 && 2 * j + 1 < |s|
    ensures IsHexDigit(s[2 * j + 1])
    ensures HexToTextResult(s)[j] == PairByte(s[2 * j], s[2 * j + 1]) as char
  {
    LowDigitAt(s, j);
    var n := |s| / 2;
    var pairs := seq(n, i requires 0 <= i < n => PairByte(s[2 * i], s[2 * i + 1]) as char);
    assert HexToTextResult(s) == pairs;
    assert pairs[j] == PairByte(s[2 * j], s[2 * j + 1]) as char;
  }

  /** The low digit of pair j exists and is a hex digit. */
  lemma LowDigitAt(s: string, j: nat)
    requires |s| % 2 == 0 && LowDigitsValid(s) && j < |s| / 2
    ensures 2 * j + 1 < |s| && IsHexDigit(s[2 * j + 1])
  {
    assert (2 * j + 1) % 2 == 1;
  }

  /** Hex encoding of a byte string, two digits per byte, high nibble first. */
  function HexEncode(b: string, upper: bool): (h: string)
    requires IsByteString(b)
    ensures |h| == 2 * |b|
    ensures forall i :: 0 <= i < |h| ==> IsDigitOfCase(h[i], upper)
  {
    if b == [] then []
    else
      DecodeDigitChar(b[0] as int / 16, upper);
      DecodeDigitChar(b[0] as int % 16, upper);
      [DigitChar(b[0] as int / 16, upper), DigitChar(b[0] as int % 16, upper)] + HexEncode(b[1..], upper)
  }

  lemma {:induction false} HexEncodeAt(b: string, upper: bool, i: nat)
    requires IsByteString(b) && i < |b|
    ensures HexEncode(b, upper)[2 * i] == DigitChar(b[i] as int / 16, upper)
    ensures HexEncode(b, upper)[2 * i + 1] == DigitChar(b[i] as int % 16, upper)
  {
    if i > 0 {
      HexEncodeAt(b[1..], upper, i - 1);
    }
  }

  /** An odd-length string decodes to the empty string. */
  lemma OddLengthYieldsEmpty(s: string)
    requires |s| % 2 == 1
    ensures HexToTextResult(s) == ""
  {
  }

  /** An invalid low digit anywhere empties the whole result. */
  lemma InvalidLowDigitYieldsEmpty(s: string, i: nat)
    requires i < |s| && i % 2 == 1 && !IsHexDigit(s[i])
    ensures HexToTextResult(s) == ""
  {
  }

  /** On an even-length string of hex digits, byte i is 16 * Decode(s[2i]) + Decode(s[2i+1]). */
  lemma DecodesEveryPair(s: string, i: nat)
    requires |s| % 2 == 0 && forall k :: 0 <= k < |s| ==> IsHexDigit(s[k])
    requires i < |s| / 2
    ensures |HexToTextResult(s)| == |s| / 2
    ensures HexToTextResult(s)[i] as int == 16 * Decode(s[2 * i]) as int + Decode(s[2 * i + 1]) as int
  {
    assert LowDigitsValid(s);
    HexToTextResultAt(s, i);
    PairByteOfDigits(s[2 * i], s[2 * i + 1]);
  }

  /**
   * The high-digit half of HexToText's validity check can never fail: an invalid high digit is read as
   * nibble 0xF instead of emptying the result.
   */
  lemma InvalidHighDigitReadAsF(s: string, j: nat)
    requires |s| % 2 == 0 && LowDigitsValid(s)
    requires 2 * j + 1 < |s| && !IsHexDigit(s[2 * j])
    ensures |HexToTextResult(s)| == |s| / 2
    ensures HexToTextResult(s)[j] as int == 0xF0 + Decode(s[2 * j + 1]) as int
  {
    HexToTextResultAt(s, j);
    PairByteOfInvalidHigh(s[2 * j], s[2 * j + 1]);
  }

  lemma PairByteOfInvalidHigh(hi: char, lo: char)
    requires !IsHexDigit(hi) && IsHexDigit(lo)
    ensures PairByte(hi, lo) as int == 0xF0 + Decode(lo) as int
  {
    InvalidNibbleTruncates();
  }

  lemma InvalidNibbleTruncates()
    ensures (0xFF * 16) % 0x100 == 0xF0
  {
  }

  /** Two valid digits make the byte 16 * high + low. */
  lemma PairByteOfDigits(hi: char, lo: char)
    requires IsHexDigit(hi) && IsHexDigit(lo)
    ensures PairByte(hi, lo) == Decode(hi) * 16 + Decode(lo)
  {
    TruncatedHighNibble(Decode(hi));
  }

  /** A decoded string with valid low digits is a byte string. */
  lemma DecodedIsByteString(s: string)
    requires |s| % 2 == 0 && LowDigitsValid(s)
    ensures IsByteString(HexToTextResult(s))
  {
    var r := HexToTextResult(s);
    forall k | 0 <= k < |r|
      ensures r[k] as int < 0x100
    {
      HexToTextResultAt(s, k);
    }
  }

  /** Decoding the hex encoding (either case) of any byte string gives it back. */
  lemma {:induction false} HexRoundTrip(b: string, upper: bool)
    requires IsByteString(b)
    ensures HexToTextResult(HexEncode(b, upper)) == b
  {
    var h := HexEncode(b, upper);
    assert LowDigitsValid(h) by {
      forall i | 0 <= i < |h| && i % 2 == 1
        ensures IsHexDigit(h[i])
      {
        assert IsDigitOfCase(h[i], upper);
      }
    }
    var r := HexToTextResult(h);
    forall i | 0 <= i < |b|
      ensures r[i] == b[i]
    {
      HexRoundTripAt(b, upper, i);
    }
  }

  lemma HexRoundTripAt(b: string, upper: bool, i: nat)
    requires IsByteString(b) && i < |b| && LowDigitsValid(HexEncode(b, upper))
    ensures |HexToTextResult(HexEncode(b, upper))| == |b|
    ensures HexToTextResult(HexEncode(b, upper))[i] == b[i]
  {
    var h := HexEncode(b, upper);
    var v := b[i] as int;
    HexToTextResultAt(h, i);
    HexEncodeAt(b, upper, i);
    DecodeDigitChar(v / 16, upper);
    DecodeDigitChar(v % 16, upper);
    assert Decode(h[2 * i]) as int == v / 16 && Decode(h[2 * i + 1]) as int == v % 16;
    PairByteOfDigits(h[2 * i], h[2 * i + 1]);
    NibbleJoin(v);
    assert PairByte(h[2 * i], h[2 * i + 1]) == v;
  }

  /** Encoding the decoded form of a well-formed hex string in its own case gives the string back. */
  lemma {:induction false} EncodeOfDecoded(s: string, upper: bool)
    requires |s| % 2 == 0
    requires forall k :: 0 <= k < |s| ==> IsDigitOfCase(s[k], upper)
    ensures IsByteString(HexToTextResult(s))
    ensures HexEncode(HexToTextResult(s), upper) == s
  {
    assert LowDigitsValid(s);
    DecodedIsByteString(s);
    var r := HexToTextResult(s);
    var h := HexEncode(r, upper);
    assert |r| == |s| / 2;
    forall k | 0 <= k < |s|
      ensures h[k] == s[k]
    {
      var i := k / 2;
      assert k == 2 * i || k == 2 * i + 1;
      EncodeOfDecodedPair(s, upper, i);
    }
  }

  lemma EncodeOfDecodedPair(s: string, upper: bool, i: nat)
    requires |s| % 2 == 0 && i < |s| / 2 && LowDigitsValid(s)
    requires IsDigitOfCase(s[2 * i], upper) && IsDigitOfCase(s[2 * i + 1], upper)
    ensures IsByteString(HexToTextResult(s))
    ensures HexEncode(HexToTextResult(s), upper)[2 * i] == s[2 * i]
    ensures HexEncode(HexToTextResult(s), upper)[2 * i + 1] == s[2 * i + 1]
  {
    var r := HexToTextResult(s);
    DecodedIsByteString(s);
    HexToTextResultAt(s, i);
    PairReencodes(s[2 * i], s[2 * i + 1], upper);
    HexEncodeAt(r, upper, i);
  }

  /** The byte two digits of one case make is written back as those two digits. */
  lemma PairReencodes(hi: char, lo: char, upper: bool)
    requires IsDigitOfCase(hi, upper) && IsDigitOfCase(lo, upper)
    ensures PairByte(hi, lo) < 0x100
    ensures DigitChar(PairByte(hi, lo) / 16, upper) == hi && DigitChar(PairByte(hi, lo) % 16, upper) == lo
  {
    DigitCharDecode(hi, upper);
    DigitCharDecode(lo, upper);
    PairByteOfDigits(hi, lo);
    NibbleSplit(Decode(hi), Decode(lo));
  }

  lemma NibbleJoin(v: nat)
    ensures (v / 16) * 16 + v % 16 == v
  {
  }

  lemma NibbleSplit(hi: nat, lo: nat)
    requires hi < 16 && lo < 16
    ensures (hi * 16 + lo) / 16 == hi && (hi * 16 + lo) % 16 == lo
  {
  }
}
