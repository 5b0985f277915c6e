/**
 * The code-point encoder of the terminal bridge, against the UTF-8 of RFC 3629:
 * sections 3 and 4 give the bit layout and the grammar of well-formed byte sequences.
 * Shifts and masks are written as division, remainder and addition; `ShiftsAndMasks`
 * says that on 32-bit words these are the bits the source computes.
 */
module Utf8 {
  import opened Basics

  type Byte = x: int | 0 <= x < 0x100
  type CodePoint = x: int | 0 <= x < 0x1_0000_0000

  /** Surrogates and values above 0x10FFFF cannot be encoded; U+FFFD stands in for them. */
  function Sanitize(cp: CodePoint): (r: CodePoint)
    ensures r <= 0x10FFFF && !(0xD800 <= r <= 0xDFFF)
  {
    if 0xD800 <= cp <= 0xDFFF || cp > 0x10FFFF then 0xFFFD else cp
  }

  /** The bytes one append writes. */
  function Encode(raw: CodePoint): (bytes: seq<Byte>)
    ensures 1 <= |bytes| <= 4
  {
    var cp := Sanitize(raw);
    if cp < 0x80 then [cp]
    else if cp < 0x800 then [0xC0 + cp / 0x40, 0x80 + cp % 0x40]
    else if cp < 0x10000 then [0xE0 + cp / 0x1000, 0x80 + cp / 0x40 % 0x40, 0x80 + cp % 0x40]
    else [0xF0 + cp / 0x40000, 0x80 + cp / 0x1000 % 0x40, 0x80 + cp / 0x40 % 0x40, 0x80 + cp % 0x40]
  }

  /**
   * On the ranges where the encoder uses them, the source's shifts and masks are these
   * sums of 32-bit words. That a word's quotients, remainders and sums below 2^32 are
   * those of its value, as `Encode` computes them, is by reading.
   */
  lemma ShiftsAndMasks(cp: bv32)
    ensures cp < 0x800 ==> 0xC0 | (cp >> 6) == 0xC0 + cp / 0x40
    ensures cp < 0x10000 ==> 0xE0 | (cp >> 12) == 0xE0 + cp / 0x1000
    ensures cp <= 0x10FFFF ==> 0xF0 | (cp >> 18) == 0xF0 + cp / 0x40000
    ensures 0x80 | (cp & 0x3F) == 0x80 + cp % 0x40
    ensures 0x80 | ((cp >> 6) & 0x3F) == 0x80 + cp / 0x40 % 0x40
    ensures 0x80 | ((cp >> 12) & 0x3F) == 0x80 + cp / 0x1000 % 0x40
  {
  }

  function EncodeAll(cps: seq<CodePoint>): (bytes: seq<Byte>) {
    if cps == [] then [] else EncodeAll(cps[..|cps| - 1]) + Encode(cps[|cps| - 1])
  }

  // ----- The grammar of section 4 and the bit layout of section 3 -----

  predicate Tail(b: Byte) { 0x80 <= b <= 0xBF }

  predicate Utf8Two(b0: Byte, b1: Byte) { 0xC2 <= b0 <= 0xDF && Tail(b1) }

  predicate Utf8Three(b0: Byte, b1: Byte, b2: Byte) {
    && Tail(b2)
    && ((b0 == 0xE0 && 0xA0 <= b1 <= 0xBF) || (0xE1 <= b0 <= 0xEC && Tail(b1))
        || (b0 == 0xED && 0x80 <= b1 <= 0x9F) || (0xEE <= b0 <= 0xEF && Tail(b1)))
  }

  predicate Utf8Four(b0: Byte, b1: Byte, b2: Byte, b3: Byte) {
    && Tail(b2) && Tail(b3)
    && ((b0 == 0xF0 && 0x90 <= b1 <= 0xBF) || (0xF1 <= b0 <= 0xF3 && Tail(b1)) || (b0 == 0xF4 && 0x80 <= b1 <= 0x8F))
  }

  /** The length of the UTF8-char the bytes start with, or 0 if they start with none. */
  function CharLength(bytes: seq<Byte>): (n: nat)
    ensures n <= 4 && n <= |bytes|
  {
    if |bytes| >= 1 && bytes[0] <= 0x7F then 1
    else if |bytes| >= 2 && Utf8Two(bytes[0], bytes[1]) then 2
    else if |bytes| >= 3 && Utf8Three(bytes[0], bytes[1], bytes[2]) then 3
    else if |bytes| >= 4 && Utf8Four(bytes[0], bytes[1], bytes[2], bytes[3]) then 4
    else 0
  }

  /** The low bits of a byte, as a number. */
  function Low(b: Byte, modulus: int): (r: int)
    requires modulus > 0
    ensures 0 <= r < modulus
  {
    b % modulus
  }

  /** The payload bits of the bytes, most significant first. */
  function ScalarValue(bytes: seq<Byte>): (cp: CodePoint)
    requires 1 <= |bytes| <= 4
  {
    if |bytes| == 1 then Low(bytes[0], 0x80)
    else if |bytes| == 2 then Low(bytes[0], 0x20) * 0x40 + Low(bytes[1], 0x40)
    else if |bytes| == 3 then Low(bytes[0], 0x10) * 0x1000 + Low(bytes[1], 0x40) * 0x40 + Low(bytes[2], 0x40)
    else Low(bytes[0], 0x08) * 0x40000 + Low(bytes[1], 0x40) * 0x1000 + Low(bytes[2], 0x40) * 0x40 + Low(bytes[3], 0x40)
  }

  /** Decoding; None if the bytes are not well-formed UTF-8. */
  function Decode(bytes: seq<Byte>): (cps: Option<seq<CodePoint>>)
    decreases |bytes|
  {
    if bytes == [] then Some([])
    else
      var n := CharLength(bytes);
      if n == 0 then None
      else
        var rest := Decode(bytes[n..]);
        if rest.None? then None else Some([ScalarValue(bytes[..n])] + rest.value)
  }

  predicate WellFormed(bytes: seq<Byte>) { Decode(bytes).Some? }

  // ----- Arithmetic of the layouts -----

  lemma TwoDigits(cp: int)
    requires 0x80 <= cp < 0x800
    ensures var b0, b1 := 0xC0 + cp / 0x40, 0x80 + cp % 0x40;
            Utf8Two(b0, b1) && Low(b0, 0x20) * 0x40 + Low(b1, 0x40) == cp
  {
  }

  lemma ThreeDigits(cp: int)
    requires 0x800 <= cp < 0x10000 && !(0xD800 <= cp <= 0xDFFF)
    ensures var b0, b1, b2 := 0xE0 + cp / 0x1000, 0x80 + cp / 0x40 % 0x40, 0x80 + cp % 0x40;
            Utf8Three(b0, b1, b2) && Low(b0, 0x10) * 0x1000 + Low(b1, 0x40) * 0x40 + Low(b2, 0x40) == cp
  {
    assert cp / 0x40 / 0x40 == cp / 0x1000;
  }

  lemma FourDigits(cp: int)
    requires 0x10000 <= cp <= 0x10FFFF
    ensures var b0, b1 := 0xF0 + cp / 0x40000, 0x80 + cp / 0x1000 % 0x40;
            var b2, b3 := 0x80 + cp / 0x40 % 0x40, 0x80 + cp % 0x40;
            && Utf8Four(b0, b1, b2, b3)
            && Low(b0, 0x08) * 0x40000 + Low(b1, 0x40) * 0x1000 + Low(b2, 0x40) * 0x40 + Low(b3, 0x40) == cp
  {
    assert cp / 0x40 / 0x40 == cp / 0x1000;
    assert cp / 0x1000 / 0x40 == cp / 0x40000;
  }

  lemma LastDigit(q: int, r: int)
    requires 0 <= r < 0x40
    ensures (q * 0x40 + r) / 0x40 == q && (q * 0x40 + r) % 0x40 == r
  {
  }

  lemma TwoDigitsBack(b0: Byte, b1: Byte)
    requires Utf8Two(b0, b1)
    ensures var cp := Low(b0, 0x20) * 0x40 + Low(b1, 0x40);
            0x80 <= cp < 0x800 && 0xC0 + cp / 0x40 == b0 && 0x80 + cp % 0x40 == b1
  {
  }

  lemma ThreeDigitsBack(b0: Byte, b1: Byte, b2: Byte)
    requires Utf8Three(b0, b1, b2)
    ensures var cp := Low(b0, 0x10) * 0x1000 + Low(b1, 0x40) * 0x40 + Low(b2, 0x40);
            && 0x800 <= cp < 0x10000 && !(0xD800 <= cp <= 0xDFFF)
            && 0xE0 + cp / 0x1000 == b0 && 0x80 + cp / 0x40 % 0x40 == b1 && 0x80 + cp % 0x40 == b2
  {
    var cp := Low(b0, 0x10) * 0x1000 + Low(b1, 0x40) * 0x40 + Low(b2, 0x40);
    assert cp / 0x40 == Low(b0, 0x10) * 0x40 + Low(b1, 0x40);
  }

  lemma FourDigitsBack(b0: Byte, b1: Byte, b2: Byte, b3: Byte)
    requires Utf8Four(b0, b1, b2, b3)
    ensures var cp := Low(b0, 0x08) * 0x40000 + Low(b1, 0x40) * 0x1000 + Low(b2, 0x40) * 0x40 + Low(b3, 0x40);
            && 0x10000 <= cp <= 0x10FFFF
            && 0xF0 + cp / 0x40000 == b0 && 0x80 + cp / 0x1000 % 0x40 == b1
            && 0x80 + cp / 0x40 % 0x40 == b2 && 0x80 + cp % 0x40 == b3
  {
    var d0, d1, d2, d3 := Low(b0, 0x08), Low(b1, 0x40), Low(b2, 0x40), Low(b3, 0x40);
    var cp := d0 * 0x40000 + d1 * 0x1000 + d2 * 0x40 + d3;
    LastDigit(d0 * 0x1000 + d1 * 0x40 + d2, d3);
    LastDigit(d0 * 0x40 + d1, d2);
    LastDigit(d0, d1);
    assert cp / 0x1000 == cp / 0x40 / 0x40 && cp / 0x40000 == cp / 0x1000 / 0x40;
  }

  // ----- One character -----

  /** An encoded code point is one UTF8-char, whatever follows it, and stands for the sanitized value. */
  lemma EncodeIsOneChar(raw: CodePoint, rest: seq<Byte>)
    ensures CharLength(Encode(raw) + rest) == |Encode(raw)|
    ensures ScalarValue(Encode(raw)) == Sanitize(raw)
  {
    var cp := Sanitize(raw);
    hide Sanitize, Low;
    if cp < 0x80 {
      assert Low(cp, 0x80) == cp by {
        SmallIsLow(cp);
      }
    } else if cp < 0x800 {
      TwoDigits(cp);
    } else if cp < 0x10000 {
      ThreeDigits(cp);
    } else {
      FourDigits(cp);
    }
  }

  lemma SmallIsLow(b: Byte)
    requires b < 0x80
    ensures Low(b, 0x80) == b
  {
  }

  /** Every UTF8-char is the encoding of its scalar value, which is encodable. */
  lemma CharIsEncoded(bytes: seq<Byte>)
    requires CharLength(bytes) > 0
    ensures var cp := ScalarValue(bytes[..CharLength(bytes)]);
            Sanitize(cp) == cp && Encode(cp) == bytes[..CharLength(bytes)]
  {
    hide Low;
    var n := CharLength(bytes);
    if n == 1 {
      SmallIsLow(bytes[0]);
    } else if n == 2 {
      TwoDigitsBack(bytes[0], bytes[1]);
    } else if n == 3 {
      ThreeDigitsBack(bytes[0], bytes[1], bytes[2]);
    } else {
      FourDigitsBack(bytes[0], bytes[1], bytes[2], bytes[3]);
    }
  }

  // ----- Sequences -----

  function SanitizeAll(cps: seq<CodePoint>): (r: seq<CodePoint>)
    ensures |r| == |cps| && forall i :: 0 <= i < |cps| ==> r[i] == Sanitize(cps[i])
    ensures forall i :: 0 <= i < |cps| ==>
              r[i] == if 0xD800 <= cps[i] <= 0xDFFF || cps[i] > 0x10FFFF then 0xFFFD else cps[i]
  {
    seq(|cps|, i requires 0 <= i < |cps| => Sanitize(cps[i]))
  }

  lemma {:induction false} EncodeAllConcat(a: seq<CodePoint>, b: seq<CodePoint>)
    ensures EncodeAll(a + b) == EncodeAll(a) + EncodeAll(b)
    decreases |b|
  {
    hide Encode;
    if b == [] {
      assert a + b == a;
    } else {
      var n := |b| - 1;
      assert (a + b)[..|a + b| - 1] == a + b[..n];
      EncodeAllConcat(a, b[..n]);
    }
  }

  lemma {:induction false} EncodeAllFirst(cps: seq<CodePoint>)
    requires cps != []
    ensures EncodeAll(cps) == Encode(cps[0]) + EncodeAll(cps[1..])
  {
    hide Encode;
    var one := [cps[0]];
    assert cps == one + cps[1..];
    EncodeAllConcat(one, cps[1..]);
    assert one[..0] == [] && EncodeAll(one) == EncodeAll([]) + Encode(cps[0]) == Encode(cps[0]);
  }

  /**
   * Whatever 32-bit values are appended, the buffer is well-formed UTF-8 and decodes to
   * the same sequence, with unencodable values replaced by U+FFFD.
   */
  lemma {:induction false} EncodedTextDecodes(cps: seq<CodePoint>)
    ensures Decode(EncodeAll(cps)) == Some(SanitizeAll(cps))
    decreases |cps|
  {
    hide Encode, CharLength, ScalarValue, Sanitize;
    if cps == [] {
      assert SanitizeAll(cps) == [];
    } else {
      var bytes := EncodeAll(cps);
      var first, rest := Encode(cps[0]), EncodeAll(cps[1..]);
      EncodeAllFirst(cps);
      EncodeIsOneChar(cps[0], rest);
      assert bytes == first + rest && bytes[..|first|] == first && bytes[|first|..] == rest;
      EncodedTextDecodes(cps[1..]);
      assert SanitizeAll(cps) == [Sanitize(cps[0])] + SanitizeAll(cps[1..]);
    }
  }

  lemma {:induction false} DecodeFirst(bytes: seq<Byte>)
    requires bytes != [] && WellFormed(bytes)
    ensures var n := CharLength(bytes); var cps := Decode(bytes).value;
            && n > 0 && WellFormed(bytes[n..]) && |cps| > 0
            && cps[0] == ScalarValue(bytes[..n]) && cps[1..] == Decode(bytes[n..]).value
  {
    hide CharLength, ScalarValue;
  }

  /** Conversely, well-formed UTF-8 is the encoding of what it decodes to: encoding loses and adds nothing. */
  lemma {:induction false} DecodedTextEncodes(bytes: seq<Byte>)
    requires WellFormed(bytes)
    ensures EncodeAll(Decode(bytes).value) == bytes
    decreases |bytes|
  {
    hide Encode, CharLength, ScalarValue, Sanitize;
    if bytes == [] {
      assert Decode(bytes).value == [];
    } else {
      hide EncodeAll, Decode, WellFormed;
      var n := CharLength(bytes);
      DecodeFirst(bytes);
      CharIsEncoded(bytes);
      DecodedTextEncodes(bytes[n..]);
      EncodeAllFirst(Decode(bytes).value);
      assert bytes == bytes[..n] + bytes[n..];
    }
  }

  /** Well-formed UTF-8 decodes to encodable values only. */
  lemma {:induction false} DecodedTextIsSanitized(bytes: seq<Byte>)
    requires WellFormed(bytes)
    ensures SanitizeAll(Decode(bytes).value) == Decode(bytes).value
    decreases |bytes|
  {
    if bytes == [] {
    } else {
      hide Encode, CharLength, ScalarValue, Sanitize, Decode, WellFormed;
      var n := CharLength(bytes);
      DecodeFirst(bytes);
      CharIsEncoded(bytes);
      DecodedTextIsSanitized(bytes[n..]);
      var cps := Decode(bytes).value;
      assert cps == [cps[0]] + cps[1..];
    }
  }
}
