/** The UTF-8 helpers of the raylib text renderer: a character counter and a
    decoder that classify a sequence by its lead byte alone, as section 3 of
    RFC 3629 lays out the encoding, without validating continuation bytes. */
module Utf8 {
  import opened Bytes

  /** Bytes the lead byte `c` claims for its character: the classes
      `< 0x80`, `< 0xE0`, `< 0xF0` and everything else. A stray
      continuation byte 0x80..0xBF falls in the two-byte class. */
  function LeadWidth(c: Byte): (w: nat)
    ensures 1 <= w <= 4
    ensures w == 1 <==> c < 0x80
  {
    if c < 0x80 then 1 else if c < 0xE0 then 2 else if c < 0xF0 then 3 else 4
  }

  /** The number of characters the counter sees: one per lead byte, each
      skipping the bytes its class claims, the last one possibly cut short. */
  function CharCount(s: seq<Byte>): (n: nat)
    decreases |s|
  {
    if s == [] then 0
    else if LeadWidth(s[0]) >= |s| then 1
    else 1 + CharCount(s[LeadWidth(s[0])..])
  }

  /** `CountUTF8Chars`: walks `text` by lead-byte class and counts the steps. */
  method CountUtf8Chars(text: seq<Byte>) returns (count: nat)
    ensures count == CharCount(text)
  {
    count := 0;
    var i := 0;
    while i < |text|
      invariant 0 <= i <= |text| + 3
      invariant i < |text| ==> count + CharCount(text[i..]) == CharCount(text)
      invariant i >= |text| ==> count == CharCount(text)
      decreases |text| - i
    {
      var c := text[i];
      if c < 0x80 {
        i := i + 1;
      } else if c < 0xE0 {
        i := i + 2;
      } else if c < 0xF0 {
        i := i + 3;
      } else {
        i := i + 4;
      }
      count := count + 1;
    }
  }

  /** Every step advances one to four bytes, so the count lies between a
      quarter of the length and the length itself. */
  lemma {:induction false} CharCountBounds(s: seq<Byte>)
    ensures CharCount(s) <= |s|
    ensures |s| <= 4 * CharCount(s)
    decreases |s|
  {
    if s != [] && LeadWidth(s[0]) < |s| {
      CharCountBounds(s[LeadWidth(s[0])..]);
    }
  }

  /** On pure ASCII the count is the byte length. */
  lemma {:induction false} CharCountAscii(s: seq<Byte>)
    requires forall i :: 0 <= i < |s| ==> s[i] < 0x80
    ensures CharCount(s) == |s|
    decreases |s|
  {
    if |s| > 1 {
      CharCountAscii(s[1..]);
    }
  }

  /** The code point the decoder assembles from the character at `i`: the
      lead byte's payload bits followed by six bits of each following byte. */
  function DecodeAt(text: seq<Byte>, i: nat): (cp: int)
    requires i < |text| && i + LeadWidth(text[i]) <= |text|
    ensures 0 <= cp <= 0x1F_FFFF
    ensures text[i] < 0x80 ==> cp == text[i]
  {
    var c := text[i] as int;
    if c < 0x80 then c
    else if c < 0xE0 then (c % 32) * 64 + (text[i + 1] as int) % 64
    else if c < 0xF0 then (c % 16) * 4096 + (text[i + 1] as int % 64) * 64 + text[i + 2] as int % 64
    else (c % 8) * 262144 + (text[i + 1] as int % 64) * 4096
         + (text[i + 2] as int % 64) * 64 + text[i + 3] as int % 64
  }

  /** The character at `index` fits in `text`. */
  predicate Complete(text: seq<Byte>, index: nat)
  {
    index < |text| && index + LeadWidth(text[index]) <= |text|
  }

  /** `GetNextUTF8Char`: decodes the character at `index` and returns the
      position after it, or -1 and the unchanged position when `index` is
      past the end or the character is cut short. On the non-negative values
      involved, `x & (2^k - 1)` is `x % 2^k`, `x << k` is `x * 2^k` and the
      bitwise or of disjoint bit fields is their sum. */
  method GetNextUtf8Char(text: seq<Byte>, index: nat) returns (codepoint: int, next: nat)
    ensures !Complete(text, index) ==> codepoint == -1 && next == index
    ensures Complete(text, index) ==>
              next == index + LeadWidth(text[index]) && codepoint == DecodeAt(text, index)
    ensures codepoint != -1 ==> 0 <= codepoint <= 0x1F_FFFF && index < next <= index + 4
  {
    if index >= |text| {
      return -1, index;
    }
    var c := text[index] as int;
    if c < 0x80 {
      codepoint, next := c, index + 1;
    } else if c < 0xE0 {
      if index + 1 >= |text| {
        return -1, index;
      }
      codepoint := c % 32 * 64 + text[index + 1] as int % 64;
      next := index + 2;
    } else if c < 0xF0 {
      if index + 2 >= |text| {
        return -1, index;
      }
      codepoint := c % 16 * 4096 + text[index + 1] as int % 64 * 64 + text[index + 2] as int % 64;
      next := index + 3;
    } else {
      if index + 3 >= |text| {
        return -1, index;
      }
      codepoint := c % 8 * 262144 + text[index + 1] as int % 64 * 4096
                 + text[index + 2] as int % 64 * 64 + text[index + 3] as int % 64;
      next := index + 4;
    }
  }

  /** The code points the text measurer obtains by calling the decoder from
      the start until it reports -1: one per complete character. */
  function Codepoints(text: seq<Byte>): (cps: seq<int>)
    ensures forall k :: 0 <= k < |cps| ==> 0 <= cps[k] <= 0x1F_FFFF
    decreases |text|
  {
    if !Complete(text, 0) then []
    else [DecodeAt(text, 0)] + Codepoints(text[LeadWidth(text[0])..])
  }

  /** Decoding inside a suffix is decoding at the same place in the whole. */
  lemma DecodeInSuffix(text: seq<Byte>, i: nat)
    requires i <= |text|
    ensures Complete(text, i) == Complete(text[i..], 0)
    ensures Complete(text, i) ==>
              DecodeAt(text, i) == DecodeAt(text[i..], 0) &&
              text[i..][LeadWidth(text[i])..] == text[i + LeadWidth(text[i])..]
  {
    if Complete(text, i) {
      var t := text[i..];
      assert t[0] == text[i];
      assert LeadWidth(text[i]) >= 2 ==> t[1] == text[i + 1];
      assert LeadWidth(text[i]) >= 3 ==> t[2] == text[i + 2];
      assert LeadWidth(text[i]) >= 4 ==> t[3] == text[i + 3];
    }
  }

  /** The decoding loop of `Raylib_MeasureText`: call the decoder until it
      reports -1 or the end is reached, keeping every code point. */
  method DecodeCodepoints(text: seq<Byte>) returns (cps: seq<int>)
    ensures cps == Codepoints(text)
  {
    cps := [];
    var index := 0;
    while index < |text|
      invariant 0 <= index <= |text|
      invariant cps + Codepoints(text[index..]) == Codepoints(text)
      decreases |text| - index
    {
      var codepoint, next := GetNextUtf8Char(text, index);
      DecodeInSuffix(text, index);
      if codepoint == -1 {
        break;
      }
      cps := cps + [codepoint];
      index := next;
    }
    DecodeInSuffix(text, index);
  }

  /** The walk by lead-byte classes lands exactly on the end of `s`. */
  predicate EndsCleanly(s: seq<Byte>)
    decreases |s|
  {
    s == [] || (LeadWidth(s[0]) <= |s| && EndsCleanly(s[LeadWidth(s[0])..]))
  }

  /** The counter and the decoder agree on every character but a final one
      that is cut short, which the counter counts and the decoder drops. */
  lemma {:induction false} CountMatchesDecoding(s: seq<Byte>)
    ensures |Codepoints(s)| == CharCount(s) - (if EndsCleanly(s) then 0 else 1)
    decreases |s|
  {
    if s != [] && LeadWidth(s[0]) < |s| {
      CountMatchesDecoding(s[LeadWidth(s[0])..]);
    }
  }

  /** A Unicode scalar value: a code point that is not a surrogate. */
  predicate IsScalarValue(cp: int)
  {
    0 <= cp <= 0x10_FFFF && !(0xD800 <= cp <= 0xDFFF)
  }

  /** The UTF-8 encoding of a scalar value, as the table in section 3 of
      RFC 3629 gives it: the shortest of the one- to four-byte forms. */
  function Encode(cp: int): (r: seq<Byte>)
    requires IsScalarValue(cp)
    ensures 1 <= |r| <= 4
    ensures |r| == 1 <==> cp < 0x80
  {
    if cp < 0x80 then [cp]
    else if cp < 0x800 then [0xC0 + cp / 64, 0x80 + cp % 64]
    else if cp < 0x1_0000 then [0xE0 + cp / 4096, 0x80 + cp / 64 % 64, 0x80 + cp % 64]
    else [0xF0 + cp / 262144, 0x80 + cp / 4096 % 64, 0x80 + cp / 64 % 64, 0x80 + cp % 64]
  }

  /** The bit fields of a two-, three- and four-byte encoding put back together. */
  lemma Reassemble2(cp: int)
    requires 0x80 <= cp < 0x800
    ensures (0xC0 + cp / 64) % 32 * 64 + (0x80 + cp % 64) % 64 == cp
  {
    assert (0xC0 + cp / 64) % 32 == cp / 64;
  }

  lemma Reassemble3(cp: int)
    requires 0x800 <= cp < 0x1_0000
    ensures (0xE0 + cp / 4096) % 16 * 4096 + (0x80 + cp / 64 % 64) % 64 * 64
            + (0x80 + cp % 64) % 64 == cp
  {
    assert (0xE0 + cp / 4096) % 16 == cp / 4096;
    assert cp / 4096 * 64 + cp / 64 % 64 == cp / 64;
  }

  lemma Reassemble4(cp: int)
    requires 0x1_0000 <= cp <= 0x10_FFFF
    ensures (0xF0 + cp / 262144) % 8 * 262144 + (0x80 + cp / 4096 % 64) % 64 * 4096
            + (0x80 + cp / 64 % 64) % 64 * 64 + (0x80 + cp % 64) % 64 == cp
  {
    assert (0xF0 + cp / 262144) % 8 == cp / 262144;
    assert cp / 262144 * 64 + cp / 4096 % 64 == cp / 4096;
    assert cp / 4096 * 64 + cp / 64 % 64 == cp / 64;
  }

  /** The lead byte of an encoding claims exactly the encoding's length, and
      decoding it gives the scalar value back, whatever follows it. */
  lemma DecodeEncode(cp: int, rest: seq<Byte>)
    requires IsScalarValue(cp)
    ensures LeadWidth((Encode(cp) + rest)[0]) == |Encode(cp)|
    ensures DecodeAt(Encode(cp) + rest, 0) == cp
  {
    var e := Encode(cp);
    var t := e + rest;
    assert t[0] == e[0];
    if cp < 0x80 {
    } else if cp < 0x800 {
      assert t[1] == e[1];
      Reassemble2(cp);
    } else if cp < 0x1_0000 {
      assert t[1] == e[1] && t[2] == e[2];
      Reassemble3(cp);
    } else {
      assert t[1] == e[1] && t[2] == e[2] && t[3] == e[3];
      Reassemble4(cp);
    }
  }

  predicate AllScalarValues(cps: seq<int>)
  {
    forall k :: 0 <= k < |cps| ==> IsScalarValue(cps[k])
  }

  /** The encoding of a sequence of scalar values, character after character. */
  function EncodeAll(cps: seq<int>): (r: seq<Byte>)
    requires AllScalarValues(cps)
    ensures |cps| <= |r| <= 4 * |cps|
  {
    if cps == [] then [] else Encode(cps[0]) + EncodeAll(cps[1..])
  }

  /** Decoding a well-formed UTF-8 string gives back its scalar values. */
  lemma {:induction false} DecodeEncodeAll(cps: seq<int>)
    requires AllScalarValues(cps)
    ensures Codepoints(EncodeAll(cps)) == cps
    ensures EndsCleanly(EncodeAll(cps))
  {
    if cps != [] {
      var e, rest := Encode(cps[0]), EncodeAll(cps[1..]);
      DecodeEncode(cps[0], rest);
      assert (e + rest)[|e|..] == rest;
      DecodeEncodeAll(cps[1..]);
    }
  }

  /** On a well-formed UTF-8 string the counter counts the encoded scalar
      values, and the decoding loop yields exactly that many code points. */
  lemma CountOfEncoding(cps: seq<int>)
    requires AllScalarValues(cps)
    ensures CharCount(EncodeAll(cps)) == |cps|
    ensures |Codepoints(EncodeAll(cps))| == CharCount(EncodeAll(cps))
  {
    DecodeEncodeAll(cps);
    CountMatchesDecoding(EncodeAll(cps));
  }
}
