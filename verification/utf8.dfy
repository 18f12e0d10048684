/** UTF-8 as defined in section 3 of RFC 3629, decoded the way Go's
    utf8.DecodeRune does it: the first well-formed UTF8-char of the input
    (the syntax of section 4 of RFC 3629) and its width, or the replacement
    character with width 1 when the input does not start with one. */
module Utf8 {
  import opened Io

  /** U+FFFD, the value returned for malformed input. */
  const RuneError: int := 0xFFFD
  /** Bytes below RuneSelf stand for themselves. */
  const RuneSelf: int := 0x80
  const MaxRune: int := 0x10FFFF
  /** The widest encoding of one rune. */
  const UTFMax: int := 4

  /** A Unicode scalar value: a code point that is not a surrogate. */
  predicate IsScalar(c: int) {
    0 <= c <= MaxRune && !(0xD800 <= c <= 0xDFFF)
  }

  /** A decoded rune and the number of bytes it took. */
  datatype Decoded = Decoded(rune: int, size: nat)

  /** UTF8-tail of RFC 3629: 10xxxxxx. */
  predicate IsTail(b: byte) {
    0x80 <= b <= 0xBF
  }

  /** The width a leading byte announces; 0 for a byte no UTF8-char starts
      with (a tail byte, the overlong leads C0 and C1, and F5 to FF). */
  function LeadWidth(b0: byte): nat {
    if b0 < 0x80 then 1
    else if b0 < 0xC2 then 0
    else if b0 < 0xE0 then 2
    else if b0 < 0xF0 then 3
    else if b0 < 0xF5 then 4
    else 0
  }

  /** Bounds of the second byte after a multi-byte lead: narrower after E0
      and F0 (no overlong forms), ED (no surrogates) and F4 (nothing above
      U+10FFFF). */
  function SecondLow(b0: byte): byte {
    if b0 == 0xE0 then 0xA0 else if b0 == 0xF0 then 0x90 else 0x80
  }

  function SecondHigh(b0: byte): byte {
    if b0 == 0xED then 0x9F else if b0 == 0xF4 then 0x8F else 0xBF
  }

  /** Go's utf8.DecodeRune. */
  function DecodeRune(p: seq<byte>): (d: Decoded)
    ensures |p| == 0 <==> d.size == 0
    ensures |p| == 0 ==> d.rune == RuneError
    ensures |p| > 0 ==> 1 <= d.size <= Min(UTFMax, |p|)
    ensures |p| > 0 && p[0] < RuneSelf ==> d == Decoded(p[0], 1)
  {
    if |p| == 0 then Decoded(RuneError, 0)
    else if p[0] < RuneSelf then Decoded(p[0], 1)
    else
      var w := LeadWidth(p[0]);
      if w == 0 || |p| < w then Decoded(RuneError, 1)
      else if !(SecondLow(p[0]) <= p[1] <= SecondHigh(p[0])) then Decoded(RuneError, 1)
      else if w == 2 then Decoded(Combine2(p[0], p[1]), 2)
      else if !IsTail(p[2]) then Decoded(RuneError, 1)
      else if w == 3 then Decoded(Combine3(p[0], p[1], p[2]), 3)
      else if !IsTail(p[3]) then Decoded(RuneError, 1)
      else Decoded(Combine4(p[0], p[1], p[2], p[3]), 4)
  }

  /** The value bits of a two-, three- and four-byte sequence put together:
      the low bits of the lead (5, 4 or 3 of them) followed by six bits of
      each tail byte. */
  function Combine2(b0: int, b1: int): int {
    (b0 - 0xC0) * 64 + (b1 - 0x80)
  }

  function Combine3(b0: int, b1: int, b2: int): int {
    (b0 - 0xE0) * 4096 + (b1 - 0x80) * 64 + (b2 - 0x80)
  }

  function Combine4(b0: int, b1: int, b2: int, b3: int): int {
    (b0 - 0xF0) * 262144 + (b1 - 0x80) * 4096 + (b2 - 0x80) * 64 + (b3 - 0x80)
  }

  /** Number of bytes in the encoding of a scalar value (the table of
      section 3 of RFC 3629). */
  function RuneLen(c: int): nat
    requires IsScalar(c)
  {
    if c < 0x80 then 1
    else if c < 0x800 then 2
    else if c < 0x10000 then 3
    else 4
  }

  /** The UTF-8 encoding of a scalar value, section 3 of RFC 3629. */
  function EncodeRune(c: int): (e: seq<byte>)
    requires IsScalar(c)
    ensures |e| == RuneLen(c)
    ensures 1 <= |e| <= UTFMax
    ensures c < RuneSelf <==> |e| == 1
  {
    if c < 0x80 then [c]
    else if c < 0x800 then [0xC0 + c / 64, 0x80 + c % 64]
    else if c < 0x10000 then [0xE0 + c / 4096, 0x80 + (c / 64) % 64, 0x80 + c % 64]
    else [0xF0 + c / 262144, 0x80 + (c / 4096) % 64, 0x80 + (c / 64) % 64, 0x80 + c % 64]
  }

  predicate AllScalars(cs: seq<int>) {
    forall i :: 0 <= i < |cs| ==> IsScalar(cs[i])
  }

  /** The encoding of a text: the encodings of its runes, one after another. */
  function EncodeAll(cs: seq<int>): (e: seq<byte>)
    requires AllScalars(cs)
    ensures |cs| <= |e| <= UTFMax * |cs|
    ensures |cs| > 0 ==> e == EncodeRune(cs[0]) + EncodeAll(cs[1..])
  {
    if |cs| == 0 then [] else EncodeRune(cs[0]) + EncodeAll(cs[1..])
  }

  /** Decoding the encoding of a scalar value gives that value back with
      the width of its encoding, whatever follows it. */
  lemma DecodeEncodeRune(c: int, rest: seq<byte>)
    requires IsScalar(c)
    ensures DecodeRune(EncodeRune(c) + rest) == Decoded(c, RuneLen(c))
  {
    var p := EncodeRune(c) + rest;
    if c < 0x80 {
    } else if c < 0x800 {
      assert p[0] == 0xC0 + c / 64 && p[1] == 0x80 + c % 64;
    } else if c < 0x10000 {
      assert p[0] == 0xE0 + c / 4096 && p[1] == 0x80 + (c / 64) % 64 && p[2] == 0x80 + c % 64;
      ThreeByteSecond(c);
    } else {
      assert p[0] == 0xF0 + c / 262144 && p[1] == 0x80 + (c / 4096) % 64;
      assert p[2] == 0x80 + (c / 64) % 64 && p[3] == 0x80 + c % 64;
      FourByteSecond(c);
    }
  }

  /** The second byte of a three-byte encoding lies in the range its lead
      allows, and the pieces put back together give c. */
  lemma ThreeByteSecond(c: int)
    requires IsScalar(c) && 0x800 <= c < 0x10000
    ensures SecondLow(0xE0 + c / 4096) <= 0x80 + (c / 64) % 64 <= SecondHigh(0xE0 + c / 4096)
    ensures (c / 4096) * 4096 + ((c / 64) % 64) * 64 + c % 64 == c
  {
  }

  /** The same for the second byte of a four-byte encoding. */
  lemma FourByteSecond(c: int)
    requires IsScalar(c) && 0x10000 <= c
    ensures SecondLow(0xF0 + c / 262144) <= 0x80 + (c / 4096) % 64 <= SecondHigh(0xF0 + c / 262144)
    ensures (c / 262144) * 262144 + ((c / 4096) % 64) * 4096 + ((c / 64) % 64) * 64 + c % 64 == c
  {
  }

  /** Whatever DecodeRune accepts is the encoding of a scalar value: either
      it reports malformed input with (U+FFFD, 1), or the bytes it consumed
      are exactly the encoding of the rune it returns. */
  lemma DecodedIsEncoding(p: seq<byte>)
    requires |p| > 0
    ensures var d := DecodeRune(p);
      || d == Decoded(RuneError, 1)
      || (IsScalar(d.rune) && d.size == RuneLen(d.rune) && p[..d.size] == EncodeRune(d.rune))
  {
    var d := DecodeRune(p);
    if d != Decoded(RuneError, 1) && p[0] >= RuneSelf {
      if d.size == 2 {
        Combine2IsEncoding(p[0], p[1]);
        assert p[..2] == [p[0], p[1]];
      } else if d.size == 3 {
        Combine3IsEncoding(p[0], p[1], p[2]);
        assert p[..3] == [p[0], p[1], p[2]];
      } else {
        Combine4IsEncoding(p[0], p[1], p[2], p[3]);
        assert p[..4] == [p[0], p[1], p[2], p[3]];
      }
    }
  }

  lemma Combine2IsEncoding(b0: byte, b1: byte)
    requires LeadWidth(b0) == 2 && SecondLow(b0) <= b1 <= SecondHigh(b0)
    ensures IsScalar(Combine2(b0, b1)) && RuneLen(Combine2(b0, b1)) == 2
    ensures EncodeRune(Combine2(b0, b1)) == [b0, b1]
  {
    var c := Combine2(b0, b1);
    assert c / 64 == b0 - 0xC0 && c % 64 == b1 - 0x80;
  }

  lemma Combine3IsEncoding(b0: byte, b1: byte, b2: byte)
    requires LeadWidth(b0) == 3 && SecondLow(b0) <= b1 <= SecondHigh(b0) && IsTail(b2)
    ensures IsScalar(Combine3(b0, b1, b2)) && RuneLen(Combine3(b0, b1, b2)) == 3
    ensures EncodeRune(Combine3(b0, b1, b2)) == [b0, b1, b2]
  {
    var c := Combine3(b0, b1, b2);
    var q := (b0 - 0xE0) * 64 + (b1 - 0x80);
    assert c == q * 64 + (b2 - 0x80);
    assert c / 64 == q && c % 64 == b2 - 0x80;
    assert q / 64 == b0 - 0xE0 && q % 64 == b1 - 0x80;
    assert c / 4096 == q / 64;
  }

  lemma Combine4IsEncoding(b0: byte, b1: byte, b2: byte, b3: byte)
    requires LeadWidth(b0) == 4 && SecondLow(b0) <= b1 <= SecondHigh(b0) && IsTail(b2) && IsTail(b3)
    ensures IsScalar(Combine4(b0, b1, b2, b3)) && RuneLen(Combine4(b0, b1, b2, b3)) == 4
    ensures EncodeRune(Combine4(b0, b1, b2, b3)) == [b0, b1, b2, b3]
  {
    var c := Combine4(b0, b1, b2, b3);
    var q2 := (b0 - 0xF0) * 64 + (b1 - 0x80);
    var q1 := q2 * 64 + (b2 - 0x80);
    assert c == q1 * 64 + (b3 - 0x80);
    assert c / 64 == q1 && c % 64 == b3 - 0x80;
    assert q1 / 64 == q2 && q1 % 64 == b2 - 0x80;
    assert q2 / 64 == b0 - 0xF0 && q2 % 64 == b1 - 0x80;
    assert c / 4096 == q2;
    assert c / 262144 == b0 - 0xF0;
  }

  /** When DecodeRune reports malformed input, no scalar value's encoding is
      a prefix of the input: the replacement is returned only for bytes
      outside the UTF8-char syntax. */
  lemma MalformedHasNoEncodingPrefix(p: seq<byte>, c: int)
    requires DecodeRune(p) == Decoded(RuneError, 1)
    requires IsScalar(c)
    ensures !(EncodeRune(c) <= p)
  {
    if EncodeRune(c) <= p {
      var e := EncodeRune(c);
      assert p == e + p[|e|..];
      DecodeEncodeRune(c, p[|e|..]);
    }
  }
}
