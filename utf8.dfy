/** The UTF-8 first-symbol decoder of unicode/utf8.cpp, a table-driven form
    of the decoder of section 4 of RFC 3629: the class of the first byte
    gives the length of the sequence and the range its second byte must lie
    in, which rules out overlong forms, surrogates and values above
    U+10FFFF. The bit operations of the source are written as the equivalent
    arithmetic on bytes (x & 7 == x % 8, x >> 4 == x / 16, b & 0x3F == b % 64). */
module Utf8 {

  newtype byte = x: int | 0 <= x < 256

  /** The value returned for a malformed sequence (U+FFFD). */
  const UnicodeError: int := 0xFFFD
  const MaxRune: int := 0x10FFFF

  // Entries of the first-byte table: the high nibble indexes the accept
  // ranges (or is F for the one-byte cases), the low nibble is the length.
  const Xx: int := 0xF1  // invalid, length 1
  const As: int := 0xF0  // ASCII, length 1
  const S1: int := 0x02
  const S2: int := 0x13
  const S3: int := 0x03
  const S4: int := 0x23
  const S5: int := 0x34
  const S6: int := 0x04
  const S7: int := 0x44

  /** The table `first`, row by row. */
  function First(b: byte): (x: int)
    ensures x in {Xx, As, S1, S2, S3, S4, S5, S6, S7}
  {
    if b < 0x80 then As
    else if b < 0xC2 then Xx
    else if b < 0xE0 then S1
    else if b == 0xE0 then S2
    else if b < 0xED then S3
    else if b == 0xED then S4
    else if b < 0xF0 then S3
    else if b == 0xF0 then S5
    else if b < 0xF4 then S6
    else if b == 0xF4 then S7
    else Xx
  }

  /** The table `acceptRanges`: the bounds of the second byte. */
  function AcceptRange(i: int): (r: (byte, byte))
    requires 0 <= i < 5
    ensures 0x80 <= r.0 <= r.1 <= 0xBF
  {
    if i == 0 then (0x80, 0xBF)
    else if i == 1 then (0xA0, 0xBF)
    else if i == 2 then (0x80, 0x9F)
    else if i == 3 then (0x90, 0xBF)
    else (0x80, 0x8F)
  }

  predicate IsContinuation(b: byte) { 0x80 <= b <= 0xBF }

  /** A Unicode scalar value: a code point that is not a surrogate. */
  predicate IsScalar(cp: int) { 0 <= cp <= MaxRune && !(0xD800 <= cp <= 0xDFFF) }

  /** The UTF-8 encoding of a scalar value (section 3 of RFC 3629): the
      bits of cp, six at a time from the right, in the continuation bytes. */
  function Encode(cp: int): (e: seq<byte>)
    requires IsScalar(cp)
    ensures 1 <= |e| <= 4
    ensures |e| == 1 <==> cp < 0x80
    ensures forall i :: 1 <= i < |e| ==> IsContinuation(e[i])
  {
    if cp < 0x80 then [cp as byte]
    else if cp < 0x800 then [(0xC0 + cp / 64) as byte, (0x80 + cp % 64) as byte]
    else if cp < 0x1_0000 then
      [(0xE0 + cp / 64 / 64) as byte, (0x80 + cp / 64 % 64) as byte, (0x80 + cp % 64) as byte]
    else
      [(0xF0 + cp / 64 / 64 / 64) as byte, (0x80 + cp / 64 / 64 % 64) as byte,
       (0x80 + cp / 64 % 64) as byte, (0x80 + cp % 64) as byte]
  }

  /** decode_symbol: the first code point of s and the number of bytes it
      takes; (0, 0) for an empty input and (UnicodeError, 1) for a malformed
      or truncated sequence. */
  function DecodeSymbol(s: seq<byte>): (r: (int, nat))
    ensures r.1 <= |s| && r.1 <= 4
    ensures s == [] <==> r.1 == 0
    ensures s == [] ==> r.0 == 0
    ensures s != [] && s[0] < 0x80 ==> r == (s[0] as int, 1)
    ensures s != [] && (0x80 <= s[0] < 0xC2 || 0xF5 <= s[0]) ==> r == (UnicodeError, 1)
    ensures r.1 == 1 ==> r.0 == UnicodeError || (r.0 == s[0] as int && s[0] < 0x80)
  {
    var n := |s|;
    if n < 1 then (0, 0)
    else
      var s0 := s[0];
      var x := First(s0);
      if x >= As then
        (if x == Xx then UnicodeError else s0 as int, 1)
      else
        var sz := x % 8;
        var accept := AcceptRange(x / 16);
        if n < sz then (UnicodeError, 1)
        else if s[1] < accept.0 || accept.1 < s[1] then (UnicodeError, 1)
        else if sz <= 2 then (Payload2(s0, s[1]), 2)
        else if s[2] < 0x80 || 0xBF < s[2] then (UnicodeError, 1)
        else if sz <= 3 then (Payload3(s0, s[1], s[2]), 3)
        else if s[3] < 0x80 || 0xBF < s[3] then (UnicodeError, 1)
        else (Payload4(s0, s[1], s[2], s[3]), 4)
  }

  // The values assembled from the payload bits, written with the shifts
  // << 6, << 12 and << 18 as multiplications.
  function Payload2(b0: byte, b1: byte): int {
    (b0 as int % 32) * 64 + b1 as int % 64
  }

  function Payload3(b0: byte, b1: byte, b2: byte): int {
    ((b0 as int % 16) * 64 + b1 as int % 64) * 64 + b2 as int % 64
  }

  function Payload4(b0: byte, b1: byte, b2: byte, b3: byte): int {
    (((b0 as int % 8) * 64 + b1 as int % 64) * 64 + b2 as int % 64) * 64 + b3 as int % 64
  }

  /** a == q * 64 + r with 0 <= r < 64 determines q and r. */
  lemma Split64(a: int, q: int, r: int)
    requires 0 <= r < 64 && a == q * 64 + r
    ensures a / 64 == q && a % 64 == r
  {
  }

  /** Every scalar value is decoded from its encoding, whatever follows it. */
  lemma DecodeEncode(cp: int, rest: seq<byte>)
    requires IsScalar(cp)
    ensures DecodeSymbol(Encode(cp) + rest) == (cp, |Encode(cp)|)
  {
    var e := Encode(cp);
    var s := e + rest;
    assert s[0] == e[0];
    if cp < 0x80 {
    } else if cp < 0x800 {
      assert s[1] == e[1];
      EncodePayload2(cp);
      DecodeTwo(s);
    } else if cp < 0x1_0000 {
      assert s[1] == e[1] && s[2] == e[2];
      EncodePayload3(cp);
      DecodeThree(s);
    } else {
      assert s[1] == e[1] && s[2] == e[2] && s[3] == e[3];
      EncodePayload4(cp);
      DecodeFour(s);
    }
  }

  lemma EncodePayload2(cp: int)
    requires 0x80 <= cp < 0x800
    ensures var e := Encode(cp); 0xC2 <= e[0] <= 0xDF && Payload2(e[0], e[1]) == cp
  {
    var e := Encode(cp);
    Split64(e[0] as int - 0xC0, 0, cp / 64);
  }

  lemma EncodePayload3(cp: int)
    requires IsScalar(cp) && 0x800 <= cp < 0x1_0000
    ensures var e := Encode(cp); 0xE0 <= e[0] <= 0xEF
    ensures var e := Encode(cp); var r := AcceptRange(First(e[0]) / 16); r.0 <= e[1] <= r.1
    ensures var e := Encode(cp); Payload3(e[0], e[1], e[2]) == cp
  {
    var e := Encode(cp);
    var h := cp / 64;
    var g := h / 64;
    assert e[0] as int == 0xE0 + g;
    assert e[1] as int == 0x80 + h % 64;
    assert e[2] as int == 0x80 + cp % 64;
    Split64(e[0] as int - 0xE0, 0, g);
    assert g == 0 ==> h % 64 >= 0x20;
    assert g == 0xD ==> h % 64 < 0x20;
  }

  lemma EncodePayload4(cp: int)
    requires IsScalar(cp) && 0x1_0000 <= cp
    ensures var e := Encode(cp); 0xF0 <= e[0] <= 0xF4
    ensures var e := Encode(cp); var r := AcceptRange(First(e[0]) / 16); r.0 <= e[1] <= r.1
    ensures var e := Encode(cp); Payload4(e[0], e[1], e[2], e[3]) == cp
  {
    var e := Encode(cp);
    var h := cp / 64;
    var g := h / 64;
    var f := g / 64;
    assert e[0] as int == 0xF0 + f;
    assert e[1] as int == 0x80 + g % 64;
    assert e[2] as int == 0x80 + h % 64;
    assert e[3] as int == 0x80 + cp % 64;
    Split64(e[0] as int - 0xF0, 0, f);
    assert f == 0 ==> g % 64 >= 0x10;
    assert f == 4 ==> g % 64 < 0x10;
  }

  /** The two-byte branch of the decoder. */
  lemma DecodeTwo(s: seq<byte>)
    requires |s| >= 2 && 0xC2 <= s[0] <= 0xDF && IsContinuation(s[1])
    ensures DecodeSymbol(s) == (Payload2(s[0], s[1]), 2)
  {
    WidthOfFirst(s[0]);
  }

  /** The three-byte branch of the decoder. */
  lemma DecodeThree(s: seq<byte>)
    requires |s| >= 3 && 0xE0 <= s[0] <= 0xEF && IsContinuation(s[2])
    requires var r := AcceptRange(First(s[0]) / 16); r.0 <= s[1] <= r.1
    ensures DecodeSymbol(s) == (Payload3(s[0], s[1], s[2]), 3)
  {
    WidthOfFirst(s[0]);
  }

  /** The four-byte branch of the decoder. */
  lemma DecodeFour(s: seq<byte>)
    requires |s| >= 4 && 0xF0 <= s[0] <= 0xF4 && IsContinuation(s[2]) && IsContinuation(s[3])
    requires var r := AcceptRange(First(s[0]) / 16); r.0 <= s[1] <= r.1
    ensures DecodeSymbol(s) == (Payload4(s[0], s[1], s[2], s[3]), 4)
  {
    WidthOfFirst(s[0]);
  }

  /** Conversely, a symbol of two or more bytes is a scalar value of at least
      U+0080 whose encoding is exactly the bytes consumed: the decoder accepts
      no overlong form, no surrogate and nothing above U+10FFFF. */
  lemma DecodedIsEncoding(s: seq<byte>)
    requires DecodeSymbol(s).1 >= 2
    ensures IsScalar(DecodeSymbol(s).0) && DecodeSymbol(s).0 >= 0x80
    ensures Encode(DecodeSymbol(s).0) == s[..DecodeSymbol(s).1]
  {
    var w := DecodeSymbol(s).1;
    if w == 2 {
      DecodedTwo(s);
    } else if w == 3 {
      DecodedThree(s);
    } else {
      DecodedFour(s);
    }
  }

  /** The width the first byte announces. */
  lemma WidthOfFirst(b: byte)
    ensures First(b) < As ==> (First(b) % 8 == 2 <==> 0xC2 <= b <= 0xDF)
    ensures First(b) < As ==> (First(b) % 8 == 3 <==> 0xE0 <= b <= 0xEF)
    ensures First(b) < As ==> (First(b) % 8 == 4 <==> 0xF0 <= b <= 0xF4)
    ensures First(b) >= As <==> b < 0xC2 || b > 0xF4
  {
  }

  lemma DecodedTwo(s: seq<byte>)
    requires DecodeSymbol(s).1 == 2
    ensures IsScalar(DecodeSymbol(s).0) && DecodeSymbol(s).0 >= 0x80
    ensures Encode(DecodeSymbol(s).0) == s[..2]
  {
    ShapeTwo(s);
    PayloadEncodes2(s[0], s[1]);
    assert s[..2] == [s[0], s[1]];
  }

  lemma DecodedThree(s: seq<byte>)
    requires DecodeSymbol(s).1 == 3
    ensures IsScalar(DecodeSymbol(s).0) && DecodeSymbol(s).0 >= 0x80
    ensures Encode(DecodeSymbol(s).0) == s[..3]
  {
    ShapeThree(s);
    PayloadEncodes3(s[0], s[1], s[2]);
    assert s[..3] == [s[0], s[1], s[2]];
  }

  lemma DecodedFour(s: seq<byte>)
    requires DecodeSymbol(s).1 == 4
    ensures IsScalar(DecodeSymbol(s).0) && DecodeSymbol(s).0 >= 0x80
    ensures Encode(DecodeSymbol(s).0) == s[..4]
  {
    ShapeFour(s);
    PayloadEncodes4(s[0], s[1], s[2], s[3]);
    assert s[..4] == [s[0], s[1], s[2], s[3]];
  }

  /** What a two-byte symbol says about the bytes it was read from. */
  lemma ShapeTwo(s: seq<byte>)
    requires DecodeSymbol(s).1 == 2
    ensures |s| >= 2 && 0xC2 <= s[0] <= 0xDF && IsContinuation(s[1])
    ensures DecodeSymbol(s).0 == Payload2(s[0], s[1])
  {
    WidthOfFirst(s[0]);
  }

  /** What a three-byte symbol says about the bytes it was read from. */
  lemma ShapeThree(s: seq<byte>)
    requires DecodeSymbol(s).1 == 3
    ensures |s| >= 3 && 0xE0 <= s[0] <= 0xEF && IsContinuation(s[2])
    ensures var r := AcceptRange(First(s[0]) / 16); r.0 <= s[1] <= r.1
    ensures DecodeSymbol(s).0 == Payload3(s[0], s[1], s[2])
  {
    WidthOfFirst(s[0]);
  }

  /** What a four-byte symbol says about the bytes it was read from. */
  lemma ShapeFour(s: seq<byte>)
    requires DecodeSymbol(s).1 == 4
    ensures |s| >= 4 && 0xF0 <= s[0] <= 0xF4 && IsContinuation(s[2]) && IsContinuation(s[3])
    ensures var r := AcceptRange(First(s[0]) / 16); r.0 <= s[1] <= r.1
    ensures DecodeSymbol(s).0 == Payload4(s[0], s[1], s[2], s[3])
  {
    WidthOfFirst(s[0]);
  }

  lemma PayloadEncodes2(b0: byte, b1: byte)
    requires 0xC2 <= b0 <= 0xDF && IsContinuation(b1)
    ensures var cp := Payload2(b0, b1); IsScalar(cp) && cp >= 0x80 && Encode(cp) == [b0, b1]
  {
    var cp := Payload2(b0, b1);
    Split64(cp, b0 as int - 0xC0, b1 as int - 0x80);
  }

  lemma PayloadEncodes3(b0: byte, b1: byte, b2: byte)
    requires 0xE0 <= b0 <= 0xEF && IsContinuation(b2)
    requires var r := AcceptRange(First(b0) / 16); r.0 <= b1 <= r.1
    ensures var cp := Payload3(b0, b1, b2); IsScalar(cp) && cp >= 0x80 && Encode(cp) == [b0, b1, b2]
  {
    var x, y, z := b0 as int - 0xE0, b1 as int - 0x80, b2 as int - 0x80;
    SecondByte3(b0, b1);
    LeadBits(b0 as int);
    Split64(b1 as int, 2, y);
    Split64(b2 as int, 2, z);
    var cp := Payload3(b0, b1, b2);
    assert cp == (x * 64 + y) * 64 + z;
    Digits3(x, y, z);
    var e := Encode(cp);
    assert e[0] == b0 && e[1] == b1 && e[2] == b2;
  }

  /** The second byte of a three-byte sequence rules out the overlong forms
      (after E0) and the surrogates (after ED). */
  lemma SecondByte3(b0: byte, b1: byte)
    requires 0xE0 <= b0 <= 0xEF
    requires var r := AcceptRange(First(b0) / 16); r.0 <= b1 <= r.1
    ensures 0x80 <= b1 <= 0xBF
    ensures b0 == 0xE0 ==> b1 >= 0xA0
    ensures b0 == 0xED ==> b1 <= 0x9F
  {
    if b0 == 0xE0 {
      assert First(b0) == S2;
    } else if b0 == 0xED {
      assert First(b0) == S4;
    } else {
      assert First(b0) == S3;
    }
  }

  /** The second byte of a four-byte sequence rules out the overlong forms
      (after F0) and the values above U+10FFFF (after F4). */
  lemma SecondByte4(b0: byte, b1: byte)
    requires 0xF0 <= b0 <= 0xF4
    requires var r := AcceptRange(First(b0) / 16); r.0 <= b1 <= r.1
    ensures 0x80 <= b1 <= 0xBF
    ensures b0 == 0xF0 ==> b1 >= 0x90
    ensures b0 == 0xF4 ==> b1 <= 0x8F
  {
    if b0 == 0xF0 {
      assert First(b0) == S5;
    } else if b0 == 0xF4 {
      assert First(b0) == S7;
    } else {
      assert First(b0) == S6;
    }
  }

  /** The payload bits of a lead byte. */
  lemma LeadBits(b: int)
    requires 0xE0 <= b <= 0xF7
    ensures b < 0xF0 ==> b % 16 == b - 0xE0
    ensures b >= 0xF0 ==> b % 8 == b - 0xF0
  {
  }

  /** The code point of three payload digits in base 64, and where it lies. */
  lemma Digits3(x: int, y: int, z: int)
    requires 0 <= x < 16 && 0 <= y < 64 && 0 <= z < 64
    ensures var cp := (x * 64 + y) * 64 + z;
      cp / 64 / 64 == x && cp / 64 % 64 == y && cp % 64 == z && 0 <= cp < 0x1_0000
    ensures var cp := (x * 64 + y) * 64 + z; cp >= 0x800 <==> x > 0 || y >= 32
    ensures var cp := (x * 64 + y) * 64 + z; 0xD800 <= cp <= 0xDFFF <==> x == 13 && y >= 32
  {
    var h := x * 64 + y;
    var cp := h * 64 + z;
    Split64(cp, h, z);
    Split64(h, x, y);
  }

  /** The code point of four payload digits in base 64, and where it lies. */
  lemma Digits4(w: int, x: int, y: int, z: int)
    requires 0 <= w < 8 && 0 <= x < 64 && 0 <= y < 64 && 0 <= z < 64
    ensures var cp := ((w * 64 + x) * 64 + y) * 64 + z;
      cp / 64 / 64 / 64 == w && cp / 64 / 64 % 64 == x && cp / 64 % 64 == y && cp % 64 == z
    ensures var cp := ((w * 64 + x) * 64 + y) * 64 + z; cp >= 0x1_0000 <==> w > 0 || x >= 16
    ensures var cp := ((w * 64 + x) * 64 + y) * 64 + z; cp <= MaxRune <==> w < 4 || (w == 4 && x < 16)
  {
    var g := w * 64 + x;
    var h := g * 64 + y;
    var cp := h * 64 + z;
    Split64(cp, h, z);
    Split64(h, g, y);
    Split64(g, w, x);
  }

  lemma PayloadEncodes4(b0: byte, b1: byte, b2: byte, b3: byte)
    requires 0xF0 <= b0 <= 0xF4 && IsContinuation(b2) && IsContinuation(b3)
    requires var r := AcceptRange(First(b0) / 16); r.0 <= b1 <= r.1
    ensures IsScalar(Payload4(b0, b1, b2, b3)) && Payload4(b0, b1, b2, b3) >= 0x80
    ensures Encode(Payload4(b0, b1, b2, b3)) == [b0, b1, b2, b3]
  {
    var w, x, y, z := b0 as int - 0xF0, b1 as int - 0x80, b2 as int - 0x80, b3 as int - 0x80;
    SecondByte4(b0, b1);
    LeadBits(b0 as int);
    Split64(b1 as int, 2, x);
    Split64(b2 as int, 2, y);
    Split64(b3 as int, 2, z);
    var cp := Payload4(b0, b1, b2, b3);
    assert cp == ((w * 64 + x) * 64 + y) * 64 + z;
    Digits4(w, x, y, z);
    var e := Encode(cp);
    assert e[0] == b0 && e[1] == b1 && e[2] == b2 && e[3] == b3;
  }

  /** A multi-byte sequence cut short, or whose continuation byte is out of
      range, decodes as (UnicodeError, 1). */
  lemma DecodeTruncated(cp: int, k: nat)
    requires IsScalar(cp) && cp >= 0x80 && 0 < k < |Encode(cp)|
    ensures DecodeSymbol(Encode(cp)[..k]) == (UnicodeError, 1)
  {
    var e := Encode(cp);
    var s := e[..k];
    assert s[0] == e[0];
    if cp < 0x800 {
    } else if cp < 0x1_0000 {
      if k == 2 {
        assert s[1] == e[1];
      }
    } else {
      if k >= 2 {
        assert s[1] == e[1];
      }
      if k == 3 {
        assert s[2] == e[2];
      }
    }
  }

  /** Decoding a valid sequence needs only as many bytes as it has. */
  lemma DecodeWidthSufficient(s: seq<byte>, rest: seq<byte>)
    requires DecodeSymbol(s).1 >= 2
    ensures DecodeSymbol(s + rest) == DecodeSymbol(s)
  {
    DecodedIsEncoding(s);
    var (cp, w) := DecodeSymbol(s);
    DecodeEncode(cp, s[w..] + rest);
    DecodeEncode(cp, s[w..]);
    SplitAt(s, w, rest);
  }

  lemma SplitAt(s: seq<byte>, w: nat, rest: seq<byte>)
    requires w <= |s|
    ensures s == s[..w] + s[w..] && s + rest == s[..w] + (s[w..] + rest)
  {
  }

  /** A sequence that does not start with the encoding of any non-ASCII
      scalar value (a stray continuation byte, a truncated or overlong form,
      a surrogate, a value above U+10FFFF, a bad continuation byte) decodes
      as (UnicodeError, 1). */
  lemma DecodeRejects(s: seq<byte>)
    requires |s| > 0 && s[0] >= 0x80
    requires forall cp :: IsScalar(cp) && cp >= 0x80 && |Encode(cp)| <= |s| ==> s[..|Encode(cp)|] != Encode(cp)
    ensures DecodeSymbol(s) == (UnicodeError, 1)
  {
    if DecodeSymbol(s).1 >= 2 {
      DecodedIsEncoding(s);
      assert false;
    }
  }
}
